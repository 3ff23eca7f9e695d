/**
 * The identity resolver (`get_consistent_worker_id`): it maps the tracker's
 * raw, churn-prone track identifiers to stable worker numbers, minted from a
 * counter that starts at 1.
 *
 * The service engine and the two-worker script differ only in what happens
 * to a track seen for the first time: the service engine always mints a new
 * worker number, while the two-worker script first looks for a stored
 * position within 150 units and, if it finds one, reuses that worker's number.
 */
module Identity {
  import opened Wrappers
  import opened Geometry
  import OrderedDict
  import opened Detections

  /** How an unknown track is handled. */
  datatype Policy = Plain | Reidentify

  /** Square of the re-identification radius of 150 units. */
  const ReidRadiusSq: real := 22500.0

  /**
   * `workerOf` is `worker_id_map`, `positions` is `worker_positions` (whose
   * iteration order the re-identification scan follows), and `next` is
   * `next_worker_id`.
   */
  datatype Resolver = Resolver(workerOf: map<int, nat>, positions: OrderedDict.Dict<int, Point>, next: nat)

  /** The resolver state a session starts from. */
  function Initial(): (r: Resolver)
    ensures Valid(r) && r.workerOf == map[] && r.next == 1
  {
    Resolver(map[], OrderedDict.Empty(), 1)
  }

  /**
   * Every track with a worker number has a stored position and vice versa,
   * and every worker number handed out so far lies in [1, next).
   */
  ghost predicate Valid(r: Resolver) {
    && OrderedDict.Valid(r.positions)
    && r.positions.entries.Keys == r.workerOf.Keys
    && r.next >= 1
    && forall t | t in r.workerOf :: 1 <= r.workerOf[t] < r.next
  }

  /** `r'` keeps every binding of `r`, lists `r`'s tracks first, and has not lowered the counter. */
  ghost predicate Keeps(r: Resolver, r': Resolver) {
    && (forall t | t in r.workerOf :: t in r'.workerOf && r'.workerOf[t] == r.workerOf[t])
    && r.positions.keys <= r'.positions.keys
    && r.next <= r'.next
  }

  lemma KeepsTransitive(r1: Resolver, r2: Resolver, r3: Resolver)
    requires Keeps(r1, r2) && Keeps(r2, r3)
    ensures Keeps(r1, r3)
  {
  }

  /** Track `e` is a mapped track whose stored position is strictly within the radius of `p`. */
  predicate Near(r: Resolver, e: int, p: Point) {
    e in r.workerOf && e in r.positions.entries && SqDist(p, r.positions.entries[e]) < ReidRadiusSq
  }

  /** Index in `ks` of the first track near `p`: the scan over `worker_positions.items()`. */
  function FirstNear(r: Resolver, ks: seq<int>, p: Point): (k: Option<nat>)
    ensures k.None? <==> forall j :: 0 <= j < |ks| ==> !Near(r, ks[j], p)
    ensures k.Some? ==> k.value < |ks| && Near(r, ks[k.value], p)
    ensures k.Some? ==> forall j :: 0 <= j < k.value ==> !Near(r, ks[j], p)
  {
    if ks == [] then None
    else if Near(r, ks[0], p) then Some(0)
    else match FirstNear(r, ks[1..], p)
         case None => None
         case Some(j) => Some(j + 1)
  }

  /** No stored position lies within the re-identification radius of `p`. */
  ghost predicate FarFromAll(r: Resolver, p: Point) {
    forall u | u in r.positions.entries :: SqDist(p, r.positions.entries[u]) >= ReidRadiusSq
  }

  datatype Resolution = Resolution(id: nat, after: Resolver)

  /** Binds the unknown track `t` to a fresh worker number, above every number in use. */
  function Mint(r: Resolver, t: int, p: Point): (res: Resolution)
    requires t !in r.workerOf
    ensures Valid(r) ==> Valid(res.after)
    ensures Keeps(r, res.after)
    ensures res.id == r.next && res.after.next == r.next + 1
    ensures Valid(r) ==> forall u | u in r.workerOf :: r.workerOf[u] < res.id
  {
    var r' := Resolver(r.workerOf[t := r.next], OrderedDict.Put(r.positions, t, p), r.next + 1);
    assert Valid(r) ==> r'.positions.entries.Keys == r'.workerOf.Keys;
    Resolution(r.next, r')
  }

  /** Binds the unknown track `t` to the worker number of the mapped track `e`. */
  function Rebind(r: Resolver, t: int, e: int, p: Point): (res: Resolution)
    requires t !in r.workerOf && e in r.workerOf
    ensures Valid(r) ==> Valid(res.after)
    ensures Keeps(r, res.after)
    ensures res.id == r.workerOf[e] && res.after.next == r.next
  {
    var r' := r.(workerOf := r.workerOf[t := r.workerOf[e]], positions := OrderedDict.Put(r.positions, t, p));
    assert Valid(r) ==> r'.positions.entries.Keys == r'.workerOf.Keys;
    Resolution(r.workerOf[e], r')
  }

  /** A known track keeps its number; only its stored position moves. */
  function Refresh(r: Resolver, t: int, p: Point): (res: Resolution)
    requires t in r.workerOf
    ensures Valid(r) ==> Valid(res.after)
    ensures Keeps(r, res.after)
    ensures res.id == r.workerOf[t] && res.after.workerOf == r.workerOf && res.after.next == r.next
  {
    var r' := r.(positions := OrderedDict.Put(r.positions, t, p));
    assert Valid(r) ==> r'.positions.entries.Keys == r'.workerOf.Keys;
    Resolution(r.workerOf[t], r')
  }

  /**
   * `get_consistent_worker_id(t, p)`: returns the worker number for track `t`
   * seen at position `p`, and the updated resolver.
   */
  function Resolve(policy: Policy, r: Resolver, t: int, p: Point): (res: Resolution)
    ensures Valid(r) ==> Valid(res.after)
    ensures Keeps(r, res.after)
    ensures t in res.after.workerOf && res.after.workerOf[t] == res.id
    ensures t in res.after.positions.entries && res.after.positions.entries[t] == p
    // a known track keeps its number and nothing is minted
    ensures t in r.workerOf ==> res.id == r.workerOf[t] && res.after.workerOf == r.workerOf && res.after.next == r.next
    // the counter moves only to mint the number just returned
    ensures res.after.next == r.next || (t !in r.workerOf && res.id == r.next && res.after.next == r.next + 1)
    // a minted number is held by no other track
    ensures Valid(r) && res.after.next != r.next ==> forall u | u in r.workerOf :: r.workerOf[u] < res.id
    // without re-identification every unknown track is minted
    ensures policy == Plain && t !in r.workerOf ==> res.id == r.next && res.after.next == r.next + 1
    // with re-identification an unknown track joins the first nearby worker, if any
    ensures policy == Reidentify && t !in r.workerOf ==>
              match FirstNear(r, r.positions.keys, p)
              case Some(k) => res.id == r.workerOf[r.positions.keys[k]] && res.after.next == r.next
              case None => res.id == r.next && res.after.next == r.next + 1
  {
    if t in r.workerOf then Refresh(r, t, p)
    else if policy == Plain then Mint(r, t, p)
    else match FirstNear(r, r.positions.keys, p)
      case Some(k) => Rebind(r, t, r.positions.keys[k], p)
      case None => Mint(r, t, p)
  }

  /** Under `Valid`, the scan finds nothing exactly when every stored position is far away. */
  lemma FirstNearNoneIff(r: Resolver, p: Point)
    requires Valid(r)
    ensures FirstNear(r, r.positions.keys, p).None? <==> FarFromAll(r, p)
  {
    var ks := r.positions.keys;
    if FirstNear(r, ks, p).None? {
      forall u | u in r.positions.entries
        ensures SqDist(p, r.positions.entries[u]) >= ReidRadiusSq
      {
        var j :| 0 <= j < |ks| && ks[j] == u;
        assert !Near(r, ks[j], p);
      }
    } else {
      var k := FirstNear(r, ks, p).value;
      assert Near(r, ks[k], p);
    }
  }

  /**
   * Resolving the tracked persons of a frame in order, as the engines do
   * before any hand is attributed; untracked persons are skipped.
   */
  function ResolvePersons(policy: Policy, r: Resolver, persons: seq<PersonBox>): (r': Resolver)
    ensures Valid(r) ==> Valid(r')
    ensures Keeps(r, r')
    ensures forall i | 0 <= i < |persons| && persons[i].track.Some? :: persons[i].track.value in r'.workerOf
    decreases |persons|
  {
    if persons == [] then r
    else
      var p := persons[0];
      var r1 := if p.track.Some? then Resolve(policy, r, p.track.value, Centre(p.box)).after else r;
      var r' := ResolvePersons(policy, r1, persons[1..]);
      KeepsTransitive(r, r1, r');
      assert forall i | 1 <= i < |persons| :: persons[i] == persons[1..][i - 1];
      r'
  }

  /**
   * Two unknown tracks first seen far from every stored position, and far
   * from each other, receive distinct worker numbers, the later one larger.
   */
  lemma FarTracksGetIncreasingIds(r: Resolver, t1: int, p1: Point, t2: int, p2: Point)
    requires Valid(r)
    requires t1 !in r.workerOf && t2 !in r.workerOf && t1 != t2
    requires FarFromAll(r, p1) && FarFromAll(r, p2)
    requires SqDist(p2, p1) >= ReidRadiusSq
    ensures var a := Resolve(Reidentify, r, t1, p1);
            var b := Resolve(Reidentify, a.after, t2, p2);
            && a.id == r.next
            && b.id == a.id + 1
            && forall u | u in a.after.workerOf :: a.after.workerOf[u] < b.id
  {
    FirstNearNoneIff(r, p1);
    var a := Resolve(Reidentify, r, t1, p1);
    assert a.after.positions.entries == r.positions.entries[t1 := p1];
    assert FarFromAll(a.after, p2);
    FirstNearNoneIff(a.after, p2);
  }

  /**
   * When track `e` holds the only stored position within the radius of
   * either `p1` or `p2`, two unknown tracks seen there one after the other
   * both join `e`'s worker. This holds even when `p1` and `p2` are close
   * to each other: the first newcomer is listed after `e`, so the scan for
   * the second newcomer still reaches `e` first.
   */
  lemma NearbyTracksJoinSameWorker(r: Resolver, e: int, t1: int, p1: Point, t2: int, p2: Point)
    requires Valid(r)
    requires e in r.workerOf
    requires t1 !in r.workerOf && t2 !in r.workerOf && t1 != t2
    requires SqDist(p1, r.positions.entries[e]) < ReidRadiusSq
    requires SqDist(p2, r.positions.entries[e]) < ReidRadiusSq
    requires forall u | u in r.positions.entries && u != e ::
               SqDist(p1, r.positions.entries[u]) >= ReidRadiusSq && SqDist(p2, r.positions.entries[u]) >= ReidRadiusSq
    ensures var a := Resolve(Reidentify, r, t1, p1);
            var b := Resolve(Reidentify, a.after, t2, p2);
            a.id == r.workerOf[e] && b.id == r.workerOf[e] && a.after.next == r.next && b.after.next == r.next
  {
    var ks := r.positions.keys;
    var ke :| 0 <= ke < |ks| && ks[ke] == e;
    OnlyNearIsFirst(r, ks, e, ke, p1);
    var a := Rebind(r, t1, e, p1);
    assert a == Resolve(Reidentify, r, t1, p1);
    RebindKeepsScan(r, t1, e, ke, p1, p2);
    assert Resolve(Reidentify, a.after, t2, p2) == Rebind(a.after, t2, e, p2);
  }

  /** After `t1` joined `e`'s worker, a scan from `p2` still stops at `e`. */
  lemma RebindKeepsScan(r: Resolver, t1: int, e: int, ke: nat, p1: Point, p2: Point)
    requires Valid(r) && e in r.workerOf && t1 !in r.workerOf
    requires ke < |r.positions.keys| && r.positions.keys[ke] == e
    requires SqDist(p2, r.positions.entries[e]) < ReidRadiusSq
    requires forall u | u in r.positions.entries && u != e :: SqDist(p2, r.positions.entries[u]) >= ReidRadiusSq
    ensures var a := Rebind(r, t1, e, p1).after;
            FirstNear(a, a.positions.keys, p2) == Some(ke) && a.positions.keys[ke] == e
  {
    var ks := r.positions.keys;
    var a := Rebind(r, t1, e, p1).after;
    var ks' := a.positions.keys;
    assert ks' == ks + [t1];
    forall j | 0 <= j < ke ensures !Near(a, ks'[j], p2) {
      assert ks'[j] == ks[j] && ks[j] != e;
    }
    FirstNearAt(a, ks', ke, p2);
  }

  lemma OnlyNearIsFirst(r: Resolver, ks: seq<int>, e: int, ke: nat, p: Point)
    requires Valid(r) && ks == r.positions.keys
    requires ke < |ks| && ks[ke] == e && Near(r, e, p)
    requires forall u | u in r.positions.entries && u != e :: SqDist(p, r.positions.entries[u]) >= ReidRadiusSq
    ensures FirstNear(r, ks, p) == Some(ke)
  {
    forall j | 0 <= j < ke ensures !Near(r, ks[j], p) {
      assert ks[j] != e;
    }
    FirstNearAt(r, ks, ke, p);
  }

  /** The scan stops at the first nearby track. */
  lemma FirstNearAt(r: Resolver, ks: seq<int>, k: nat, p: Point)
    requires k < |ks| && Near(r, ks[k], p)
    requires forall j | 0 <= j < k :: !Near(r, ks[j], p)
    ensures FirstNear(r, ks, p) == Some(k)
  {
    var f := FirstNear(r, ks, p);
    assert f.Some?;
  }
}
