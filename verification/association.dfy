/**
 * The nearest-person associator (`assign_hand_to_person`): a hand or a
 * scooper belongs to the tracked person whose box centre is nearest to the
 * box's centre, provided that person is less than 300 units away. Each time
 * the scan finds a nearer person it asks the identity resolver for that
 * person's worker number, so the resolver is threaded through the scan.
 */
module Association {
  import opened Wrappers
  import opened Geometry
  import opened Detections
  import OrderedDict
  import Identity

  /** Square of the association radius of 300 units. */
  const MaxAssocSq: real := 90000.0

  function DistTo(c: Point, p: PersonBox): real {
    SqDist(c, Centre(p.box))
  }

  /** A tracked person strictly inside the association radius of `c`. */
  predicate Candidate(c: Point, p: PersonBox) {
    p.track.Some? && DistTo(c, p) < MaxAssocSq
  }

  predicate HasCandidate(c: Point, persons: seq<PersonBox>) {
    exists j | 0 <= j < |persons| :: Candidate(c, persons[j])
  }

  /**
   * Among the first `n` persons, `persons[k]` is a candidate, strictly nearer
   * than every earlier candidate and no farther than every later one.
   */
  ghost predicate NearestAmong(c: Point, persons: seq<PersonBox>, n: nat, k: nat) {
    && k < n <= |persons|
    && Candidate(c, persons[k])
    && (forall j | 0 <= j < k && Candidate(c, persons[j]) :: DistTo(c, persons[j]) > DistTo(c, persons[k]))
    && (forall j | k < j < n && Candidate(c, persons[j]) :: DistTo(c, persons[j]) >= DistTo(c, persons[k]))
  }

  /** The nearest candidate, the first in list order among equally near ones. */
  ghost predicate IsNearest(c: Point, persons: seq<PersonBox>, k: nat) {
    NearestAmong(c, persons, |persons|, k)
  }

  /** At most one person is the nearest candidate. */
  lemma NearestUnique(c: Point, persons: seq<PersonBox>, k1: nat, k2: nat)
    requires IsNearest(c, persons, k1) && IsNearest(c, persons, k2)
    ensures k1 == k2
  {
  }

  /**
   * The scan's loop variables: `best` is `min_dist` (None for infinity),
   * `owner` is `assigned_id`, and `chosen` records which person set them.
   */
  datatype Scan = Scan(best: Option<real>, owner: Option<nat>, chosen: Option<nat>, r: Identity.Resolver)

  /** What the scan has established after looking at the first `i` persons. */
  ghost predicate ScanInv(c: Point, persons: seq<PersonBox>, i: nat, s: Scan) {
    && i <= |persons|
    && (s.chosen.None? <==> forall j | 0 <= j < i :: !Candidate(c, persons[j]))
    && (s.chosen.None? ==> s.best.None? && s.owner.None?)
    && (s.chosen.Some? ==>
          var k := s.chosen.value;
          && NearestAmong(c, persons, i, k)
          && s.best == Some(DistTo(c, persons[k]))
          && persons[k].track.value in s.r.workerOf
          && s.owner == Some(s.r.workerOf[persons[k].track.value]))
  }

  /** The scan's loop body for person `i`: a nearer candidate takes over `best` and `owner`. */
  function ScanStep(policy: Identity.Policy, c: Point, persons: seq<PersonBox>, i: nat, s: Scan): (s': Scan)
    requires i < |persons|
    ensures Identity.Valid(s.r) ==> Identity.Valid(s'.r)
    ensures Identity.Keeps(s.r, s'.r)
  {
    var p := persons[i];
    if p.track.Some? && (s.best.None? || DistTo(c, p) < s.best.value) && DistTo(c, p) < MaxAssocSq then
      var res := Identity.Resolve(policy, s.r, p.track.value, Centre(p.box));
      Scan(Some(DistTo(c, p)), Some(res.id), Some(i), res.after)
    else s
  }

  /** One loop body keeps what the scan has established, now about the first `i + 1` persons. */
  lemma ScanStepInv(policy: Identity.Policy, c: Point, persons: seq<PersonBox>, i: nat, s: Scan)
    requires i < |persons| && ScanInv(c, persons, i, s)
    ensures ScanInv(c, persons, i + 1, ScanStep(policy, c, persons, i, s))
  {
  }

  /** The rest of the loop, from person `i` on. */
  function ScanFrom(policy: Identity.Policy, c: Point, persons: seq<PersonBox>, i: nat, s: Scan): (out: Scan)
    requires i <= |persons|
    ensures Identity.Valid(s.r) ==> Identity.Valid(out.r)
    ensures Identity.Keeps(s.r, out.r)
    decreases |persons| - i
  {
    if i == |persons| then s
    else
      var s' := ScanStep(policy, c, persons, i, s);
      var out := ScanFrom(policy, c, persons, i + 1, s');
      Identity.KeepsTransitive(s.r, s'.r, out.r);
      out
  }

  /** Once the loop has run to the end, the invariant speaks of every person. */
  lemma {:induction false} ScanFromInv(policy: Identity.Policy, c: Point, persons: seq<PersonBox>, i: nat, s: Scan)
    requires i <= |persons| && ScanInv(c, persons, i, s)
    ensures ScanInv(c, persons, |persons|, ScanFrom(policy, c, persons, i, s))
    decreases |persons| - i
  {
    if i < |persons| {
      ScanStepInv(policy, c, persons, i, s);
      ScanFromInv(policy, c, persons, i + 1, ScanStep(policy, c, persons, i, s));
    }
  }

  datatype Assignment = Assignment(worker: Option<nat>, after: Identity.Resolver)

  /**
   * `assign_hand_to_person(box, persons)`: the worker number of the nearest
   * tracked person within the radius, or None when no tracked person is
   * within it.
   */
  function Associate(policy: Identity.Policy, b: Box, persons: seq<PersonBox>, r: Identity.Resolver): (a: Assignment)
    ensures a.worker.None? <==> !HasCandidate(Centre(b), persons)
    ensures a.worker.Some? ==>
              exists k: nat :: IsNearest(Centre(b), persons, k)
                       && persons[k].track.value in a.after.workerOf
                       && a.worker.value == a.after.workerOf[persons[k].track.value]
    ensures Identity.Valid(r) ==> Identity.Valid(a.after)
    ensures Identity.Keeps(r, a.after)
  {
    var s := ScanFrom(policy, Centre(b), persons, 0, Scan(None, None, None, r));
    ScanFromInv(policy, Centre(b), persons, 0, Scan(None, None, None, r));
    assert s.chosen.Some? ==> IsNearest(Centre(b), persons, s.chosen.value);
    Assignment(s.owner, s.r)
  }

  /** The boxes attributed to each worker so far, in attribution order (`person_hands`, `worker_scoopers`). */
  type Owned = OrderedDict.Dict<nat, seq<Box>>

  /** Appends `b` to worker `w`'s list, creating the list if `w` has none. */
  function AddTo(owned: Owned, w: nat, b: Box): (o: Owned)
    ensures OrderedDict.Valid(owned) ==> OrderedDict.Valid(o)
    ensures o.entries.Keys == owned.entries.Keys + {w}
    ensures o.entries[w] == (if w in owned.entries then owned.entries[w] else []) + [b]
    ensures forall v | v in owned.entries && v != w :: o.entries[v] == owned.entries[v]
  {
    OrderedDict.Put(owned, w, OrderedDict.Get(owned, w).GetOr([]) + [b])
  }

  datatype Attribution = Attribution(owned: Owned, after: Identity.Resolver)

  /**
   * Attributing every box of a kind in detection order, appending each to
   * the list of the worker it is assigned to and dropping unassigned ones.
   */
  function Attribute(policy: Identity.Policy, boxes: seq<Box>, persons: seq<PersonBox>, r: Identity.Resolver, owned: Owned): (out: Attribution)
    ensures OrderedDict.Valid(owned) ==> OrderedDict.Valid(out.owned)
    ensures Identity.Valid(r) ==> Identity.Valid(out.after)
    ensures Identity.Keeps(r, out.after)
    ensures forall w | w in owned.entries :: w in out.owned.entries
    ensures (forall w | w in owned.entries :: |owned.entries[w]| > 0) ==>
              forall w | w in out.owned.entries :: |out.owned.entries[w]| > 0
    decreases |boxes|
  {
    if boxes == [] then Attribution(owned, r)
    else
      var a := Associate(policy, boxes[0], persons, r);
      var owned' := Place(owned, a.worker, boxes[0]);
      var out := Attribute(policy, boxes[1..], persons, a.after, owned');
      Identity.KeepsTransitive(r, a.after, out.after);
      out
  }

  /** Every box listed in `out` was listed in `owned` already, or is one of `boxes` with a candidate person. */
  ghost predicate AttributedFrom(owned: Owned, boxes: seq<Box>, persons: seq<PersonBox>, out: Owned) {
    forall w, x | w in out.entries && x in out.entries[w] ::
      (w in owned.entries && x in owned.entries[w]) || (x in boxes && HasCandidate(Centre(x), persons))
  }

  /** A box with no tracked person inside the radius is attributed to nobody. */
  lemma {:induction false} OnlyNearBoxesAttributed(policy: Identity.Policy, boxes: seq<Box>, persons: seq<PersonBox>,
                                                   r: Identity.Resolver, owned: Owned)
    ensures AttributedFrom(owned, boxes, persons, Attribute(policy, boxes, persons, r, owned).owned)
    decreases |boxes|
  {
    if boxes != [] {
      var a := Associate(policy, boxes[0], persons, r);
      var owned' := Place(owned, a.worker, boxes[0]);
      var out := Attribute(policy, boxes[1..], persons, a.after, owned').owned;
      assert Attribute(policy, boxes, persons, r, owned).owned == out;
      OnlyNearBoxesAttributed(policy, boxes[1..], persons, a.after, owned');
      assert AttributedFrom(owned, [boxes[0]], persons, owned');
      AttributedFromChain(owned, owned', out, boxes, persons);
    }
  }

  lemma AttributedFromChain(owned: Owned, owned': Owned, out: Owned, boxes: seq<Box>, persons: seq<PersonBox>)
    requires |boxes| > 0
    requires AttributedFrom(owned, [boxes[0]], persons, owned')
    requires AttributedFrom(owned', boxes[1..], persons, out)
    ensures AttributedFrom(owned, boxes, persons, out)
  {
    forall w, x | w in out.entries && x in out.entries[w]
      ensures (w in owned.entries && x in owned.entries[w]) || (x in boxes && HasCandidate(Centre(x), persons))
    {
      if x in boxes[1..] {
        assert x in boxes;
      } else {
        assert w in owned'.entries && x in owned'.entries[w];
        assert x in [boxes[0]] ==> x == boxes[0] && x in boxes;
      }
    }
  }

  /** Worker `w`'s list in `owned`, empty when `w` has none. */
  function ListOf(owned: Owned, w: nat): seq<Box> {
    if w in owned.entries then owned.entries[w] else []
  }

  /** The resolver as the attribution loop holds it just before it reaches `boxes[k]`. */
  ghost function ResolverBefore(policy: Identity.Policy, boxes: seq<Box>, persons: seq<PersonBox>,
                                r: Identity.Resolver, k: nat): Identity.Resolver
    requires k <= |boxes|
    decreases k
  {
    if k == 0 then r
    else ResolverBefore(policy, boxes[1..], persons, Associate(policy, boxes[0], persons, r).after, k - 1)
  }

  /** The worker the attribution loop assigns `boxes[k]` to, or None. */
  ghost function WorkerAt(policy: Identity.Policy, boxes: seq<Box>, persons: seq<PersonBox>,
                          r: Identity.Resolver, k: nat): Option<nat>
    requires k < |boxes|
  {
    Associate(policy, boxes[k], persons, ResolverBefore(policy, boxes, persons, r, k)).worker
  }

  /** The boxes of `boxes` assigned to worker `w`, in detection order. */
  ghost function Picked(policy: Identity.Policy, boxes: seq<Box>, persons: seq<PersonBox>,
                        r: Identity.Resolver, w: nat): seq<Box>
    decreases |boxes|
  {
    if boxes == [] then []
    else
      var a := Associate(policy, boxes[0], persons, r);
      (if a.worker == Some(w) then [boxes[0]] else []) + Picked(policy, boxes[1..], persons, a.after, w)
  }

  /** Each worker's list after attribution is its old list followed by the boxes assigned to it, in detection order. */
  lemma {:induction false} AttributeLists(policy: Identity.Policy, boxes: seq<Box>, persons: seq<PersonBox>,
                                          r: Identity.Resolver, owned: Owned, w: nat)
    ensures ListOf(Attribute(policy, boxes, persons, r, owned).owned, w) ==
            ListOf(owned, w) + Picked(policy, boxes, persons, r, w)
    decreases |boxes|
  {
    if boxes == [] {
      assert Picked(policy, boxes, persons, r, w) == [];
    } else {
      var a := Associate(policy, boxes[0], persons, r);
      var owned' := Place(owned, a.worker, boxes[0]);
      AttributeLists(policy, boxes[1..], persons, a.after, owned', w);
      PlaceListOf(owned, a.worker, boxes[0], w);
      AttributeCons(policy, boxes, persons, r, owned, w);
      var x := if a.worker == Some(w) then [boxes[0]] else [];
      ConcatAssoc(ListOf(owned, w), x, Picked(policy, boxes[1..], persons, a.after, w));
    }
  }

  lemma ConcatAssoc(a: seq<Box>, b: seq<Box>, c: seq<Box>)
    ensures a + b + c == a + (b + c)
  {
  }

  /** Where one box goes: onto the list of the worker it is assigned to, or nowhere. */
  function Place(owned: Owned, worker: Option<nat>, b: Box): Owned {
    if worker.Some? then AddTo(owned, worker.value, b) else owned
  }

  lemma PlaceListOf(owned: Owned, worker: Option<nat>, b: Box, w: nat)
    ensures ListOf(Place(owned, worker, b), w) == ListOf(owned, w) + (if worker == Some(w) then [b] else [])
  {
    if worker.Some? { AddToListOf(owned, worker.value, b, w); }
  }

  lemma AttributeCons(policy: Identity.Policy, boxes: seq<Box>, persons: seq<PersonBox>,
                      r: Identity.Resolver, owned: Owned, w: nat)
    requires boxes != []
    ensures var a := Associate(policy, boxes[0], persons, r);
            && Attribute(policy, boxes, persons, r, owned).owned == Attribute(policy, boxes[1..], persons, a.after, Place(owned, a.worker, boxes[0])).owned
            && Picked(policy, boxes, persons, r, w) == (if a.worker == Some(w) then [boxes[0]] else []) + Picked(policy, boxes[1..], persons, a.after, w)
  {
  }

  lemma AddToListOf(owned: Owned, v: nat, b: Box, w: nat)
    ensures ListOf(AddTo(owned, v, b), w) == ListOf(owned, w) + (if v == w then [b] else [])
  {
  }

  /**
   * A box with a tracked person within the radius is assigned to a worker,
   * the one `Associate` names at that point of the loop, and it is in that
   * worker's list of assigned boxes.
   */
  lemma {:induction false} NearBoxesPicked(policy: Identity.Policy, boxes: seq<Box>, persons: seq<PersonBox>,
                                           r: Identity.Resolver, k: nat)
    requires k < |boxes|
    ensures HasCandidate(Centre(boxes[k]), persons) <==> WorkerAt(policy, boxes, persons, r, k).Some?
    ensures WorkerAt(policy, boxes, persons, r, k).Some? ==>
              boxes[k] in Picked(policy, boxes, persons, r, WorkerAt(policy, boxes, persons, r, k).value)
    decreases k
  {
    var a := Associate(policy, boxes[0], persons, r);
    if k > 0 {
      NearBoxesPicked(policy, boxes[1..], persons, a.after, k - 1);
      assert WorkerAt(policy, boxes, persons, r, k) == WorkerAt(policy, boxes[1..], persons, a.after, k - 1);
      if WorkerAt(policy, boxes, persons, r, k).Some? {
        var w := WorkerAt(policy, boxes, persons, r, k).value;
        assert Picked(policy, boxes, persons, r, w) ==
               (if a.worker == Some(w) then [boxes[0]] else []) + Picked(policy, boxes[1..], persons, a.after, w);
      }
    }
  }

  /** The converse of `OnlyNearBoxesAttributed`: every box with a tracked person in reach lands in its worker's list. */
  lemma NearBoxesAttributed(policy: Identity.Policy, boxes: seq<Box>, persons: seq<PersonBox>,
                            r: Identity.Resolver, owned: Owned, k: nat)
    requires k < |boxes|
    requires HasCandidate(Centre(boxes[k]), persons)
    ensures var w := WorkerAt(policy, boxes, persons, r, k);
            && w.Some?
            && w.value in Attribute(policy, boxes, persons, r, owned).owned.entries
            && boxes[k] in Attribute(policy, boxes, persons, r, owned).owned.entries[w.value]
  {
    NearBoxesPicked(policy, boxes, persons, r, k);
    var w := WorkerAt(policy, boxes, persons, r, k).value;
    AttributeLists(policy, boxes, persons, r, owned, w);
  }
}
