/**
 * The single-worker script (`detection_logic_one_worker.py`): one global
 * list of potential pickups and one global cooldown. A pickup opens when a
 * hand's centre enters a container while no pickup is active and the last
 * safe pickup is more than `grace` frames (`int(fps * 2)`) ago; for 40
 * frames it watches for a scooper touching a pizza, and then it is a
 * violation unless a scooper was seen. Processed pickups are dropped at the
 * end of every frame. No persons are tracked.
 */
module OneWorker {
  import opened Wrappers
  import opened Geometry
  import SE = ServiceEngine

  /** IoU threshold of `match_tracked_hand`. */
  const MatchIoU: real := 0.3

  /** IoU threshold of the scooper-touches-pizza test. */
  const TouchIoU: real := 0.0001

  /** Frames after its start during which a pickup watches for a scooper. */
  const EvaluationWindow: int := 40

  /** `last_safe_frame` before any safe pickup. */
  const NoSafeYet: int := -999

  /** An entry of `potential_pickups`. */
  datatype Pickup = Pickup(startFrame: int, hand: Box, scooperTouched: bool, processed: bool)

  /** The script's globals; `frameId` is the number of the last frame read. */
  datatype State = State(frameId: int, pickups: seq<Pickup>, lastSafe: int, violationCount: nat)

  function Initial(): (s: State)
    ensures s.frameId == 0 && s.pickups == [] && s.lastSafe == NoSafeYet && s.violationCount == 0
  {
    State(0, [], NoSafeYet, 0)
  }

  /**
   * `match_tracked_hand(event_hand, hands)`: the first hand, in detection
   * order, whose IoU with `eventHand` exceeds 0.3, or None. The script
   * defines it but never calls it.
   */
  function MatchTrackedHand(eventHand: Box, hands: seq<Box>): (r: Option<Box>)
    ensures r.None? <==> forall i | 0 <= i < |hands| :: !BoxesOverlap(eventHand, hands[i], MatchIoU)
    ensures r.Some? ==> exists k | 0 <= k < |hands| ::
                          && r.value == hands[k]
                          && BoxesOverlap(eventHand, hands[k], MatchIoU)
                          && forall i | 0 <= i < k :: !BoxesOverlap(eventHand, hands[i], MatchIoU)
  {
    if hands == [] then None
    else if BoxesOverlap(eventHand, hands[0], MatchIoU) then Some(hands[0])
    else
      var r := MatchTrackedHand(eventHand, hands[1..]);
      assert forall i | 1 <= i < |hands| :: hands[1..][i - 1] == hands[i];
      assert r.Some? ==> exists k | 1 <= k < |hands| ::
                           && r.value == hands[k]
                           && BoxesOverlap(eventHand, hands[k], MatchIoU)
                           && forall i | 0 <= i < k :: !BoxesOverlap(eventHand, hands[i], MatchIoU) by {
        if r.Some? {
          var k :| 0 <= k < |hands[1..]| && r.value == hands[1..][k] && BoxesOverlap(eventHand, hands[1..][k], MatchIoU)
                   && forall i | 0 <= i < k :: !BoxesOverlap(eventHand, hands[1..][i], MatchIoU);
          assert forall i | 1 <= i < k + 1 :: hands[i] == hands[1..][i - 1];
        }
      }
      r
  }

  predicate Active(ps: seq<Pickup>) {
    exists i | 0 <= i < |ps| :: !ps[i].processed
  }

  /** The opening gate: no active pickup, and the last safe pickup more than `grace` frames before frame `f`. */
  predicate MayOpen(s: State, f: int, grace: nat) {
    !Active(s.pickups) && f - s.lastSafe > grace
  }

  /** A pickup opened by `hand` in frame `f`. */
  function Fresh(hand: Box, f: int): Pickup {
    Pickup(f, hand, false, false)
  }

  /** How many of the containers `cs` hold the centre of `hand`. */
  function CountHolding(hand: Box, cs: seq<Container>): (n: nat)
    ensures n <= |cs|
    ensures n == 0 <==> forall k | 0 <= k < |cs| :: !IsInside(hand, cs[k].area)
  {
    if cs == [] then 0
    else
      assert forall k | 1 <= k < |cs| :: cs[1..][k - 1] == cs[k];
      (if IsInside(hand, cs[0].area) then 1 else 0) + CountHolding(hand, cs[1..])
  }

  /**
   * The opening loop as written: the break at its end runs after the first
   * hand whatever happened, so only `hands[0]` is examined, and it opens one
   * pickup for every container holding its centre.
   */
  function OpenAsWritten(ps: seq<Pickup>, hands: seq<Box>, f: int, gate: bool): (ps': seq<Pickup>)
    ensures ps <= ps'
    ensures |ps'| == |ps| + (if gate && hands != [] then CountHolding(hands[0], Containers) else 0)
    ensures forall i | |ps| <= i < |ps'| :: ps'[i] == Fresh(hands[0], f)
  {
    if gate && hands != [] then ps + FreshFor(hands[0], f, Containers) else ps
  }

  /** One fresh pickup per container of `cs` that holds `hand`. */
  function FreshFor(hand: Box, f: int, cs: seq<Container>): (r: seq<Pickup>)
    ensures |r| == CountHolding(hand, cs)
    ensures forall i | 0 <= i < |r| :: r[i] == Fresh(hand, f)
  {
    if cs == [] then []
    else (if IsInside(hand, cs[0].area) then [Fresh(hand, f)] else []) + FreshFor(hand, f, cs[1..])
  }

  /** The opening loop as intended: the first hand found in a container opens one pickup. */
  function OpenCorrected(ps: seq<Pickup>, hands: seq<Box>, f: int, gate: bool): (ps': seq<Pickup>)
    ensures !gate || SE.FirstInside(hands).None? ==> ps' == ps
    ensures gate && SE.FirstInside(hands).Some? ==>
              ps' == ps + [Fresh(hands[SE.FirstInside(hands).value], f)]
  {
    if !gate then ps
    else match SE.FirstInside(hands)
         case None => ps
         case Some(i) => ps + [Fresh(hands[i], f)]
  }

  /** The pickup `p` is open, past its window in frame `f`, and no scooper was seen: a violation. */
  predicate DueUnscooped(p: Pickup, f: int) {
    !p.processed && f - p.startFrame > EvaluationWindow && !p.scooperTouched
  }

  /** The pickup `p` is open, past its window in frame `f`, and a scooper was seen: a safe pickup. */
  predicate DueScooped(p: Pickup, f: int) {
    !p.processed && f - p.startFrame > EvaluationWindow && p.scooperTouched
  }

  /** The number of violations among `ps` in frame `f`. */
  ghost function Violations(ps: seq<Pickup>, f: int): nat {
    ViolationsFrom(ps, 0, f)
  }

  /** The number of violations among `ps[n..]` in frame `f`, counted by position. */
  ghost function ViolationsFrom(ps: seq<Pickup>, n: nat, f: int): nat {
    |set i: nat | n <= i < |ps| && DueUnscooped(ps[i], f)|
  }

  /**
   * What becomes of a pickup in frame `f`: a processed one stays, one inside
   * its window notes a scooper if `seen`, and an older one is closed.
   */
  function PickupAfter(p: Pickup, f: int, seen: bool): (p': Pickup)
    ensures p'.startFrame == p.startFrame && p'.hand == p.hand
    ensures p.scooperTouched ==> p'.scooperTouched
    ensures p'.processed <==> p.processed || f - p.startFrame > EvaluationWindow
    ensures p.processed ==> p' == p
    ensures !p.processed && f - p.startFrame <= EvaluationWindow ==> (p'.scooperTouched <==> p.scooperTouched || seen)
    ensures f - p.startFrame > EvaluationWindow ==> p'.scooperTouched == p.scooperTouched
  {
    if p.processed then p
    else if f - p.startFrame <= EvaluationWindow then p.(scooperTouched := p.scooperTouched || seen)
    else p.(processed := true)
  }

  datatype Evaluation = Evaluation(pickups: seq<Pickup>, lastSafe: int, violationCount: nat)

  /**
   * The evaluation loop over `ps` in frame `f`, where `seen` says whether a
   * scooper overlaps a pizza: every due pickup without a scooper adds a
   * violation, and a due pickup with one sets the cooldown to frame `f`.
   */
  function Evaluate(ps: seq<Pickup>, f: int, seen: bool, lastSafe: int, count: nat): (r: Evaluation)
    ensures |r.pickups| == |ps|
    ensures forall i | 0 <= i < |ps| :: r.pickups[i] == PickupAfter(ps[i], f, seen)
    ensures r.violationCount == count + Violations(ps, f)
    ensures r.lastSafe == if exists i | 0 <= i < |ps| :: DueScooped(ps[i], f) then f else lastSafe
  {
    EvaluateFrom(ps, 0, f, seen, lastSafe, count)
  }

  /** The evaluation loop from the `n`-th pickup on. */
  function EvaluateFrom(ps: seq<Pickup>, n: nat, f: int, seen: bool, lastSafe: int, count: nat): (r: Evaluation)
    requires n <= |ps|
    ensures |r.pickups| == |ps| - n
    ensures forall i | n <= i < |ps| :: r.pickups[i - n] == PickupAfter(ps[i], f, seen)
    ensures r.violationCount == count + ViolationsFrom(ps, n, f)
    ensures r.lastSafe == if exists i | n <= i < |ps| :: DueScooped(ps[i], f) then f else lastSafe
    decreases |ps| - n
  {
    if n == |ps| then
      Evaluation([], lastSafe, count)
    else
      var p := ps[n];
      var count1 := if DueUnscooped(p, f) then count + 1 else count;
      var lastSafe1 := if DueScooped(p, f) then f else lastSafe;
      var rest := EvaluateFrom(ps, n + 1, f, seen, lastSafe1, count1);
      ViolationsPeel(ps, n, f);
      var r := Evaluation([PickupAfter(p, f, seen)] + rest.pickups, rest.lastSafe, rest.violationCount);
      assert forall i | n <= i < |ps| :: r.pickups[i - n] == PickupAfter(ps[i], f, seen) by {
        forall i | n <= i < |ps| ensures r.pickups[i - n] == PickupAfter(ps[i], f, seen) {
          if i > n { assert r.pickups[i - n] == rest.pickups[i - (n + 1)]; }
        }
      }
      r
  }

  /** Peeling the `n`-th pickup off the violation count. */
  lemma ViolationsPeel(ps: seq<Pickup>, n: nat, f: int)
    requires n < |ps|
    ensures ViolationsFrom(ps, n, f) == (if DueUnscooped(ps[n], f) then 1 else 0) + ViolationsFrom(ps, n + 1, f)
  {
    var all := set i: nat | n <= i < |ps| && DueUnscooped(ps[i], f);
    var tail := set i: nat | n + 1 <= i < |ps| && DueUnscooped(ps[i], f);
    assert all == tail + (if DueUnscooped(ps[n], f) then {n} else {});
  }

  /** Pickups still inside their window come out of the evaluation loop open. */
  lemma YoungStayOpen(ps: seq<Pickup>, f: int, ev: Evaluation)
    requires |ev.pickups| == |ps|
    requires forall i | 0 <= i < |ps| :: ev.pickups[i].processed <==> ps[i].processed || f - ps[i].startFrame > EvaluationWindow
    ensures (forall i | 0 <= i < |ps| :: !ps[i].processed && f - ps[i].startFrame <= EvaluationWindow) ==>
              forall i | 0 <= i < |ev.pickups| :: !ev.pickups[i].processed
  {
  }

  /** Cleanup: the pickups that are still open, in order. */
  function Unprocessed(ps: seq<Pickup>): (r: seq<Pickup>)
    ensures |r| <= |ps|
    ensures forall i | 0 <= i < |r| :: !r[i].processed
    ensures forall p | p in ps && !p.processed :: p in r
    ensures forall p | p in r :: p in ps
    ensures (forall i | 0 <= i < |ps| :: !ps[i].processed) ==> r == ps
  {
    if ps == [] then []
    else
      var rest := Unprocessed(ps[1..]);
      assert forall p | p in ps :: p == ps[0] || p in ps[1..];
      if ps[0].processed then rest else [ps[0]] + rest
  }

  /** The cleanup of a concatenation is the cleanup of each part, in order. */
  lemma {:induction false} UnprocessedConcat(a: seq<Pickup>, b: seq<Pickup>)
    ensures Unprocessed(a + b) == Unprocessed(a) + Unprocessed(b)
    decreases |a|
  {
    if a == [] {
      assert a + b == b;
    } else {
      assert (a + b)[0] == a[0];
      assert (a + b)[1..] == a[1..] + b;
      UnprocessedConcat(a[1..], b);
    }
  }

  /** A single pickup survives the cleanup exactly when it is not processed. */
  lemma UnprocessedSingle(p: Pickup)
    ensures Unprocessed([p]) == if p.processed then [] else [p]
  {
  }

  /**
   * The rest of a frame once the opening loop has turned the pending pickups
   * into `ps`: the evaluation loop, then the cleanup. Only pickups opened in
   * this frame may have been added.
   */
  function Finish(s: State, ps: seq<Pickup>, scoopers: seq<Box>, pizzas: seq<Box>): (s': State)
    requires s.pickups <= ps
    requires forall i | |s.pickups| <= i < |ps| :: ps[i].startFrame == s.frameId + 1
    ensures s'.frameId == s.frameId + 1
    ensures s'.violationCount == s.violationCount + Violations(s.pickups, s'.frameId)
    ensures s'.lastSafe == if exists i | 0 <= i < |s.pickups| :: DueScooped(s.pickups[i], s'.frameId) then s'.frameId else s.lastSafe
    ensures forall i | 0 <= i < |s'.pickups| :: !s'.pickups[i].processed
    ensures |s'.pickups| <= |ps|
    ensures (forall i | 0 <= i < |ps| :: ps[i].startFrame <= s'.frameId) ==>
              forall i | 0 <= i < |s'.pickups| :: s'.pickups[i].startFrame <= s'.frameId
    ensures (forall i | 0 <= i < |ps| :: !ps[i].processed && s'.frameId - ps[i].startFrame <= EvaluationWindow) ==>
              |s'.pickups| == |ps|
  {
    var f := s.frameId + 1;
    var ev := Evaluate(ps, f, AnyOverlap(pizzas, scoopers, TouchIoU), s.lastSafe, s.violationCount);
    NewPickupsNotDue(s.pickups, ps, f);
    var kept := Unprocessed(ev.pickups);
    assert forall i | 0 <= i < |kept| :: kept[i] in ev.pickups;
    YoungStayOpen(ps, f, ev);
    State(f, kept, ev.lastSafe, ev.violationCount)
  }

  /**
   * One iteration of the frame loop as written, on the frame's hand,
   * scooper and pizza boxes, with `grace` the cooldown `int(fps * 2)`.
   */
  function StepAsWritten(s: State, hands: seq<Box>, scoopers: seq<Box>, pizzas: seq<Box>, grace: nat): (s': State)
    ensures s'.frameId == s.frameId + 1
    ensures s'.violationCount == s.violationCount + Violations(s.pickups, s'.frameId)
    ensures s'.lastSafe == if exists i | 0 <= i < |s.pickups| :: DueScooped(s.pickups[i], s'.frameId) then s'.frameId else s.lastSafe
    ensures forall i | 0 <= i < |s'.pickups| :: !s'.pickups[i].processed
    ensures !MayOpen(s, s'.frameId, grace) ==> |s'.pickups| <= |s.pickups|
  {
    Finish(s, OpenAsWritten(s.pickups, hands, s.frameId + 1, MayOpen(s, s.frameId + 1, grace)), scoopers, pizzas)
  }

  /** The same iteration with the opening loop as intended. */
  function StepCorrected(s: State, hands: seq<Box>, scoopers: seq<Box>, pizzas: seq<Box>, grace: nat): (s': State)
    ensures s'.frameId == s.frameId + 1
    ensures s'.violationCount == s.violationCount + Violations(s.pickups, s'.frameId)
    ensures s'.lastSafe == if exists i | 0 <= i < |s.pickups| :: DueScooped(s.pickups[i], s'.frameId) then s'.frameId else s.lastSafe
    ensures forall i | 0 <= i < |s'.pickups| :: !s'.pickups[i].processed
    ensures !MayOpen(s, s'.frameId, grace) ==> |s'.pickups| <= |s.pickups|
  {
    Finish(s, OpenCorrected(s.pickups, hands, s.frameId + 1, MayOpen(s, s.frameId + 1, grace)), scoopers, pizzas)
  }

  /** With the intended opening loop at most one pickup is ever pending, so a frame adds at most one violation. */
  lemma StepCorrectedKeepsValid(s: State, hands: seq<Box>, scoopers: seq<Box>, pizzas: seq<Box>, grace: nat)
    ensures var s' := StepCorrected(s, hands, scoopers, pizzas, grace);
            Valid(s) ==> Valid(s') && s'.violationCount <= s.violationCount + 1
  {
    if Valid(s) {
      var f := s.frameId + 1;
      var ps := OpenCorrected(s.pickups, hands, f, MayOpen(s, f, grace));
      AtMostOneAfterOpen(s, hands, grace);
      assert forall i | 0 <= i < |ps| :: ps[i].startFrame <= f;
      SmallCard(s.pickups, f);
    }
  }

  /** Pickups opened in frame `f` are not due in frame `f`, so they neither count nor set the cooldown. */
  lemma NewPickupsNotDue(ps: seq<Pickup>, ps': seq<Pickup>, f: int)
    requires ps <= ps'
    requires forall i | |ps| <= i < |ps'| :: ps'[i].startFrame == f
    ensures Violations(ps', f) == Violations(ps, f)
    ensures (exists i | 0 <= i < |ps'| :: DueScooped(ps'[i], f)) <==> (exists i | 0 <= i < |ps| :: DueScooped(ps[i], f))
  {
    assert forall i | 0 <= i < |ps| :: ps'[i] == ps[i];
    assert (set i: nat | 0 <= i < |ps'| && DueUnscooped(ps'[i], f)) == (set i: nat | 0 <= i < |ps| && DueUnscooped(ps[i], f));
  }

  /** At most one pickup is pending, and it started no later than the current frame. */
  ghost predicate Valid(s: State) {
    && |s.pickups| <= 1
    && forall i | 0 <= i < |s.pickups| :: !s.pickups[i].processed && s.pickups[i].startFrame <= s.frameId
  }

  lemma AtMostOneAfterOpen(s: State, hands: seq<Box>, grace: nat)
    requires Valid(s)
    ensures |OpenCorrected(s.pickups, hands, s.frameId + 1, MayOpen(s, s.frameId + 1, grace))| <= 1
  {
    if |s.pickups| == 1 {
      assert !s.pickups[0].processed;
      assert Active(s.pickups);
    }
  }

  lemma SmallCard(ps: seq<Pickup>, f: int)
    requires |ps| <= 1
    ensures Violations(ps, f) <= 1
  {
    var all := set i: nat | 0 <= i < |ps| && DueUnscooped(ps[i], f);
    assert all <= {0};
    assert |{0}| == 1;
    SubsetCard(all, {0});
  }

  lemma SubsetCard(a: set<nat>, b: set<nat>)
    requires a <= b
    ensures |a| <= |b|
  {
    if a != {} {
      var x: nat :| x in a;
      SubsetCard(a - {x}, b - {x});
    }
  }

  lemma InitialValid()
    ensures Valid(Initial())
  {
  }

  /**
   * A hand whose centre (500, 318) lies in both container 0 and container 1
   * opens two pickups at once as written, which the intended loop does not.
   */
  lemma OverlappingContainersOpenTwo()
    ensures var hand := Box(499.0, 317.0, 501.0, 319.0);
            && |StepAsWritten(Initial(), [hand], [], [], 0).pickups| == 2
            && !Valid(StepAsWritten(Initial(), [hand], [], [], 0))
            && |StepCorrected(Initial(), [hand], [], [], 0).pickups| == 1
  {
    var hand := Box(499.0, 317.0, 501.0, 319.0);
    var s := Initial();
    assert IsInside(hand, Containers[0].area) && IsInside(hand, Containers[1].area) && !IsInside(hand, Containers[2].area);
    assert CountHolding(hand, Containers) == 2;
    assert MayOpen(s, 1, 0);
    var ps := OpenAsWritten([], [hand], 1, true);
    assert |ps| == 2 && forall i | 0 <= i < |ps| :: ps[i] == Fresh(hand, 1);
    assert FirstContaining(hand, Containers).Some?;
    assert SE.FirstInside([hand]) == Some(0);
    var qs := OpenCorrected([], [hand], 1, true);
    assert qs == [Fresh(hand, 1)];
  }

  /**
   * A first hand outside every container hides a second hand inside one:
   * as written no pickup opens, while the intended loop opens one.
   */
  lemma FirstHandOutsideMissed()
    ensures var outside := Box(0.0, 0.0, 2.0, 2.0);
            var inside := Box(499.0, 279.0, 501.0, 281.0);
            && |StepAsWritten(Initial(), [outside, inside], [], [], 0).pickups| == 0
            && |StepCorrected(Initial(), [outside, inside], [], [], 0).pickups| == 1
  {
    var outside := Box(0.0, 0.0, 2.0, 2.0);
    var inside := Box(499.0, 279.0, 501.0, 281.0);
    assert !IsInside(outside, Containers[0].area) && !IsInside(outside, Containers[1].area) && !IsInside(outside, Containers[2].area);
    assert CountHolding(outside, Containers) == 0;
    assert IsInside(inside, Containers[0].area);
    var hs := [outside, inside];
    assert FirstContaining(hs[0], Containers).None?;
    assert FirstContaining(hs[1], Containers).Some?;
    var k := SE.FirstInside(hs);
    assert k.Some?;
    assert k.value != 0;
    assert k == Some(1);
    assert MayOpen(Initial(), 1, 0);
    var qs := OpenCorrected([], [outside, inside], 1, true);
    assert Evaluate(qs, 1, false, NoSafeYet, 0).pickups == qs;
  }

  /** The frame loop over a stream of frames, with the opening loop as intended. */
  datatype Frames = Frames(hands: seq<Box>, scoopers: seq<Box>, pizzas: seq<Box>)

  function Run(s: State, frames: seq<Frames>, grace: nat): (s': State)
    ensures s'.frameId == s.frameId + |frames|
    ensures Valid(s) ==> Valid(s')
    ensures s.violationCount <= s'.violationCount
    decreases |frames|
  {
    if frames == [] then s
    else
      StepCorrectedKeepsValid(s, frames[0].hands, frames[0].scoopers, frames[0].pizzas, grace);
      Run(StepCorrected(s, frames[0].hands, frames[0].scoopers, frames[0].pizzas, grace), frames[1..], grace)
  }
}
