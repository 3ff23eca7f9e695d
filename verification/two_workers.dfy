/**
 * The exit-triggered two-worker script (`detection_logic_two_workers.py`).
 *
 * Instead of opening an event when a hand enters a container, it records a
 * dwell per worker while the worker keeps a hand in a container, and turns
 * the dwell into an event when the worker leaves. The event collects
 * evidence for `window` frames after the exit (`int(3 * fps)`) and is then
 * classified. Unknown tracks are re-identified by position (radius 150), and
 * there is neither a cooldown nor a deduplication key.
 */
module TwoWorkers {
  import opened Wrappers
  import opened Geometry
  import opened Detections
  import OrderedDict
  import Identity
  import Association
  import SE = ServiceEngine

  /** IoU threshold of both overlap tests in this script. */
  const TouchIoU: real := 0.1

  /** A worker's stay in a container (`worker_in_roi[worker]`); its flags are never updated. */
  datatype Dwell = Dwell(startFrame: int, hand: Box, roi: nat, pizzaTouched: bool, scooperTouched: bool)

  /** A completed stay, recorded when the worker left (`person_events[worker]` entries). */
  datatype Event = Event(worker: nat, startFrame: int, endFrame: int, hand: Box, roi: nat,
                         pizzaTouched: bool, scooperTouched: bool, processed: bool)

  type Dwells = OrderedDict.Dict<nat, Dwell>
  type Events = OrderedDict.Dict<nat, seq<Event>>

  /** The script's globals; `frameId` is the number of the last frame read. */
  datatype State = State(
    frameId: int,
    ids: Identity.Resolver,
    dwells: Dwells,
    events: Events,
    lastSafe: map<nat, int>,
    stats: map<nat, SE.Stats>,
    violationCount: nat)

  function Initial(): (s: State)
    ensures s.frameId == 0 && s.violationCount == 0 && s.dwells.entries == map[] && s.events.entries == map[]
  {
    State(0, Identity.Initial(), OrderedDict.Empty(), OrderedDict.Empty(), map[], map[], 0)
  }

  function EventsOf(d: Events, w: nat): seq<Event> {
    if w in d.entries then d.entries[w] else []
  }

  predicate HasOpen(evs: seq<Event>) {
    exists i | 0 <= i < |evs| :: !evs[i].processed
  }

  /**
   * Worker `w`'s list: its own events, at most one of them open, each
   * starting no later than it ended and ending no later than frame `now`.
   */
  ghost predicate WorkerList(w: nat, evs: seq<Event>, now: int) {
    && (forall i, j | 0 <= i < j < |evs| :: evs[i].processed || evs[j].processed)
    && forall i | 0 <= i < |evs| :: evs[i].worker == w && evs[i].startFrame <= evs[i].endFrame <= now
  }

  /** Every dwell began by frame `now` and still carries the flags it was created with. */
  ghost predicate DwellsOk(d: Dwells, now: int) {
    && OrderedDict.Valid(d)
    && forall w | w in d.entries :: d.entries[w].startFrame <= now && !d.entries[w].pizzaTouched && !d.entries[w].scooperTouched
  }

  ghost predicate EventsOk(d: Events, now: int) {
    && OrderedDict.Valid(d)
    && forall w | w in d.entries :: WorkerList(w, d.entries[w], now)
  }

  ghost predicate Valid(s: State) {
    && Identity.Valid(s.ids)
    && DwellsOk(s.dwells, s.frameId)
    && EventsOk(s.events, s.frameId)
    && s.violationCount == SE.TotalViolations(s.stats)
  }

  // ---------------------------------------------------------------------
  // Dwell tracking (entry)
  // ---------------------------------------------------------------------

  /** The dwell a hand starts: now, in the first container holding the hand, with no evidence. */
  function EntryDwell(frameId: int, hand: Box): Dwell {
    var k := FirstContaining(hand, Containers);
    Dwell(frameId, hand, if k.Some? then Containers[k.value].id else 0, false, false)
  }

  /** Worker `w` has a hand in a container in `owned`. */
  predicate Enters(owned: Association.Owned, w: nat) {
    w in owned.entries && SE.FirstInside(owned.entries[w]).Some?
  }

  /** The dwell worker `w` starts in frame `frameId`, from its first hand in a container. */
  function EntryOf(owned: Association.Owned, w: nat, frameId: int): Dwell
    requires Enters(owned, w)
  {
    EntryDwell(frameId, owned.entries[w][SE.FirstInside(owned.entries[w]).value])
  }

  /** `current_frame_in_roi`: the workers with at least one hand in a container this frame. */
  function InsideWorkers(owned: Association.Owned): (ws: set<nat>)
    ensures forall w :: w in ws <==> Enters(owned, w)
  {
    set w | w in owned.entries && Enters(owned, w)
  }

  /**
   * The entry loop over `person_hands`: a worker with a hand in a container
   * gets a dwell from its first such hand, unless it already has one, which
   * is then kept as it is.
   */
  function Track(ws: seq<nat>, owned: Association.Owned, d: Dwells, frameId: int): (d': Dwells)
    ensures OrderedDict.Valid(d) ==> OrderedDict.Valid(d')
    ensures forall w | w !in ws || !Enters(owned, w) ::
              (w in d'.entries <==> w in d.entries) && (w in d.entries ==> d'.entries[w] == d.entries[w])
    ensures forall w | w in ws && Enters(owned, w) ::
              && w in d'.entries
              && d'.entries[w] == if w in d.entries then d.entries[w] else EntryOf(owned, w, frameId)
    decreases |ws|
  {
    if ws == [] then d
    else
      var w := ws[0];
      var d1 := if Enters(owned, w) && w !in d.entries then OrderedDict.Put(d, w, EntryOf(owned, w, frameId)) else d;
      assert forall v :: v in ws <==> v == w || v in ws[1..];
      assert forall v | v != w :: (v in d1.entries <==> v in d.entries) && (v in d.entries ==> d1.entries[v] == d.entries[v]);
      Track(ws[1..], owned, d1, frameId)
  }

  // ---------------------------------------------------------------------
  // Exit
  // ---------------------------------------------------------------------

  /** The event a dwell becomes when its worker leaves in frame `frameId`. */
  function ExitEvent(w: nat, dw: Dwell, frameId: int): Event {
    Event(w, dw.startFrame, frameId, dw.hand, dw.roi, dw.pizzaTouched, dw.scooperTouched, false)
  }

  datatype Exited = Exited(dwells: Dwells, events: Events)

  /**
   * The exit loop over a snapshot `ks` of the dwelling workers: a worker
   * that has no hand in a container this frame loses its dwell, which
   * becomes an event unless the worker still has an open one.
   */
  function Exit(ks: seq<nat>, inside: set<nat>, d: Dwells, evs: Events, frameId: int): (out: Exited)
    ensures OrderedDict.Valid(d) ==> OrderedDict.Valid(out.dwells)
    ensures OrderedDict.Valid(evs) ==> OrderedDict.Valid(out.events)
    ensures forall w | w in evs.entries :: w in out.events.entries
    ensures forall w | w in ks && w !in inside :: w !in out.dwells.entries
    ensures forall w | w !in ks || w in inside ::
              && (w in out.dwells.entries <==> w in d.entries)
              && (w in d.entries ==> out.dwells.entries[w] == d.entries[w])
              && EventsOf(out.events, w) == EventsOf(evs, w)
    ensures forall w | w in ks && w !in inside ::
              EventsOf(out.events, w) ==
                EventsOf(evs, w) + if w in d.entries && !HasOpen(EventsOf(evs, w)) then [ExitEvent(w, d.entries[w], frameId)] else []
    decreases |ks|
  {
    if ks == [] then Exited(d, evs)
    else
      var w := ks[0];
      if w in inside || w !in d.entries then Exit(ks[1..], inside, d, evs, frameId)
      else
        var evs1 := if w in evs.entries then evs else OrderedDict.Put(evs, w, []);
        var mine := evs1.entries[w];
        var evs2 := if HasOpen(mine) then evs1 else OrderedDict.Put(evs1, w, mine + [ExitEvent(w, d.entries[w], frameId)]);
        assert EventsOf(evs1, w) == EventsOf(evs, w);
        assert forall v | v != w :: EventsOf(evs2, v) == EventsOf(evs, v);
        Exit(ks[1..], inside, OrderedDict.Remove(d, w), evs2, frameId)
  }

  // ---------------------------------------------------------------------
  // Evaluation after exit
  // ---------------------------------------------------------------------

  /** What the current frame shows, as the evaluation reads it. */
  datatype Sight = Sight(frameId: int, hands: Association.Owned, scoopers: seq<Box>, pizzas: seq<Box>)

  /** One of worker `w`'s hands in this frame overlaps a pizza. */
  predicate TouchesPizza(v: Sight, w: nat) {
    w in v.hands.entries && AnyOverlap(v.hands.entries[w], v.pizzas, TouchIoU)
  }

  /** Some pizza overlaps some scooper in this frame. */
  predicate ScooperSeen(v: Sight) {
    AnyOverlap(v.pizzas, v.scoopers, TouchIoU)
  }

  /**
   * One frame's evidence for an event still inside its window, read from
   * the hands of the event's own worker.
   */
  function Evidence(e: Event, v: Sight): (e': Event)
    ensures e' == e.(pizzaTouched := e'.pizzaTouched, scooperTouched := e'.scooperTouched)
    ensures e'.pizzaTouched <==> e.pizzaTouched || TouchesPizza(v, e.worker)
    ensures e'.scooperTouched <==> e.scooperTouched || ScooperSeen(v)
  {
    var pizza := e.worker in v.hands.entries && AnyOverlap(v.hands.entries[e.worker], v.pizzas, TouchIoU);
    var scooper := AnyOverlap(v.pizzas, v.scoopers, TouchIoU);
    e.(pizzaTouched := e.pizzaTouched || pizza, scooperTouched := e.scooperTouched || scooper)
  }

  /**
   * The evidence step as the script writes it: the pizza test reads
   * `person_hands[worker_id]` with whatever `worker_id` last held, so its
   * hands `stale` are an argument here, unrelated to the event's worker.
   */
  function EvidenceAsWritten(e: Event, stale: seq<Box>, v: Sight): (e': Event)
    ensures e'.pizzaTouched <==> e.pizzaTouched || AnyOverlap(stale, v.pizzas, TouchIoU)
    ensures e'.scooperTouched <==> e.scooperTouched || ScooperSeen(v)
  {
    var pizza := AnyOverlap(stale, v.pizzas, TouchIoU);
    var scooper := AnyOverlap(v.pizzas, v.scoopers, TouchIoU);
    e.(pizzaTouched := e.pizzaTouched || pizza, scooperTouched := e.scooperTouched || scooper)
  }

  /**
   * The stale variable makes a worker's touch go unseen: worker 1's hand
   * covers the pizza, but the hands read are those of worker 2, the last
   * worker the exit loop visited, whose hand is far from it; so the event
   * gets no pizza flag, while the corrected step sets it.
   */
  lemma StaleHandsMissTouch()
    ensures var hand := Box(0.0, 0.0, 10.0, 10.0);
            var far := Box(100.0, 100.0, 110.0, 110.0);
            var v := Sight(60, OrderedDict.Dict([1, 2], map[1 := [hand], 2 := [far]]), [], [hand]);
            var e := Event(1, 5, 10, hand, 0, false, false, false);
            && !EvidenceAsWritten(e, v.hands.entries[2], v).pizzaTouched
            && Evidence(e, v).pizzaTouched
  {
    var hand := Box(0.0, 0.0, 10.0, 10.0);
    var far := Box(100.0, 100.0, 110.0, 110.0);
    var v := Sight(60, OrderedDict.Dict([1, 2], map[1 := [hand], 2 := [far]]), [], [hand]);
    assert v.hands.entries[1] == [hand] && v.hands.entries[2] == [far];
    CoveringHandTouches(hand);
    FarHandMisses(far, hand, TouchIoU);
    assert TouchesPizza(v, 1);
  }

  /** A square hand of positive size overlaps a pizza with the same box. */
  lemma CoveringHandTouches(hand: Box)
    requires hand == Box(0.0, 0.0, 10.0, 10.0)
    ensures AnyOverlap([hand], [hand], TouchIoU)
  {
    assert Intersection(hand, hand) == 100.0;
    assert Union(hand, hand) == 100.0;
    assert Iou(hand, hand) == 1.0;
    assert BoxesOverlap([hand][0], [hand][0], TouchIoU);
  }

  /** A hand lying wholly to the right of the pizza's box does not overlap it. */
  lemma FarHandMisses(far: Box, hand: Box, t: real)
    requires t >= 0.0 && hand.x2 <= far.x1
    ensures !AnyOverlap([far], [hand], t)
  {
    assert Max(0.0, Min(far.x2, hand.x2) - Max(far.x1, hand.x1)) == 0.0;
    assert Intersection(far, hand) == 0.0;
    NoOverlapOfSingletons(far, hand, t);
  }

  lemma NoOverlapOfSingletons(a: Box, b: Box, t: real)
    requires !BoxesOverlap(a, b, t)
    ensures !AnyOverlap([a], [b], t)
  {
    forall i, j | 0 <= i < 1 && 0 <= j < 1 ensures !BoxesOverlap([a][i], [b][j], t) {
      assert [a][i] == a && [b][j] == b;
    }
  }

  /** The counters the evaluation updates. */
  datatype Tally = Tally(stats: map<nat, SE.Stats>, lastSafe: map<nat, int>, violationCount: nat)

  ghost predicate TallyInv(t: Tally) {
    t.violationCount == SE.TotalViolations(t.stats)
  }

  /** Counters only grow from `t` to `t'`. */
  ghost predicate TallyGrows(t: Tally, t': Tally) {
    && (forall w :: SE.StatsOf(t.stats, w).violations <= SE.StatsOf(t'.stats, w).violations)
    && (forall w :: SE.StatsOf(t.stats, w).safePickups <= SE.StatsOf(t'.stats, w).safePickups)
    && t.violationCount <= t'.violationCount
  }

  datatype Classified = Classified(event: Event, tally: Tally)

  /**
   * Classification of an event whose window has elapsed: a violation if a
   * pizza was touched without a scooper, a safe pickup (recording the frame
   * in `last_safe_frame`) if both, nothing otherwise; it is processed either way.
   */
  function Classify(e: Event, frameId: int, t: Tally): (c: Classified)
    ensures c.event == e.(processed := true)
    ensures TallyInv(t) ==> TallyInv(c.tally)
    ensures TallyGrows(t, c.tally)
    ensures var violation := e.pizzaTouched && !e.scooperTouched;
            var safe := e.pizzaTouched && e.scooperTouched;
            && c.tally.violationCount == t.violationCount + (if violation then 1 else 0)
            && SE.StatsOf(c.tally.stats, e.worker).violations == SE.StatsOf(t.stats, e.worker).violations + (if violation then 1 else 0)
            && SE.StatsOf(c.tally.stats, e.worker).safePickups == SE.StatsOf(t.stats, e.worker).safePickups + (if safe then 1 else 0)
            && c.tally.lastSafe == (if safe then t.lastSafe[e.worker := frameId] else t.lastSafe)
    ensures forall w | w != e.worker :: SE.StatsOf(c.tally.stats, w) == SE.StatsOf(t.stats, w)
  {
    var w := e.worker;
    var cur := SE.StatsOf(t.stats, w);
    var done := e.(processed := true);
    if e.pizzaTouched && !e.scooperTouched then
      var x := cur.(violations := cur.violations + 1);
      SE.TotalViolationsUpdate(t.stats, w, x);
      Classified(done, t.(stats := t.stats[w := x], violationCount := t.violationCount + 1))
    else if e.pizzaTouched && e.scooperTouched then
      var x := cur.(safePickups := cur.safePickups + 1);
      SE.TotalViolationsUpdate(t.stats, w, x);
      Classified(done, t.(stats := t.stats[w := x], lastSafe := t.lastSafe[w := frameId]))
    else
      SE.TotalViolationsUpdate(t.stats, w, cur);
      Classified(done, t.(stats := t.stats[w := cur]))
  }

  /** `e'` is `e` at a later stage: same identity, evidence and the processed mark only ever set. */
  ghost predicate Refines(e: Event, e': Event) {
    && e'.worker == e.worker && e'.startFrame == e.startFrame && e'.endFrame == e.endFrame
    && e'.hand == e.hand && e'.roi == e.roi
    && (e.pizzaTouched ==> e'.pizzaTouched)
    && (e.scooperTouched ==> e'.scooperTouched)
    && (e.processed ==> e' == e)
  }

  /**
   * What becomes of an event in frame `v`: a processed event stays, one at
   * most `window` frames past its exit gains the frame's evidence, and an
   * older one is closed.
   */
  function EventAfter(e: Event, v: Sight, window: nat): (e': Event)
    ensures Refines(e, e')
    ensures e'.processed <==> e.processed || v.frameId - e.endFrame > window
  {
    if e.processed then e
    else if v.frameId - e.endFrame <= window then Evidence(e, v)
    else e.(processed := true)
  }

  function EvaluateEvent(e: Event, v: Sight, window: nat, t: Tally): (c: Classified)
    ensures c.event == EventAfter(e, v, window)
    ensures e.processed || v.frameId - e.endFrame <= window ==> c.tally == t
    ensures !e.processed && v.frameId - e.endFrame > window ==> c == Classify(e, v.frameId, t)
    ensures TallyInv(t) ==> TallyInv(c.tally)
    ensures TallyGrows(t, c.tally)
  {
    if e.processed then Classified(e, t)
    else if v.frameId - e.endFrame <= window then Classified(Evidence(e, v), t)
    else Classify(e, v.frameId, t)
  }

  datatype Evaluated = Evaluated(events: seq<Event>, tally: Tally)

  function EvaluateList(evs: seq<Event>, v: Sight, window: nat, t: Tally): (r: Evaluated)
    ensures |r.events| == |evs|
    ensures forall i | 0 <= i < |evs| :: r.events[i] == EventAfter(evs[i], v, window)
    ensures TallyInv(t) ==> TallyInv(r.tally)
    ensures TallyGrows(t, r.tally)
    decreases |evs|
  {
    if evs == [] then Evaluated([], t)
    else
      var c := EvaluateEvent(evs[0], v, window, t);
      var rest := EvaluateList(evs[1..], v, window, c.tally);
      assert forall i | 1 <= i < |evs| :: evs[1..][i - 1] == evs[i];
      Evaluated([c.event] + rest.events, rest.tally)
  }

  /** Refinement pointwise keeps a worker's list well formed. */
  lemma RefinesKeepsWorkerList(w: nat, evs: seq<Event>, evs': seq<Event>, now: int)
    requires |evs'| == |evs|
    requires forall i | 0 <= i < |evs| :: Refines(evs[i], evs'[i])
    ensures WorkerList(w, evs, now) ==> WorkerList(w, evs', now)
  {
  }

  datatype Evaluation = Evaluation(events: Events, tally: Tally)

  /** The evaluation loop over the workers `ws` of `person_events`, in order. */
  function EvaluateAll(ws: seq<nat>, d: Events, v: Sight, window: nat, t: Tally): (r: Evaluation)
    ensures r.events.entries.Keys == d.entries.Keys
    ensures OrderedDict.Valid(d) ==> OrderedDict.Valid(r.events)
    ensures forall now :: EventsOk(d, now) ==> EventsOk(r.events, now)
    ensures TallyInv(t) ==> TallyInv(r.tally)
    ensures TallyGrows(t, r.tally)
    decreases |ws|
  {
    if ws == [] then Evaluation(d, t)
    else if ws[0] !in d.entries then EvaluateAll(ws[1..], d, v, window, t)
    else
      var w := ws[0];
      var el := EvaluateList(d.entries[w], v, window, t);
      var d1 := OrderedDict.Put(d, w, el.events);
      assert forall now :: EventsOk(d, now) ==> EventsOk(d1, now) by {
        forall now | EventsOk(d, now) ensures EventsOk(d1, now) {
          RefinesKeepsWorkerList(w, d.entries[w], el.events, now);
        }
      }
      EvaluateAll(ws[1..], d1, v, window, el.tally)
  }

  lemma DistinctTail(ws: seq<nat>)
    requires |ws| > 0
    ensures OrderedDict.Distinct(ws) ==> OrderedDict.Distinct(ws[1..]) && ws[0] !in ws[1..]
  {
    assert forall m | 0 <= m < |ws| - 1 :: ws[1..][m] == ws[m + 1];
  }

  /** The evaluation loop turns each visited worker's list into what the frame makes of it and leaves the rest alone. */
  lemma {:induction false} EvaluateAllAfter(ws: seq<nat>, d: Events, v: Sight, window: nat, t: Tally)
    requires OrderedDict.Distinct(ws)
    ensures var r := EvaluateAll(ws, d, v, window, t).events;
            forall w :: |EventsOf(r, w)| == |EventsOf(d, w)| &&
                        forall i | 0 <= i < |EventsOf(d, w)| ::
                          EventsOf(r, w)[i] == if w in ws then EventAfter(EventsOf(d, w)[i], v, window) else EventsOf(d, w)[i]
    decreases |ws|
  {
    if ws != [] {
      DistinctTail(ws);
      var w := ws[0];
      if w !in d.entries {
        EvaluateAllAfter(ws[1..], d, v, window, t);
      } else {
        var el := EvaluateList(d.entries[w], v, window, t);
        var d1 := OrderedDict.Put(d, w, el.events);
        EvaluateAllAfter(ws[1..], d1, v, window, el.tally);
        assert forall u | u != w :: EventsOf(d1, u) == EventsOf(d, u);
        assert EventsOf(d1, w) == el.events;
      }
    }
  }

  // ---------------------------------------------------------------------
  // One frame of the loop
  // ---------------------------------------------------------------------

  /** Everything a frame computes on the way. */
  datatype Phases = Phases(
    frameId: int,
    persons: seq<PersonBox>,
    hands: Association.Attribution,
    inside: set<nat>,
    tracked: Dwells,
    exited: Exited,
    sight: Sight,
    evaluation: Evaluation)

  function Phase(s: State, dets: seq<Detection>, window: nat): Phases {
    var f := s.frameId + 1;
    var persons := PersonsOf(dets);
    var r1 := Identity.ResolvePersons(Identity.Reidentify, s.ids, persons);
    var ha := Association.Attribute(Identity.Reidentify, BoxesOf(dets, Hand), persons, r1, OrderedDict.Empty());
    var inside := InsideWorkers(ha.owned);
    var tracked := Track(ha.owned.keys, ha.owned, s.dwells, f);
    var ex := Exit(tracked.keys, inside, tracked, s.events, f);
    var v := Sight(f, ha.owned, BoxesOf(dets, Scooper), BoxesOf(dets, Pizza));
    Phases(f, persons, ha, inside, tracked, ex, v,
           EvaluateAll(ex.events.keys, ex.events, v, window, Tally(s.stats, s.lastSafe, s.violationCount)))
  }

  /**
   * One iteration of the frame loop on the frame's detections, with `window`
   * the post-exit evidence window `int(3 * fps)`. The labelling loop at the
   * end asks the resolver again for every tracked person.
   */
  function Step(s: State, dets: seq<Detection>, window: nat): (s': State)
    ensures s'.frameId == s.frameId + 1
    ensures Valid(s) ==> Valid(s')
    ensures Identity.Keeps(s.ids, s'.ids)
    ensures s.violationCount <= s'.violationCount
    ensures forall w :: SE.StatsOf(s.stats, w).violations <= SE.StatsOf(s'.stats, w).violations
    ensures forall w :: SE.StatsOf(s.stats, w).safePickups <= SE.StatsOf(s'.stats, w).safePickups
  {
    var ph := Phase(s, dets, window);
    var t := ph.evaluation.tally;
    var r2 := Identity.ResolvePersons(Identity.Reidentify, ph.hands.after, ph.persons);
    StepKeeps(s, dets, window);
    StepKeepsShape(s, dets, window);
    State(ph.frameId, r2, ph.exited.dwells, ph.evaluation.events, t.lastSafe, t.stats, t.violationCount)
  }

  lemma StepKeeps(s: State, dets: seq<Detection>, window: nat)
    ensures var ph := Phase(s, dets, window);
            var r2 := Identity.ResolvePersons(Identity.Reidentify, ph.hands.after, ph.persons);
            && Identity.Keeps(s.ids, r2)
            && (Identity.Valid(s.ids) ==> Identity.Valid(r2))
  {
    var ph := Phase(s, dets, window);
    var r1 := Identity.ResolvePersons(Identity.Reidentify, s.ids, ph.persons);
    var r2 := Identity.ResolvePersons(Identity.Reidentify, ph.hands.after, ph.persons);
    Identity.KeepsTransitive(s.ids, r1, ph.hands.after);
    Identity.KeepsTransitive(s.ids, ph.hands.after, r2);
  }

  lemma StepKeepsShape(s: State, dets: seq<Detection>, window: nat)
    ensures var ph := Phase(s, dets, window);
            Valid(s) ==> DwellsOk(ph.exited.dwells, ph.frameId) && EventsOk(ph.evaluation.events, ph.frameId)
  {
    if Valid(s) {
      var ph := Phase(s, dets, window);
      LaterStillOk(s.dwells, s.events, s.frameId, ph.frameId);
      TrackDwellsOk(ph.hands.owned.keys, ph.hands.owned, s.dwells, ph.frameId);
      ExitKeepsOk(ph.tracked.keys, ph.inside, ph.tracked, s.events, ph.frameId);
    }
  }

  lemma LaterStillOk(d: Dwells, evs: Events, now: int, later: int)
    requires now <= later
    ensures DwellsOk(d, now) ==> DwellsOk(d, later)
    ensures EventsOk(evs, now) ==> EventsOk(evs, later)
  {
  }

  /** Dwells created in frame `f` begin in `f` with no evidence. */
  lemma TrackDwellsOk(ws: seq<nat>, owned: Association.Owned, d: Dwells, f: int)
    requires DwellsOk(d, f)
    ensures DwellsOk(Track(ws, owned, d, f), f)
  {
    var d' := Track(ws, owned, d, f);
    forall w | w in d'.entries
      ensures d'.entries[w].startFrame <= f && !d'.entries[w].pizzaTouched && !d'.entries[w].scooperTouched
    {
    }
  }

  /** Events recorded on exit begin no later than they end, which is now. */
  lemma ExitKeepsOk(ks: seq<nat>, inside: set<nat>, d: Dwells, evs: Events, f: int)
    requires DwellsOk(d, f) && EventsOk(evs, f)
    ensures DwellsOk(Exit(ks, inside, d, evs, f).dwells, f)
    ensures EventsOk(Exit(ks, inside, d, evs, f).events, f)
  {
    var ex := Exit(ks, inside, d, evs, f);
    forall w | w in ex.events.entries ensures WorkerList(w, ex.events.entries[w], f) {
      assert ex.events.entries[w] == EventsOf(ex.events, w);
      var before := EventsOf(evs, w);
      assert WorkerList(w, before, f);
      if EventsOf(ex.events, w) != before {
        assert EventsOf(ex.events, w) == before + [ExitEvent(w, d.entries[w], f)];
        assert !HasOpen(before);
      }
    }
    forall w | w in ex.dwells.entries
      ensures ex.dwells.entries[w].startFrame <= f && !ex.dwells.entries[w].pizzaTouched && !ex.dwells.entries[w].scooperTouched
    {
    }
  }

  lemma InitialValid()
    ensures Valid(Initial())
  {
    assert SE.TotalViolations(map[]) == 0;
  }

  /**
   * A worker with a hand in a container keeps its dwell, or starts one now
   * if it had none; a worker without one has no dwell after the frame.
   */
  lemma StepDwell(s: State, dets: seq<Detection>, window: nat, w: nat)
    requires Valid(s)
    ensures var s' := Step(s, dets, window);
            var inside := Phase(s, dets, window).inside;
            && (w in inside ==> && w in s'.dwells.entries
                                && (w in s.dwells.entries ==> s'.dwells.entries[w] == s.dwells.entries[w])
                                && (w !in s.dwells.entries ==> s'.dwells.entries[w].startFrame == s'.frameId))
            && (w !in inside ==> w !in s'.dwells.entries)
  {
    var ph := Phase(s, dets, window);
    assert Step(s, dets, window).dwells == ph.exited.dwells;
    assert w in ph.inside ==> w in ph.hands.owned.keys;
    assert w in ph.tracked.entries ==> w in ph.tracked.keys;
  }

  /**
   * A worker records at most one event per frame, only when it leaves a
   * dwell while it has no open event; the event spans the dwell, from its
   * first frame to this one, and holds exactly this frame's evidence, since
   * the dwell it is copied from never gathers any.
   */
  lemma StepExit(s: State, dets: seq<Detection>, window: nat, w: nat)
    requires Valid(s)
    ensures var s' := Step(s, dets, window);
            var ph := Phase(s, dets, window);
            var before := EventsOf(s.events, w);
            var after := EventsOf(s'.events, w);
            || |after| == |before|
            || (&& |after| == |before| + 1
                && w in s.dwells.entries && w !in ph.inside
                && !HasOpen(before)
                && var e := after[|before|];
                   && e.worker == w && !e.processed
                   && e.startFrame == s.dwells.entries[w].startFrame <= e.endFrame == s'.frameId
                   && (e.pizzaTouched <==> TouchesPizza(ph.sight, w))
                   && (e.scooperTouched <==> ScooperSeen(ph.sight)))
  {
    var ph := Phase(s, dets, window);
    var ex := ph.exited;
    var before := EventsOf(s.events, w);
    var mid := EventsOf(ex.events, w);
    var after := EventsOf(ph.evaluation.events, w);
    assert after == EventsOf(Step(s, dets, window).events, w);
    assert OrderedDict.Valid(ex.events);
    EvaluateAllAfter(ex.events.keys, ex.events, ph.sight, window, Tally(s.stats, s.lastSafe, s.violationCount));
    if mid != before {
      assert w in ph.tracked.keys && w !in ph.inside;
      assert ph.tracked.entries[w] == s.dwells.entries[w];
      assert w in ex.events.keys;
      assert after[|before|] == EventAfter(mid[|before|], ph.sight, window);
    }
  }

  /** Every event a worker had before the frame becomes what the frame makes of it. */
  lemma StepEvaluates(s: State, dets: seq<Detection>, window: nat, w: nat)
    requires Valid(s)
    ensures var s' := Step(s, dets, window);
            var before := EventsOf(s.events, w);
            var after := EventsOf(s'.events, w);
            && |before| <= |after|
            && forall i | 0 <= i < |before| :: after[i] == EventAfter(before[i], Phase(s, dets, window).sight, window)
  {
    var ph := Phase(s, dets, window);
    assert Step(s, dets, window).events == ph.evaluation.events;
    PhaseEvaluates(s, dets, window, w);
  }

  lemma PhaseEvaluates(s: State, dets: seq<Detection>, window: nat, w: nat)
    requires Valid(s)
    ensures var ph := Phase(s, dets, window);
            var before := EventsOf(s.events, w);
            var after := EventsOf(ph.evaluation.events, w);
            && |before| <= |after|
            && forall i | 0 <= i < |before| :: after[i] == EventAfter(before[i], ph.sight, window)
  {
    var ph := Phase(s, dets, window);
    var ex := ph.exited;
    var t := Tally(s.stats, s.lastSafe, s.violationCount);
    assert ph.evaluation == EvaluateAll(ex.events.keys, ex.events, ph.sight, window, t);
    ExitPrefix(ph.tracked.keys, ph.inside, ph.tracked, s.events, ph.frameId, w);
    EvaluateAllOwn(ex.events, ph.sight, window, t, w);
    AfterPrefix(EventsOf(s.events, w), EventsOf(ex.events, w), EventsOf(ph.evaluation.events, w), ph.sight, window);
  }

  /** Evaluating every worker of a well-formed dictionary turns each of `w`'s events into what the frame makes of it. */
  lemma EvaluateAllOwn(d: Events, v: Sight, window: nat, t: Tally, w: nat)
    requires OrderedDict.Valid(d)
    ensures var mid := EventsOf(d, w);
            var after := EventsOf(EvaluateAll(d.keys, d, v, window, t).events, w);
            && |after| == |mid|
            && forall i | 0 <= i < |mid| :: after[i] == EventAfter(mid[i], v, window)
  {
    EvaluateAllAfter(d.keys, d, v, window, t);
    assert w in d.entries ==> w in d.keys;
  }

  lemma AfterPrefix(before: seq<Event>, mid: seq<Event>, after: seq<Event>, v: Sight, window: nat)
    requires before <= mid && |after| == |mid|
    requires forall i | 0 <= i < |mid| :: after[i] == EventAfter(mid[i], v, window)
    ensures forall i | 0 <= i < |before| :: after[i] == EventAfter(before[i], v, window)
  {
    assert forall i | 0 <= i < |before| :: mid[i] == before[i];
  }

  lemma ExitPrefix(ks: seq<nat>, inside: set<nat>, d: Dwells, evs: Events, f: int, w: nat)
    ensures EventsOf(evs, w) <= EventsOf(Exit(ks, inside, d, evs, f).events, w)
  {
    if w in ks && w !in inside {
    } else {
    }
  }

  /** The frame loop over a stream of frames. */
  function Run(s: State, frames: seq<seq<Detection>>, window: nat): (s': State)
    ensures s'.frameId == s.frameId + |frames|
    ensures Valid(s) ==> Valid(s')
    ensures s.violationCount <= s'.violationCount
    decreases |frames|
  {
    if frames == [] then s else Run(Step(s, frames[0], window), frames[1..], window)
  }

  lemma RunFromInitialValid(frames: seq<seq<Detection>>, window: nat)
    ensures Valid(Run(Initial(), frames, window))
  {
    InitialValid();
  }
}
