/**
 * The service's per-frame violation engine (`process_frame`): the state the
 * engine threads from frame to frame, and one pure function `Step` that
 * consumes a frame's detections and returns the next state together with the
 * frame's result flags.
 *
 * A frame is handled in six phases, in the order the engine runs them:
 *   1. resolve every tracked person's worker number;
 *   2. attribute each hand to its nearest worker;
 *   3. open an event for a worker whose hand entered a container, unless the
 *      worker is cooling down after a safe pickup or already has an open event;
 *   4. attribute each scooper to its nearest worker;
 *   5. evaluate every open event: collect evidence for 50 frames, then classify
 *      it once as a violation, a safe pickup or nothing;
 *   6. persist the frame at most once if it carried a violation or safe pickup.
 */
module ServiceEngine {
  import opened Wrappers
  import opened Geometry
  import opened Detections
  import OrderedDict
  import Identity
  import Association

  /** Frames after its start during which an event collects evidence. */
  const EvidenceWindow: int := 50

  /** IoU threshold for a hand touching a pizza and for a scooper touching a pizza. */
  const TouchIoU: real := 0.0001

  /** One potential pickup by one worker (an entry of `person_events[worker]`). */
  datatype Event = Event(worker: nat, startFrame: int, hand: Box, roi: nat,
                         pizzaTouched: bool, scooperTouched: bool, processed: bool)

  datatype Stats = Stats(violations: nat, safePickups: nat)

  /**
   * The entries of `processed_violations`: `"{worker}_{start_frame}"` for a
   * classified event and `"frame_{id}"` for a persisted frame. Distinct
   * constructors and fields give distinct strings, since a decimal integer
   * contains no underscore and never begins with a letter.
   */
  datatype Key = EventKey(worker: nat, startFrame: int) | FrameKey(frame: int)

  /** `person_events`: each worker's events, in the order they were opened. */
  type Events = OrderedDict.Dict<nat, seq<Event>>

  datatype State = State(
    ids: Identity.Resolver,
    events: Events,
    lastSafe: map<nat, int>,
    stats: map<nat, Stats>,
    processed: set<Key>,
    violationCount: nat)

  /** The state `process_frame` creates when it is given none. */
  function Initial(): (s: State)
    ensures s.violationCount == 0 && s.processed == {} && s.stats == map[] && s.events.entries == map[]
  {
    State(Identity.Initial(), OrderedDict.Empty(), map[], map[], {}, 0)
  }

  /** A frame's verdict: its two flags and whether the frame record was written. */
  datatype Outcome = Outcome(state: State, isViolation: bool, isSafePickup: bool, saved: bool)

  /** A worker's events, or none if the worker has no entry yet. */
  function EventsOf(d: Events, w: nat): seq<Event> {
    if w in d.entries then d.entries[w] else []
  }

  predicate HasOpen(evs: seq<Event>) {
    exists i | 0 <= i < |evs| :: !evs[i].processed
  }

  /** At most one of the events is still unprocessed. */
  ghost predicate AtMostOneOpen(evs: seq<Event>) {
    forall i, j | 0 <= i < j < |evs| :: evs[i].processed || evs[j].processed
  }

  /** Every event in worker `w`'s list belongs to `w`, and at most one is open. */
  ghost predicate WorkerList(w: nat, evs: seq<Event>) {
    && AtMostOneOpen(evs)
    && forall i | 0 <= i < |evs| :: evs[i].worker == w
  }

  ghost predicate WellFormed(d: Events) {
    && OrderedDict.Valid(d)
    && forall w | w in d.entries :: WorkerList(w, d.entries[w])
  }

  // ---------------------------------------------------------------------
  // Phase 3: opening events on container entry
  // ---------------------------------------------------------------------

  /** Worker `w` is inside the cooldown that follows its last safe pickup. */
  predicate CoolingDown(lastSafe: map<nat, int>, w: nat, frameId: int, grace: nat) {
    w in lastSafe && frameId - lastSafe[w] <= grace
  }

  /** Index of the first hand from position `n` on whose centre lies in some container of `cs`. */
  function FirstInsideFrom(hands: seq<Box>, cs: seq<Container>, n: nat): (k: Option<nat>)
    requires n <= |hands|
    ensures k.None? <==> forall i | n <= i < |hands| :: FirstContaining(hands[i], cs).None?
    ensures k.Some? ==> n <= k.value < |hands| && FirstContaining(hands[k.value], cs).Some?
    ensures k.Some? ==> forall i | n <= i < k.value :: FirstContaining(hands[i], cs).None?
    decreases |hands| - n
  {
    if n == |hands| then None
    else if FirstContaining(hands[n], cs).Some? then Some(n)
    else
      var r := FirstInsideFrom(hands, cs, n + 1);
      FirstInsideSkip(hands, cs, n, r);
      r
  }

  /** Skipping a hand outside every container keeps the first-inside facts of the rest. */
  lemma FirstInsideSkip(hands: seq<Box>, cs: seq<Container>, n: nat, r: Option<nat>)
    requires n < |hands| && FirstContaining(hands[n], cs).None?
    requires r.None? <==> forall i | n + 1 <= i < |hands| :: FirstContaining(hands[i], cs).None?
    requires r.Some? ==> n + 1 <= r.value < |hands| && FirstContaining(hands[r.value], cs).Some?
    requires r.Some? ==> forall i | n + 1 <= i < r.value :: FirstContaining(hands[i], cs).None?
    ensures r.None? <==> forall i | n <= i < |hands| :: FirstContaining(hands[i], cs).None?
    ensures r.Some? ==> n <= r.value < |hands| && FirstContaining(hands[r.value], cs).Some?
    ensures r.Some? ==> forall i | n <= i < r.value :: FirstContaining(hands[i], cs).None?
  {
  }

  /** Index of the first hand whose centre lies in one of the three containers. */
  function FirstInside(hands: seq<Box>): (k: Option<nat>)
    ensures k.None? <==> forall i :: 0 <= i < |hands| ==> FirstContaining(hands[i], Containers).None?
    ensures k.Some? ==> k.value < |hands| && FirstContaining(hands[k.value], Containers).Some?
    ensures k.Some? ==> forall i :: 0 <= i < k.value ==> FirstContaining(hands[i], Containers).None?
  {
    FirstInsideFrom(hands, Containers, 0)
  }

  /** The event a hand opens: it starts now, in the first container holding the hand, with no evidence. */
  function NewEvent(w: nat, frameId: int, hand: Box): Event {
    var k := FirstContaining(hand, Containers);
    Event(w, frameId, hand, if k.Some? then Containers[k.value].id else 0, false, false, false)
  }

  /**
   * The opening loop for one worker's hands from position `n` on. For each
   * hand in a container the worker gets an (empty) entry; an event opens
   * unless the worker is cooling down or has an open event, so the first
   * such hand opens at most one event and every later hand finds it open.
   */
  function OpenFrom(w: nat, hands: seq<Box>, n: nat, d: Events, lastSafe: map<nat, int>, frameId: int, grace: nat): (d': Events)
    requires n <= |hands|
    ensures OrderedDict.Valid(d) ==> OrderedDict.Valid(d')
    ensures forall v | v != w :: (v in d'.entries <==> v in d.entries)
    ensures forall v | v != w && v in d.entries :: d'.entries[v] == d.entries[v]
    ensures w in d'.entries <==> w in d.entries || FirstInsideFrom(hands, Containers, n).Some?
    ensures CoolingDown(lastSafe, w, frameId, grace) || HasOpen(EventsOf(d, w)) ==> EventsOf(d', w) == EventsOf(d, w)
    ensures !CoolingDown(lastSafe, w, frameId, grace) && !HasOpen(EventsOf(d, w)) ==>
              EventsOf(d', w) == EventsOf(d, w) + match FirstInsideFrom(hands, Containers, n)
                                                   case None => []
                                                   case Some(i) => [NewEvent(w, frameId, hands[i])]
    decreases |hands| - n
  {
    if n == |hands| then d
    else
      var h := hands[n];
      if FirstContaining(h, Containers).None? then OpenFrom(w, hands, n + 1, d, lastSafe, frameId, grace)
      else
        var d1 := if w in d.entries then d else OrderedDict.Put(d, w, []);
        var mine := d1.entries[w];
        if CoolingDown(lastSafe, w, frameId, grace) || HasOpen(mine) then OpenFrom(w, hands, n + 1, d1, lastSafe, frameId, grace)
        else
          var d2 := OrderedDict.Put(d1, w, mine + [NewEvent(w, frameId, h)]);
          assert HasOpen(EventsOf(d2, w)) by {
            assert !EventsOf(d2, w)[|mine|].processed;
          }
          OpenFrom(w, hands, n + 1, d2, lastSafe, frameId, grace)
  }

  /** The opening loop over all of one worker's hands. */
  function OpenFor(w: nat, hands: seq<Box>, d: Events, lastSafe: map<nat, int>, frameId: int, grace: nat): (d': Events)
    ensures OrderedDict.Valid(d) ==> OrderedDict.Valid(d')
    ensures forall v | v != w :: (v in d'.entries <==> v in d.entries)
    ensures forall v | v != w && v in d.entries :: d'.entries[v] == d.entries[v]
    ensures w in d'.entries <==> w in d.entries || FirstInside(hands).Some?
    // nothing opens while cooling down or while an event is open
    ensures CoolingDown(lastSafe, w, frameId, grace) || HasOpen(EventsOf(d, w)) ==> EventsOf(d', w) == EventsOf(d, w)
    // otherwise the first hand in a container opens exactly one event
    ensures !CoolingDown(lastSafe, w, frameId, grace) && !HasOpen(EventsOf(d, w)) ==>
              EventsOf(d', w) == EventsOf(d, w) + match FirstInside(hands)
                                                   case None => []
                                                   case Some(i) => [NewEvent(w, frameId, hands[i])]
  {
    OpenFrom(w, hands, 0, d, lastSafe, frameId, grace)
  }

  /** Opening keeps a worker's list its own, with at most one open event. */
  lemma OpenForKeepsList(w: nat, hands: seq<Box>, d: Events, lastSafe: map<nat, int>, frameId: int, grace: nat)
    requires WorkerList(w, EventsOf(d, w))
    ensures WorkerList(w, EventsOf(OpenFor(w, hands, d, lastSafe, frameId, grace), w))
  {
    var evs := EventsOf(d, w);
    var evs' := EventsOf(OpenFor(w, hands, d, lastSafe, frameId, grace), w);
    if evs' != evs {
      assert !CoolingDown(lastSafe, w, frameId, grace) && !HasOpen(evs);
      match FirstInside(hands)
      case None =>
      case Some(i) =>
        var e := NewEvent(w, frameId, hands[i]);
        assert evs' == evs + [e];
        AppendKeepsList(w, evs, e);
    }
  }

  /** A worker's own new event may join its list when none there is open. */
  lemma AppendKeepsList(w: nat, evs: seq<Event>, e: Event)
    requires WorkerList(w, evs) && !HasOpen(evs) && e.worker == w
    ensures WorkerList(w, evs + [e])
  {
    assert forall i | 0 <= i < |evs| :: (evs + [e])[i] == evs[i];
  }

  lemma OpenForWellFormed(w: nat, hands: seq<Box>, d: Events, lastSafe: map<nat, int>, frameId: int, grace: nat)
    ensures WellFormed(d) ==> WellFormed(OpenFor(w, hands, d, lastSafe, frameId, grace))
  {
    if !WellFormed(d) { return; }
    var d' := OpenFor(w, hands, d, lastSafe, frameId, grace);
    assert WorkerList(w, EventsOf(d, w));
    OpenForKeepsList(w, hands, d, lastSafe, frameId, grace);
    forall v | v in d'.entries ensures WorkerList(v, d'.entries[v]) {
      if v == w {
        assert d'.entries[v] == EventsOf(d', w);
      } else {
        assert d'.entries[v] == d.entries[v];
      }
    }
  }

  /**
   * `evs'` is `evs` with one event appended: opened by worker `w` in frame
   * `frameId`, for one of `w`'s hands of the frame that lies in a container.
   */
  ghost predicate OpenedOne(evs: seq<Event>, evs': seq<Event>, w: nat, hands: Association.Owned, frameId: int) {
    && |evs'| == |evs| + 1
    && evs'[..|evs|] == evs
    && var e := evs'[|evs|];
       && e == NewEvent(w, frameId, e.hand)
       && FirstContaining(e.hand, Containers).Some?
       && w in hands.entries && e.hand in hands.entries[w]
  }

  /** Between `d` and `d'` worker `w` opened nothing, or opened one event while idle and not cooling down. */
  ghost predicate OpensAtMostOne(d: Events, d': Events, w: nat, hands: Association.Owned,
                                 lastSafe: map<nat, int>, frameId: int, grace: nat) {
    || EventsOf(d', w) == EventsOf(d, w)
    || (&& !CoolingDown(lastSafe, w, frameId, grace)
        && !HasOpen(EventsOf(d, w))
        && OpenedOne(EventsOf(d, w), EventsOf(d', w), w, hands, frameId))
  }

  /** The opening loop over every worker that has hands this frame, in `person_hands` order. */
  function OpenAll(ws: seq<nat>, hands: Association.Owned, d: Events, lastSafe: map<nat, int>, frameId: int, grace: nat): (d': Events)
    ensures OrderedDict.Valid(d) ==> OrderedDict.Valid(d')
    ensures WellFormed(d) ==> WellFormed(d')
    ensures forall w | w in d.entries :: w in d'.entries
    ensures forall w :: EventsOf(d, w) <= EventsOf(d', w)
    ensures forall w | CoolingDown(lastSafe, w, frameId, grace) :: EventsOf(d', w) == EventsOf(d, w)
    ensures forall w | HasOpen(EventsOf(d, w)) :: EventsOf(d', w) == EventsOf(d, w)
    decreases |ws|
  {
    if ws == [] then d
    else
      var w := ws[0];
      var mine := if w in hands.entries then hands.entries[w] else [];
      var d1 := OpenFor(w, mine, d, lastSafe, frameId, grace);
      OpenForWellFormed(w, mine, d, lastSafe, frameId, grace);
      assert forall v :: EventsOf(d, v) <= EventsOf(d1, v) by {
        forall v ensures EventsOf(d, v) <= EventsOf(d1, v) {
          if v != w { assert EventsOf(d1, v) == EventsOf(d, v); }
        }
      }
      assert forall v | HasOpen(EventsOf(d, v)) :: EventsOf(d1, v) == EventsOf(d, v) by {
        forall v | HasOpen(EventsOf(d, v)) ensures EventsOf(d1, v) == EventsOf(d, v) {
          if v != w { assert EventsOf(d1, v) == EventsOf(d, v); }
        }
      }
      OpenAll(ws[1..], hands, d1, lastSafe, frameId, grace)
  }

  /** Over the whole opening loop each worker opens at most one event, and only while idle and not cooling down. */
  lemma {:induction false} OpenAllOpensAtMostOne(ws: seq<nat>, hands: Association.Owned, d: Events,
                                                 lastSafe: map<nat, int>, frameId: int, grace: nat)
    ensures forall w :: OpensAtMostOne(d, OpenAll(ws, hands, d, lastSafe, frameId, grace), w, hands, lastSafe, frameId, grace)
    decreases |ws|
  {
    var d' := OpenAll(ws, hands, d, lastSafe, frameId, grace);
    if ws == [] {
      assert forall v :: EventsOf(d', v) == EventsOf(d, v);
    } else {
      var w := ws[0];
      var mine := if w in hands.entries then hands.entries[w] else [];
      var d1 := OpenFor(w, mine, d, lastSafe, frameId, grace);
      assert d' == OpenAll(ws[1..], hands, d1, lastSafe, frameId, grace);
      OpenAllOpensAtMostOne(ws[1..], hands, d1, lastSafe, frameId, grace);
      OpenForOpensAtMostOne(w, mine, hands, d, lastSafe, frameId, grace);
      forall v ensures OpensAtMostOne(d, d', v, hands, lastSafe, frameId, grace) {
        assert OpensAtMostOne(d1, d', v, hands, lastSafe, frameId, grace);
        assert OpensAtMostOne(d, d1, v, hands, lastSafe, frameId, grace);
        if EventsOf(d1, v) != EventsOf(d, v) {
          var evs := EventsOf(d, v);
          assert !EventsOf(d1, v)[|evs|].processed;
          assert HasOpen(EventsOf(d1, v));
        }
      }
    }
  }

  lemma OpenForOpensAtMostOne(w: nat, mine: seq<Box>, hands: Association.Owned, d: Events,
                              lastSafe: map<nat, int>, frameId: int, grace: nat)
    requires mine == if w in hands.entries then hands.entries[w] else []
    ensures forall v :: OpensAtMostOne(d, OpenFor(w, mine, d, lastSafe, frameId, grace), v, hands, lastSafe, frameId, grace)
  {
    var d1 := OpenFor(w, mine, d, lastSafe, frameId, grace);
    forall v ensures OpensAtMostOne(d, d1, v, hands, lastSafe, frameId, grace) {
      if v != w {
        assert EventsOf(d1, v) == EventsOf(d, v);
      } else if !CoolingDown(lastSafe, w, frameId, grace) && !HasOpen(EventsOf(d, w)) {
        match FirstInside(mine)
        case None =>
        case Some(i) =>
          var evs := EventsOf(d, w);
          assert EventsOf(d1, w) == evs + [NewEvent(w, frameId, mine[i])];
          assert EventsOf(d1, w)[..|evs|] == evs;
          assert mine[i] in mine;
      }
    }
  }

  // ---------------------------------------------------------------------
  // Counters and the deduplication set
  // ---------------------------------------------------------------------

  function StatsOf(m: map<nat, Stats>, w: nat): Stats {
    if w in m then m[w] else Stats(0, 0)
  }

  /** The classification keys recorded for worker `w`. */
  ghost function KeysOf(p: set<Key>, w: nat): set<Key> {
    set k | k in p && k.EventKey? && k.worker == w
  }

  /**
   * Deduplication: each worker's violations plus safe pickups equal the
   * number of distinct `(worker, start_frame)` keys recorded for it, so no
   * key was ever counted twice; and only workers with statistics have keys.
   */
  ghost predicate CountsMatchKeys(stats: map<nat, Stats>, p: set<Key>) {
    && (forall w | w in stats :: stats[w].violations + stats[w].safePickups == |KeysOf(p, w)|)
    && (forall k | k in p && k.EventKey? :: k.worker in stats)
  }

  /** Sum of the violation counters of the workers in `ws`. */
  ghost function SumViolations(m: map<nat, Stats>, ws: set<nat>): nat
    decreases ws
  {
    if ws == {} then 0
    else
      var w :| w in ws;
      StatsOf(m, w).violations + SumViolations(m, ws - {w})
  }

  /** Sum of the per-worker violation counters. */
  ghost function TotalViolations(m: map<nat, Stats>): nat {
    SumViolations(m, m.Keys)
  }

  lemma {:induction false} SumViolationsRemove(m: map<nat, Stats>, ws: set<nat>, w: nat)
    requires w in ws
    ensures SumViolations(m, ws) == StatsOf(m, w).violations + SumViolations(m, ws - {w})
    decreases ws
  {
    var x :| x in ws && SumViolations(m, ws) == StatsOf(m, x).violations + SumViolations(m, ws - {x});
    if x != w {
      SumViolationsRemove(m, ws - {x}, w);
      SumViolationsRemove(m, ws - {w}, x);
      assert ws - {x} - {w} == ws - {w} - {x};
    }
  }

  /** The sum over `ws` does not see a worker outside `ws`. */
  lemma {:induction false} SumViolationsFrame(m: map<nat, Stats>, ws: set<nat>, w: nat, x: Stats)
    requires w !in ws
    ensures SumViolations(m[w := x], ws) == SumViolations(m, ws)
    decreases ws
  {
    if ws != {} {
      var y :| y in ws;
      SumViolationsRemove(m, ws, y);
      SumViolationsRemove(m[w := x], ws, y);
      SumViolationsFrame(m, ws - {y}, w, x);
    }
  }

  /** Replacing one worker's counters changes the total by the change in that worker's violations. */
  lemma TotalViolationsUpdate(m: map<nat, Stats>, w: nat, x: Stats)
    ensures TotalViolations(m[w := x]) == TotalViolations(m) - StatsOf(m, w).violations + x.violations
  {
    var ks := m[w := x].Keys;
    SumViolationsRemove(m[w := x], ks, w);
    SumViolationsFrame(m, ks - {w}, w, x);
    if w in m {
      SumViolationsRemove(m, m.Keys, w);
      assert ks - {w} == m.Keys - {w};
    } else {
      assert ks - {w} == m.Keys;
    }
  }

  /** The counters and dedup set that the evaluation pass updates, with the frame's two flags. */
  datatype Tally = Tally(stats: map<nat, Stats>, processed: set<Key>, lastSafe: map<nat, int>,
                         violationCount: nat, isViolation: bool, isSafePickup: bool)

  ghost predicate TallyInv(t: Tally) {
    && CountsMatchKeys(t.stats, t.processed)
    && t.violationCount == TotalViolations(t.stats)
  }

  /**
   * Nothing is lost from `t` to `t'`: keys stay recorded, counters only grow,
   * flags stay raised, the violation flag is raised exactly when the global
   * violation counter moved, and the safe-pickup flag exactly when some
   * worker's safe-pickup counter moved.
   */
  ghost predicate TallyGrows(t: Tally, t': Tally) {
    && t.processed <= t'.processed
    && (forall w | w in t.stats :: w in t'.stats)
    && (forall w :: StatsOf(t.stats, w).violations <= StatsOf(t'.stats, w).violations)
    && (forall w :: StatsOf(t.stats, w).safePickups <= StatsOf(t'.stats, w).safePickups)
    && t.violationCount <= t'.violationCount
    && (t'.isViolation <==> t.isViolation || t'.violationCount > t.violationCount)
    && (t'.isSafePickup <==> t.isSafePickup || exists w :: StatsOf(t.stats, w).safePickups < StatsOf(t'.stats, w).safePickups)
    && (forall k | k in t'.processed && k !in t.processed :: k.EventKey?)
  }

  lemma TallyGrowsTransitive(t1: Tally, t2: Tally, t3: Tally)
    requires TallyGrows(t1, t2) && TallyGrows(t2, t3)
    ensures TallyGrows(t1, t3)
  {
  }

  lemma KeysOfAdd(p: set<Key>, k: Key, w: nat)
    requires k !in p
    ensures k.EventKey? && k.worker == w ==> |KeysOf(p + {k}, w)| == |KeysOf(p, w)| + 1
    ensures !(k.EventKey? && k.worker == w) ==> KeysOf(p + {k}, w) == KeysOf(p, w)
  {
    if k.EventKey? && k.worker == w {
      assert KeysOf(p + {k}, w) == KeysOf(p, w) + {k};
    } else {
      assert KeysOf(p + {k}, w) == KeysOf(p, w);
    }
  }

  lemma NoStatsNoKeys(t: Tally, w: nat)
    ensures TallyInv(t) && w !in t.stats ==> KeysOf(t.processed, w) == {}
  {
    if TallyInv(t) && w !in t.stats {
      assert forall k | k in t.processed && k.EventKey? :: k.worker != w;
    }
  }

  /** Counting the unseen event key of `w` once, as a violation or a safe pickup, keeps the invariant. */
  lemma RecordKeepsInv(t: Tally, w: nat, start: int, x: Stats, count: nat)
    requires EventKey(w, start) !in t.processed
    requires x.violations + x.safePickups == StatsOf(t.stats, w).violations + StatsOf(t.stats, w).safePickups + 1
    requires count == t.violationCount - StatsOf(t.stats, w).violations + x.violations
    ensures TallyInv(t) ==>
              TallyInv(t.(stats := t.stats[w := x], processed := t.processed + {EventKey(w, start)}, violationCount := count))
  {
    var key := EventKey(w, start);
    NoStatsNoKeys(t, w);
    TotalViolationsUpdate(t.stats, w, x);
    forall v ensures |KeysOf(t.processed + {key}, v)| == |KeysOf(t.processed, v)| + (if v == w then 1 else 0) {
      KeysOfAdd(t.processed, key, v);
    }
  }

  /** Creating an empty counter for `w` when it has none keeps the invariant. */
  lemma TouchKeepsInv(t: Tally, w: nat)
    ensures TallyInv(t) ==> TallyInv(t.(stats := t.stats[w := StatsOf(t.stats, w)]))
  {
    NoStatsNoKeys(t, w);
    TotalViolationsUpdate(t.stats, w, StatsOf(t.stats, w));
  }

  // ---------------------------------------------------------------------
  // Phase 5: evaluating open events
  // ---------------------------------------------------------------------

  /** What the current frame shows, as the evaluation pass reads it. */
  datatype Sight = Sight(frameId: int, hands: Association.Owned, scooperOwners: Association.Owned,
                         scoopers: seq<Box>, pizzas: seq<Box>)

  /** One of worker `w`'s hands in this frame overlaps a pizza. */
  predicate TouchesPizza(v: Sight, w: nat) {
    w in v.hands.entries && AnyOverlap(v.hands.entries[w], v.pizzas, TouchIoU)
  }

  /**
   * The frame shows worker `w` using a scooper: a scooper is attributed to
   * `w`, or, when none is, some pizza overlaps some scooper.
   */
  predicate ScooperSeen(v: Sight, w: nat) {
    if w in v.scooperOwners.entries && |v.scooperOwners.entries[w]| > 0 then true
    else AnyOverlap(v.pizzas, v.scoopers, TouchIoU)
  }

  /** One frame's evidence for an event that is still inside its window. */
  function Evidence(e: Event, v: Sight): (e': Event)
    ensures e' == e.(pizzaTouched := e'.pizzaTouched, scooperTouched := e'.scooperTouched)
    ensures e'.pizzaTouched <==> e.pizzaTouched || TouchesPizza(v, e.worker)
    ensures e'.scooperTouched <==> e.scooperTouched || ScooperSeen(v, e.worker)
  {
    var w := e.worker;
    var pizza := w in v.hands.entries && AnyOverlap(v.hands.entries[w], v.pizzas, TouchIoU);
    var owned := w in v.scooperOwners.entries && |v.scooperOwners.entries[w]| > 0;
    var scooper := if owned then true else AnyOverlap(v.pizzas, v.scoopers, TouchIoU);
    e.(pizzaTouched := e.pizzaTouched || pizza, scooperTouched := e.scooperTouched || scooper)
  }

  /** Seeing the same frame twice adds no evidence. */
  lemma EvidenceIdempotent(e: Event, v: Sight)
    ensures Evidence(Evidence(e, v), v) == Evidence(e, v)
  {
  }

  /** `e'` is `e` at a later stage: same identity, evidence and the processed mark only ever set. */
  ghost predicate Refines(e: Event, e': Event) {
    && e'.worker == e.worker && e'.startFrame == e.startFrame && e'.hand == e.hand && e'.roi == e.roi
    && (e.pizzaTouched ==> e'.pizzaTouched)
    && (e.scooperTouched ==> e'.scooperTouched)
    && (e.processed ==> e' == e)
  }

  datatype Classified = Classified(event: Event, tally: Tally)

  /**
   * The terminal step of an event whose window has elapsed: a violation if
   * a pizza was touched without a scooper, a safe pickup (which starts the
   * worker's cooldown) if both, nothing otherwise; an event whose key was
   * already recorded is not counted again. The event is processed either way.
   */
  function Classify(e: Event, frameId: int, t: Tally): (c: Classified)
    ensures c.event == e.(processed := true)
    ensures TallyInv(t) ==> TallyInv(c.tally)
    ensures TallyGrows(t, c.tally)
    ensures e.worker in c.tally.stats
    ensures var unseen := EventKey(e.worker, e.startFrame) !in t.processed;
            var violation := e.pizzaTouched && !e.scooperTouched && unseen;
            var safe := e.pizzaTouched && e.scooperTouched && unseen;
            && c.tally.violationCount == t.violationCount + (if violation then 1 else 0)
            && StatsOf(c.tally.stats, e.worker).violations == StatsOf(t.stats, e.worker).violations + (if violation then 1 else 0)
            && StatsOf(c.tally.stats, e.worker).safePickups == StatsOf(t.stats, e.worker).safePickups + (if safe then 1 else 0)
            && c.tally.lastSafe == (if safe then t.lastSafe[e.worker := frameId] else t.lastSafe)
            && c.tally.processed == t.processed + (if violation || safe then {EventKey(e.worker, e.startFrame)} else {})
            && c.tally.isSafePickup == (t.isSafePickup || safe)
    // other workers' counters are untouched
    ensures forall v | v != e.worker :: StatsOf(c.tally.stats, v) == StatsOf(t.stats, v)
  {
    var w := e.worker;
    var cur := StatsOf(t.stats, w);
    var key := EventKey(w, e.startFrame);
    var done := e.(processed := true);
    if e.pizzaTouched && !e.scooperTouched && key !in t.processed then
      var x := cur.(violations := cur.violations + 1);
      RecordKeepsInv(t, w, e.startFrame, x, t.violationCount + 1);
      Classified(done, t.(stats := t.stats[w := x], processed := t.processed + {key},
                          violationCount := t.violationCount + 1, isViolation := true))
    else if e.pizzaTouched && e.scooperTouched && key !in t.processed then
      var x := cur.(safePickups := cur.safePickups + 1);
      RecordKeepsInv(t, w, e.startFrame, x, t.violationCount);
      Classified(done, t.(stats := t.stats[w := x], processed := t.processed + {key},
                          lastSafe := t.lastSafe[w := frameId], isSafePickup := true))
    else
      TouchKeepsInv(t, w);
      Classified(done, t.(stats := t.stats[w := cur]))
  }

  /**
   * What becomes of an event in frame `v`, whatever the counters say: a
   * processed event stays as it is, one inside its window gains the frame's
   * evidence, and a due one is closed with its evidence as collected.
   */
  function EventAfter(e: Event, v: Sight): (e': Event)
    ensures Refines(e, e')
    ensures e'.processed <==> e.processed || v.frameId - e.startFrame > EvidenceWindow
  {
    if e.processed then e
    else if v.frameId - e.startFrame <= EvidenceWindow then Evidence(e, v)
    else e.(processed := true)
  }

  /**
   * The evaluation of one event in the frame `v`: a processed event is
   * skipped, an event at most 50 frames old collects evidence, and an older
   * one is classified.
   */
  function EvaluateEvent(e: Event, v: Sight, t: Tally): (c: Classified)
    ensures e.processed ==> c == Classified(e, t)
    ensures !e.processed && v.frameId - e.startFrame <= EvidenceWindow ==>
              c.tally == t && c.event == Evidence(e, v) && !c.event.processed
    ensures !e.processed && v.frameId - e.startFrame > EvidenceWindow ==> c == Classify(e, v.frameId, t)
    ensures Refines(e, c.event)
    ensures c.event == EventAfter(e, v)
    ensures TallyInv(t) ==> TallyInv(c.tally)
    ensures TallyGrows(t, c.tally)
    ensures forall w | w != e.worker :: StatsOf(c.tally.stats, w) == StatsOf(t.stats, w)
    ensures forall w | w != e.worker :: KeysOf(c.tally.processed, w) == KeysOf(t.processed, w)
    ensures forall w | w != e.worker :: (w in c.tally.lastSafe <==> w in t.lastSafe)
    ensures forall w | w != e.worker && w in t.lastSafe :: c.tally.lastSafe[w] == t.lastSafe[w]
    ensures forall w | w != e.worker :: Untouched(t, c.tally, w)
  {
    if e.processed then Classified(e, t)
    else if v.frameId - e.startFrame <= EvidenceWindow then Classified(Evidence(e, v), t)
    else Classify(e, v.frameId, t)
  }

  datatype Evaluated = Evaluated(events: seq<Event>, tally: Tally)

  /** The evaluation of one worker's event list, in order. */
  function EvaluateList(evs: seq<Event>, v: Sight, t: Tally): (r: Evaluated)
    ensures |r.events| == |evs|
    ensures forall i | 0 <= i < |evs| :: Refines(evs[i], r.events[i])
    ensures forall i | 0 <= i < |evs| :: r.events[i] == EventAfter(evs[i], v)
    ensures TallyInv(t) ==> TallyInv(r.tally)
    ensures TallyGrows(t, r.tally)
    ensures forall w | (forall i | 0 <= i < |evs| :: evs[i].worker != w) :: Untouched(t, r.tally, w)
    decreases |evs|
  {
    if evs == [] then Evaluated([], t)
    else
      var c := EvaluateEvent(evs[0], v, t);
      var rest := EvaluateList(evs[1..], v, c.tally);
      AfterCons(evs, c.event, rest.events, v);
      TallyGrowsTransitive(t, c.tally, rest.tally);
      UntouchedChain(evs, t, c.tally, rest.tally);
      Evaluated([c.event] + rest.events, rest.tally)
  }

  lemma AfterCons(evs: seq<Event>, e': Event, rest: seq<Event>, v: Sight)
    requires |evs| > 0 && |rest| == |evs| - 1
    requires Refines(evs[0], e') && e' == EventAfter(evs[0], v)
    requires forall i | 0 <= i < |evs[1..]| :: Refines(evs[1..][i], rest[i])
    requires forall i | 0 <= i < |evs[1..]| :: rest[i] == EventAfter(evs[1..][i], v)
    ensures forall i | 0 <= i < |evs| :: Refines(evs[i], ([e'] + rest)[i])
    ensures forall i | 0 <= i < |evs| :: ([e'] + rest)[i] == EventAfter(evs[i], v)
  {
    forall i | 0 < i < |evs|
      ensures Refines(evs[i], ([e'] + rest)[i]) && ([e'] + rest)[i] == EventAfter(evs[i], v)
    {
      assert evs[1..][i - 1] == evs[i];
      assert ([e'] + rest)[i] == rest[i - 1];
    }
  }

  lemma UntouchedChain(evs: seq<Event>, t1: Tally, t2: Tally, t3: Tally)
    requires |evs| > 0
    requires forall w | w != evs[0].worker :: Untouched(t1, t2, w)
    requires forall w | (forall i | 0 <= i < |evs[1..]| :: evs[1..][i].worker != w) :: Untouched(t2, t3, w)
    ensures forall w | (forall i | 0 <= i < |evs| :: evs[i].worker != w) :: Untouched(t1, t3, w)
  {
    forall w | (forall i | 0 <= i < |evs| :: evs[i].worker != w)
      ensures Untouched(t1, t3, w)
    {
      assert evs[0].worker != w;
      assert Untouched(t1, t2, w);
      assert forall i | 0 <= i < |evs[1..]| :: evs[1..][i] == evs[i + 1];
      assert Untouched(t2, t3, w);
    }
  }

  /** Worker `w`'s counters, recorded keys and cooldown are the same in `t` and `t'`. */
  ghost predicate Untouched(t: Tally, t': Tally, w: nat) {
    && StatsOf(t'.stats, w) == StatsOf(t.stats, w)
    && KeysOf(t'.processed, w) == KeysOf(t.processed, w)
    && (w in t'.lastSafe <==> w in t.lastSafe)
    && (w in t.lastSafe ==> t'.lastSafe[w] == t.lastSafe[w])
  }

  /** Refinement pointwise keeps a worker's list well formed. */
  lemma RefinesKeepsWorkerList(w: nat, evs: seq<Event>, evs': seq<Event>)
    requires |evs'| == |evs|
    requires forall i | 0 <= i < |evs| :: Refines(evs[i], evs'[i])
    ensures WorkerList(w, evs) ==> WorkerList(w, evs')
  {
  }

  /** Every event of `d` is, at the same place in `d'`, a later stage of itself. */
  ghost predicate EventsRefine(d: Events, d': Events) {
    forall w :: |EventsOf(d', w)| == |EventsOf(d, w)| &&
                forall i | 0 <= i < |EventsOf(d, w)| :: Refines(EventsOf(d, w)[i], EventsOf(d', w)[i])
  }

  /** `evs'` is what frame `v` makes of `evs`, event by event. */
  ghost predicate AfterFrame(evs: seq<Event>, evs': seq<Event>, v: Sight) {
    && |evs'| == |evs|
    && forall i | 0 <= i < |evs| :: evs'[i] == EventAfter(evs[i], v)
  }

  datatype Evaluation = Evaluation(events: Events, tally: Tally)

  /** The evaluation pass over the workers `ws` of `person_events`, in order. */
  function EvaluateAll(ws: seq<nat>, d: Events, v: Sight, t: Tally): (r: Evaluation)
    ensures r.events.entries.Keys == d.entries.Keys
    ensures OrderedDict.Valid(d) ==> OrderedDict.Valid(r.events)
    ensures WellFormed(d) ==> WellFormed(r.events)
    ensures TallyInv(t) ==> TallyInv(r.tally)
    ensures TallyGrows(t, r.tally)
    decreases |ws|
  {
    if ws == [] || ws[0] !in d.entries then
      if ws == [] then Evaluation(d, t) else EvaluateAll(ws[1..], d, v, t)
    else
      var w := ws[0];
      var el := EvaluateList(d.entries[w], v, t);
      var d1 := OrderedDict.Put(d, w, el.events);
      assert WellFormed(d) ==> WellFormed(d1) by {
        if WellFormed(d) {
          RefinesKeepsWorkerList(w, d.entries[w], el.events);
        }
      }
      var r := EvaluateAll(ws[1..], d1, v, el.tally);
      TallyGrowsTransitive(t, el.tally, r.tally);
      r
  }

  lemma DistinctTail(ws: seq<nat>)
    requires |ws| > 0
    ensures OrderedDict.Distinct(ws) ==> OrderedDict.Distinct(ws[1..]) && ws[0] !in ws[1..]
  {
    assert forall m | 0 <= m < |ws| - 1 :: ws[1..][m] == ws[m + 1];
  }

  /** The evaluation pass leaves the lists of workers it does not visit alone. */
  lemma {:induction false} EvaluateAllFrame(ws: seq<nat>, d: Events, v: Sight, t: Tally)
    ensures forall w | w !in ws :: EventsOf(EvaluateAll(ws, d, v, t).events, w) == EventsOf(d, w)
    decreases |ws|
  {
    if ws != [] {
      if ws[0] !in d.entries {
        EvaluateAllFrame(ws[1..], d, v, t);
      } else {
        var w := ws[0];
        var el := EvaluateList(d.entries[w], v, t);
        var d1 := OrderedDict.Put(d, w, el.events);
        EvaluateAllFrame(ws[1..], d1, v, el.tally);
        assert forall u | u != w :: EventsOf(d1, u) == EventsOf(d, u);
      }
    }
  }

  /** The evaluation pass refines every event in place. */
  lemma {:induction false} EvaluateAllRefines(ws: seq<nat>, d: Events, v: Sight, t: Tally)
    ensures EventsRefine(d, EvaluateAll(ws, d, v, t).events)
    decreases |ws|
  {
    if ws != [] {
      if ws[0] !in d.entries {
        EvaluateAllRefines(ws[1..], d, v, t);
      } else {
        var w := ws[0];
        var el := EvaluateList(d.entries[w], v, t);
        var d1 := OrderedDict.Put(d, w, el.events);
        var r := EvaluateAll(ws[1..], d1, v, el.tally);
        EvaluateAllRefines(ws[1..], d1, v, el.tally);
        PutRefines(d, w, el.events);
        RefinesChain(d, d1, r.events);
      }
    }
  }

  /** Replacing one worker's list by a pointwise refinement of it refines the whole dictionary. */
  lemma PutRefines(d: Events, w: nat, evs': seq<Event>)
    requires w in d.entries && |evs'| == |d.entries[w]|
    requires forall i | 0 <= i < |evs'| :: Refines(d.entries[w][i], evs'[i])
    ensures EventsRefine(d, OrderedDict.Put(d, w, evs'))
  {
    var d1 := OrderedDict.Put(d, w, evs');
    assert forall u | u != w :: EventsOf(d1, u) == EventsOf(d, u);
    assert EventsOf(d1, w) == evs';
  }

  lemma RefinesChain(d1: Events, d2: Events, d3: Events)
    requires EventsRefine(d1, d2) && EventsRefine(d2, d3)
    ensures EventsRefine(d1, d3)
  {
  }

  /** The evaluation pass turns the list of every worker it visits into what the frame makes of it. */
  lemma {:induction false} EvaluateAllCloses(ws: seq<nat>, d: Events, v: Sight, t: Tally)
    requires OrderedDict.Distinct(ws)
    ensures forall w | w in ws :: AfterFrame(EventsOf(d, w), EventsOf(EvaluateAll(ws, d, v, t).events, w), v)
    decreases |ws|
  {
    if ws != [] {
      DistinctTail(ws);
      var w := ws[0];
      if w !in d.entries {
        EvaluateAllCloses(ws[1..], d, v, t);
        EvaluateAllFrame(ws[1..], d, v, t);
      } else {
        var el := EvaluateList(d.entries[w], v, t);
        var d1 := OrderedDict.Put(d, w, el.events);
        EvaluateAllCloses(ws[1..], d1, v, el.tally);
        EvaluateAllFrame(ws[1..], d1, v, el.tally);
        assert forall u | u != w :: EventsOf(d1, u) == EventsOf(d, u);
        assert EventsOf(d1, w) == el.events;
      }
    }
  }

  // ---------------------------------------------------------------------
  // What the evaluation pass counts, worker by worker
  // ---------------------------------------------------------------------

  /** `e` is open, due in frame `frameId`, shows a pizza touched without a scooper, and its key is new. */
  predicate CountsViolation(e: Event, frameId: int, p: set<Key>) {
    && !e.processed && frameId - e.startFrame > EvidenceWindow
    && e.pizzaTouched && !e.scooperTouched && EventKey(e.worker, e.startFrame) !in p
  }

  /** `e` is open, due in frame `frameId`, shows a pizza touched with a scooper, and its key is new. */
  predicate CountsSafe(e: Event, frameId: int, p: set<Key>) {
    && !e.processed && frameId - e.startFrame > EvidenceWindow
    && e.pizzaTouched && e.scooperTouched && EventKey(e.worker, e.startFrame) !in p
  }

  predicate AnyViolation(evs: seq<Event>, frameId: int, p: set<Key>) {
    exists i | 0 <= i < |evs| :: CountsViolation(evs[i], frameId, p)
  }

  predicate AnySafe(evs: seq<Event>, frameId: int, p: set<Key>) {
    exists i | 0 <= i < |evs| :: CountsSafe(evs[i], frameId, p)
  }

  /** How the evaluation pass leaves worker `w`'s counters and cooldown, given whether a violation and a safe pickup were counted. */
  ghost predicate WorkerCounted(t: Tally, t': Tally, w: nat, violation: bool, safe: bool, frameId: int) {
    && StatsOf(t'.stats, w).violations == StatsOf(t.stats, w).violations + (if violation then 1 else 0)
    && StatsOf(t'.stats, w).safePickups == StatsOf(t.stats, w).safePickups + (if safe then 1 else 0)
    && (if safe then w in t'.lastSafe && t'.lastSafe[w] == frameId
        else (w in t'.lastSafe <==> w in t.lastSafe) && (w in t.lastSafe ==> t'.lastSafe[w] == t.lastSafe[w]))
  }

  /** A list of processed events leaves the counters alone. */
  lemma {:induction false} AllProcessedNoChange(evs: seq<Event>, v: Sight, t: Tally)
    requires forall i | 0 <= i < |evs| :: evs[i].processed
    ensures EvaluateList(evs, v, t).tally == t
    decreases |evs|
  {
    if evs != [] {
      assert forall i | 0 <= i < |evs| - 1 :: evs[1..][i] == evs[i + 1];
      AllProcessedNoChange(evs[1..], v, t);
    }
  }

  /**
   * Evaluating worker `w`'s list (at most one open event) counts a violation
   * exactly when its open event is a due, unscooped, new pickup, and a safe
   * pickup exactly when it is a due, scooped, new one.
   */
  lemma {:induction false} EvaluateListCounts(w: nat, evs: seq<Event>, v: Sight, t: Tally)
    requires WorkerList(w, evs)
    ensures WorkerCounted(t, EvaluateList(evs, v, t).tally, w,
                          AnyViolation(evs, v.frameId, t.processed), AnySafe(evs, v.frameId, t.processed), v.frameId)
    decreases |evs|
  {
    if evs != [] {
      WorkerListTail(w, evs);
      if evs[0].processed {
        EvaluateListCounts(w, evs[1..], v, t);
        ProcessedHeadCounts(w, evs, v, t);
      } else {
        OpenHeadCounts(w, evs, v, t);
      }
    }
  }

  lemma WorkerListTail(w: nat, evs: seq<Event>)
    requires WorkerList(w, evs) && |evs| > 0
    ensures WorkerList(w, evs[1..])
    ensures evs[0].worker == w
    ensures !evs[0].processed ==> forall i | 0 <= i < |evs| - 1 :: evs[1..][i].processed
  {
    assert forall i | 0 <= i < |evs| - 1 :: evs[1..][i] == evs[i + 1];
  }

  lemma ProcessedHeadCounts(w: nat, evs: seq<Event>, v: Sight, t: Tally)
    requires |evs| > 0 && evs[0].processed
    requires WorkerCounted(t, EvaluateList(evs[1..], v, t).tally, w,
                           AnyViolation(evs[1..], v.frameId, t.processed), AnySafe(evs[1..], v.frameId, t.processed), v.frameId)
    ensures WorkerCounted(t, EvaluateList(evs, v, t).tally, w,
                          AnyViolation(evs, v.frameId, t.processed), AnySafe(evs, v.frameId, t.processed), v.frameId)
  {
    var a := EvaluateList(evs, v, t).tally;
    var b := EvaluateList(evs[1..], v, t).tally;
    ProcessedHeadSkipped(evs, v, t);
    AnyShift(evs, v.frameId, t.processed);
    var x := AnyViolation(evs, v.frameId, t.processed);
    var y := AnySafe(evs, v.frameId, t.processed);
    assert a == b;
    assert WorkerCounted(t, b, w, x, y, v.frameId);
  }

  lemma ProcessedHeadSkipped(evs: seq<Event>, v: Sight, t: Tally)
    requires |evs| > 0 && evs[0].processed
    ensures EvaluateList(evs, v, t).tally == EvaluateList(evs[1..], v, t).tally
  {
    assert EvaluateEvent(evs[0], v, t).tally == t;
  }

  /** A processed head counts for nothing. */
  lemma AnyShift(evs: seq<Event>, frameId: int, p: set<Key>)
    requires |evs| > 0 && evs[0].processed
    ensures AnyViolation(evs, frameId, p) == AnyViolation(evs[1..], frameId, p)
    ensures AnySafe(evs, frameId, p) == AnySafe(evs[1..], frameId, p)
  {
    var rest := evs[1..];
    assert forall i | 0 < i < |evs| :: evs[i] == rest[i - 1];
    if AnyViolation(rest, frameId, p) {
      var i :| 0 <= i < |rest| && CountsViolation(rest[i], frameId, p);
      assert CountsViolation(evs[i + 1], frameId, p);
    }
    if AnySafe(rest, frameId, p) {
      var i :| 0 <= i < |rest| && CountsSafe(rest[i], frameId, p);
      assert CountsSafe(evs[i + 1], frameId, p);
    }
  }

  lemma OpenHeadCounts(w: nat, evs: seq<Event>, v: Sight, t: Tally)
    requires |evs| > 0 && !evs[0].processed && evs[0].worker == w
    requires forall i | 0 <= i < |evs| - 1 :: evs[1..][i].processed
    ensures WorkerCounted(t, EvaluateList(evs, v, t).tally, w,
                          AnyViolation(evs, v.frameId, t.processed), AnySafe(evs, v.frameId, t.processed), v.frameId)
  {
    var e := evs[0];
    var c := EvaluateEvent(e, v, t);
    AllProcessedNoChange(evs[1..], v, c.tally);
    assert EvaluateList(evs, v, t).tally == c.tally;
    assert forall i | 0 < i < |evs| :: evs[i].processed by {
      assert forall i | 0 < i < |evs| :: evs[i] == evs[1..][i - 1];
    }
  }

  lemma WorkerCountedChain(t1: Tally, t2: Tally, t3: Tally, w: nat, x1: bool, y1: bool, x2: bool, y2: bool, frameId: int)
    requires (!x1 && !y1) || (!x2 && !y2)
    requires WorkerCounted(t1, t2, w, x1, y1, frameId) && WorkerCounted(t2, t3, w, x2, y2, frameId)
    ensures WorkerCounted(t1, t3, w, x1 || x2, y1 || y2, frameId)
  {
  }

  /** Whether one of `w`'s events counts depends only on `w`'s recorded keys. */
  lemma AnyDependsOnOwnKeys(evs: seq<Event>, w: nat, frameId: int, p: set<Key>, p': set<Key>)
    requires forall i | 0 <= i < |evs| :: evs[i].worker == w
    requires KeysOf(p, w) == KeysOf(p', w)
    ensures AnyViolation(evs, frameId, p) == AnyViolation(evs, frameId, p')
    ensures AnySafe(evs, frameId, p) == AnySafe(evs, frameId, p')
  {
    forall i | 0 <= i < |evs|
      ensures (EventKey(w, evs[i].startFrame) in p) == (EventKey(w, evs[i].startFrame) in p')
    {
      var k := EventKey(w, evs[i].startFrame);
      assert k in p <==> k in KeysOf(p, w);
      assert k in p' <==> k in KeysOf(p', w);
    }
  }

  /**
   * Over the whole evaluation pass, worker `w`'s counters move exactly as its
   * own list dictates, whatever the other workers' events do.
   */
  lemma {:induction false} EvaluateAllCounts(ws: seq<nat>, d: Events, v: Sight, t: Tally, w: nat)
    requires OrderedDict.Distinct(ws)
    requires forall u | u in d.entries :: WorkerList(u, d.entries[u])
    ensures WorkerCounted(t, EvaluateAll(ws, d, v, t).tally, w,
                          w in ws && AnyViolation(EventsOf(d, w), v.frameId, t.processed),
                          w in ws && AnySafe(EventsOf(d, w), v.frameId, t.processed), v.frameId)
    decreases |ws|
  {
    if ws == [] {
      return;
    }
    DistinctTail(ws);
    var u := ws[0];
    if u !in d.entries {
      EvaluateAllCounts(ws[1..], d, v, t, w);
      assert w == u ==> EventsOf(d, w) == [];
      assert EvaluateAll(ws, d, v, t) == EvaluateAll(ws[1..], d, v, t);
    } else {
      var el := EvaluateList(d.entries[u], v, t);
      var d1 := OrderedDict.Put(d, u, el.events);
      PutKeepsLists(d, u, el.events);
      EvaluateAllCounts(ws[1..], d1, v, el.tally, w);
      if w == u {
        CountsOwnList(ws, d, v, t);
      } else {
        CountsOtherList(ws, d, v, t, w);
      }
    }
  }

  lemma PutKeepsLists(d: Events, u: nat, evs': seq<Event>)
    requires forall x | x in d.entries :: WorkerList(x, d.entries[x])
    requires u in d.entries && |evs'| == |d.entries[u]|
    requires forall i | 0 <= i < |evs'| :: Refines(d.entries[u][i], evs'[i])
    ensures var d1 := OrderedDict.Put(d, u, evs');
            forall x | x in d1.entries :: WorkerList(x, d1.entries[x])
  {
    RefinesKeepsWorkerList(u, d.entries[u], evs');
  }

  /** The step of the pass that evaluates `w`'s own list; `w` does not come up again. */
  lemma CountsOwnList(ws: seq<nat>, d: Events, v: Sight, t: Tally)
    requires |ws| > 0 && ws[0] in d.entries && ws[0] !in ws[1..]
    requires WorkerList(ws[0], d.entries[ws[0]])
    requires var w := ws[0];
             var el := EvaluateList(d.entries[w], v, t);
             var d1 := OrderedDict.Put(d, w, el.events);
             WorkerCounted(el.tally, EvaluateAll(ws[1..], d1, v, el.tally).tally, w,
                           w in ws[1..] && AnyViolation(EventsOf(d1, w), v.frameId, el.tally.processed),
                           w in ws[1..] && AnySafe(EventsOf(d1, w), v.frameId, el.tally.processed), v.frameId)
    ensures WorkerCounted(t, EvaluateAll(ws, d, v, t).tally, ws[0],
                          AnyViolation(EventsOf(d, ws[0]), v.frameId, t.processed),
                          AnySafe(EventsOf(d, ws[0]), v.frameId, t.processed), v.frameId)
  {
    var w := ws[0];
    var el := EvaluateList(d.entries[w], v, t);
    var d1 := OrderedDict.Put(d, w, el.events);
    var r := EvaluateAll(ws[1..], d1, v, el.tally).tally;
    assert EvaluateAll(ws, d, v, t).tally == r;
    EvaluateListCounts(w, d.entries[w], v, t);
    WorkerCountedChain(t, el.tally, r, w, AnyViolation(EventsOf(d, w), v.frameId, t.processed),
                       AnySafe(EventsOf(d, w), v.frameId, t.processed), false, false, v.frameId);
  }

  /** The step of the pass that evaluates another worker's list, which leaves `w` alone. */
  lemma CountsOtherList(ws: seq<nat>, d: Events, v: Sight, t: Tally, w: nat)
    requires |ws| > 0 && ws[0] in d.entries && ws[0] != w
    requires WorkerList(ws[0], d.entries[ws[0]])
    requires forall i | 0 <= i < |EventsOf(d, w)| :: EventsOf(d, w)[i].worker == w
    requires var u := ws[0];
             var el := EvaluateList(d.entries[u], v, t);
             var d1 := OrderedDict.Put(d, u, el.events);
             WorkerCounted(el.tally, EvaluateAll(ws[1..], d1, v, el.tally).tally, w,
                           w in ws[1..] && AnyViolation(EventsOf(d1, w), v.frameId, el.tally.processed),
                           w in ws[1..] && AnySafe(EventsOf(d1, w), v.frameId, el.tally.processed), v.frameId)
    ensures WorkerCounted(t, EvaluateAll(ws, d, v, t).tally, w,
                          w in ws && AnyViolation(EventsOf(d, w), v.frameId, t.processed),
                          w in ws && AnySafe(EventsOf(d, w), v.frameId, t.processed), v.frameId)
  {
    var u := ws[0];
    var el := EvaluateList(d.entries[u], v, t);
    var d1 := OrderedDict.Put(d, u, el.events);
    var r := EvaluateAll(ws[1..], d1, v, el.tally).tally;
    assert EvaluateAll(ws, d, v, t).tally == r;
    assert EventsOf(d1, w) == EventsOf(d, w);
    assert forall i | 0 <= i < |d.entries[u]| :: d.entries[u][i].worker != w;
    assert Untouched(t, el.tally, w);
    assert WorkerCounted(t, el.tally, w, false, false, v.frameId);
    AnyDependsOnOwnKeys(EventsOf(d, w), w, v.frameId, t.processed, el.tally.processed);
    WorkerCountedChain(t, el.tally, r, w, false, false,
                       w in ws[1..] && AnyViolation(EventsOf(d, w), v.frameId, t.processed),
                       w in ws[1..] && AnySafe(EventsOf(d, w), v.frameId, t.processed), v.frameId);
  }
}
