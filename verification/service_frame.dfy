/**
 * `process_frame` as a whole: the six phases composed into one step from
 * state to state, the invariant every reachable state satisfies, and the
 * frame-level guarantees the engine gives.
 */
module ServiceFrame {
  import opened Geometry
  import opened Detections
  import OrderedDict
  import Identity
  import Association
  import opened ServiceEngine

  /** The invariant of every state the engine produces. */
  ghost predicate Valid(s: State) {
    && Identity.Valid(s.ids)
    && WellFormed(s.events)
    && CountsMatchKeys(s.stats, s.processed)
    && s.violationCount == TotalViolations(s.stats)
  }

  /** The state only moves forward: nothing recorded is forgotten and no evidence is reset. */
  ghost predicate Grows(s: State, s': State) {
    && Identity.Keeps(s.ids, s'.ids)
    && s.processed <= s'.processed
    && (forall w :: StatsOf(s.stats, w).violations <= StatsOf(s'.stats, w).violations)
    && (forall w :: StatsOf(s.stats, w).safePickups <= StatsOf(s'.stats, w).safePickups)
    && s.violationCount <= s'.violationCount
    && (forall w | w in s.events.entries :: w in s'.events.entries)
    && (forall w :: |EventsOf(s.events, w)| <= |EventsOf(s'.events, w)|)
    && (forall w, i | 0 <= i < |EventsOf(s.events, w)| :: Refines(EventsOf(s.events, w)[i], EventsOf(s'.events, w)[i]))
  }

  /** Everything `Step` computes on the way, phase by phase. */
  datatype Phases = Phases(
    persons: seq<PersonBox>,
    resolved: Identity.Resolver,
    hands: Association.Attribution,
    afterOpen: Events,
    scoopers: Association.Attribution,
    sight: Sight,
    evaluation: Evaluation)

  /** The counters of `s`, as the evaluation pass starts from them with both flags down. */
  function AsTally(s: State): Tally {
    Tally(s.stats, s.processed, s.lastSafe, s.violationCount, false, false)
  }

  function Run6(s: State, dets: seq<Detection>, frameId: int, grace: nat): Phases {
    var persons := PersonsOf(dets);
    var r1 := Identity.ResolvePersons(Identity.Plain, s.ids, persons);
    var ha := Association.Attribute(Identity.Plain, BoxesOf(dets, Hand), persons, r1, OrderedDict.Empty());
    var ev := OpenAll(ha.owned.keys, ha.owned, s.events, s.lastSafe, frameId, grace);
    var sc := Association.Attribute(Identity.Plain, BoxesOf(dets, Scooper), persons, ha.after, OrderedDict.Empty());
    var v := Sight(frameId, ha.owned, sc.owned, BoxesOf(dets, Scooper), BoxesOf(dets, Pizza));
    Phases(persons, r1, ha, ev, sc, v, EvaluateAll(ev.keys, ev, v, AsTally(s)))
  }

  /**
   * `process_frame(frame, frame_id, state)` on the frame's detections, with
   * `grace` the cooldown `int(fps * 3)`. The frame record is written only if
   * the frame carried a violation or safe pickup and was not written before.
   */
  function Step(s: State, dets: seq<Detection>, frameId: int, grace: nat): (o: Outcome)
    ensures Valid(s) ==> Valid(o.state)
    ensures Grows(s, o.state)
    ensures o.isViolation <==> o.state.violationCount > s.violationCount
    ensures o.isSafePickup <==> exists w :: StatsOf(s.stats, w).safePickups < StatsOf(o.state.stats, w).safePickups
    ensures o.saved <==> (o.isViolation || o.isSafePickup) && FrameKey(frameId) !in s.processed
    ensures FrameKey(frameId) in o.state.processed <==> FrameKey(frameId) in s.processed || o.saved
  {
    var ph := Run6(s, dets, frameId, grace);
    var t := ph.evaluation.tally;
    var flagged := t.isViolation || t.isSafePickup;
    var saved := flagged && FrameKey(frameId) !in t.processed;
    var processed := if saved then t.processed + {FrameKey(frameId)} else t.processed;
    StepFacts(s, dets, frameId, grace);
    FrameKeyKeepsCounts(t.stats, t.processed, frameId);
    Outcome(State(ph.scoopers.after, ph.evaluation.events, t.lastSafe, t.stats, processed, t.violationCount),
            t.isViolation, t.isSafePickup, saved)
  }

  lemma StepFacts(s: State, dets: seq<Detection>, frameId: int, grace: nat)
    ensures var ph := Run6(s, dets, frameId, grace);
            var t := ph.evaluation.tally;
            && Identity.Keeps(s.ids, ph.scoopers.after)
            && (Identity.Valid(s.ids) ==> Identity.Valid(ph.scoopers.after))
            && (WellFormed(s.events) ==> WellFormed(ph.evaluation.events))
            && TallyGrows(AsTally(s), t)
            && (Valid(s) ==> TallyInv(t))
            && (FrameKey(frameId) in t.processed <==> FrameKey(frameId) in s.processed)
            && (forall w | w in s.events.entries :: w in ph.evaluation.events.entries)
            && (forall w :: |EventsOf(s.events, w)| <= |EventsOf(ph.evaluation.events, w)|)
            && (forall w, i | 0 <= i < |EventsOf(s.events, w)| ::
                  Refines(EventsOf(s.events, w)[i], EventsOf(ph.evaluation.events, w)[i]))
  {
    var ph := Run6(s, dets, frameId, grace);
    Identity.KeepsTransitive(s.ids, ph.resolved, ph.hands.after);
    Identity.KeepsTransitive(s.ids, ph.hands.after, ph.scoopers.after);
    var ev := ph.afterOpen;
    var d' := ph.evaluation.events;
    EvaluateAllRefines(ev.keys, ev, ph.sight, AsTally(s));
    forall w, i | 0 <= i < |EventsOf(s.events, w)|
      ensures Refines(EventsOf(s.events, w)[i], EventsOf(d', w)[i])
    {
      assert EventsOf(s.events, w) <= EventsOf(ev, w);
      assert EventsOf(ev, w)[i] == EventsOf(s.events, w)[i];
    }
    forall w ensures |EventsOf(s.events, w)| <= |EventsOf(d', w)| {
      assert EventsOf(s.events, w) <= EventsOf(ev, w);
    }
  }

  /** Recording a frame key leaves every worker's classification keys as they were. */
  lemma FrameKeyKeepsCounts(stats: map<nat, Stats>, p: set<Key>, f: int)
    ensures CountsMatchKeys(stats, p) ==> CountsMatchKeys(stats, p + {FrameKey(f)})
  {
    forall w ensures KeysOf(p + {FrameKey(f)}, w) == KeysOf(p, w) {
      if FrameKey(f) !in p { KeysOfAdd(p, FrameKey(f), w); }
    }
  }

  lemma InitialValid()
    ensures Valid(Initial())
  {
    assert TotalViolations(map[]) == 0;
  }

  /**
   * In one frame a worker opens at most one event, and only while it has no
   * open event and is not cooling down; the new event starts in this frame,
   * is open, holds this frame's evidence, and comes from one of the frame's
   * hands that lies in a container and has a tracked person within reach.
   */
  lemma StepOpensAtMostOne(s: State, dets: seq<Detection>, frameId: int, grace: nat, w: nat)
    requires Valid(s)
    ensures var before := EventsOf(s.events, w);
            var after := EventsOf(Step(s, dets, frameId, grace).state.events, w);
            var v := Run6(s, dets, frameId, grace).sight;
            || |after| == |before|
            || (&& |after| == |before| + 1
                && !CoolingDown(s.lastSafe, w, frameId, grace)
                && !HasOpen(before)
                && var e := after[|before|];
                   && e.worker == w && e.startFrame == frameId && !e.processed
                   && (e.pizzaTouched <==> TouchesPizza(v, w))
                   && (e.scooperTouched <==> ScooperSeen(v, w))
                   && FirstContaining(e.hand, Containers).Some?
                   && e.hand in BoxesOf(dets, Hand)
                   && Association.HasCandidate(Centre(e.hand), PersonsOf(dets)))
  {
    var ph := Run6(s, dets, frameId, grace);
    var ha := ph.hands;
    var ev := ph.afterOpen;
    var t0 := AsTally(s);
    var before := EventsOf(s.events, w);
    var after := EventsOf(Step(s, dets, frameId, grace).state.events, w);
    assert after == EventsOf(ph.evaluation.events, w);
    OpenAllOpensAtMostOne(ha.owned.keys, ha.owned, s.events, s.lastSafe, frameId, grace);
    assert OpensAtMostOne(s.events, ev, w, ha.owned, s.lastSafe, frameId, grace);
    EvaluateAllCloses(ev.keys, ev, ph.sight, t0);
    var mid := EventsOf(ev, w);
    assert AfterFrame(mid, after, ph.sight) by {
      if w !in ev.entries {
        assert mid == [] && after == [];
      }
    }
    if mid != before {
      var e := mid[|before|];
      assert after[|before|] == EventAfter(e, ph.sight);
      Association.OnlyNearBoxesAttributed(Identity.Plain, BoxesOf(dets, Hand), ph.persons, ph.resolved, OrderedDict.Empty());
      assert e.hand in BoxesOf(dets, Hand) && Association.HasCandidate(Centre(e.hand), ph.persons);
    }
  }

  /**
   * Every event a worker had before the frame becomes what the frame makes of
   * it: processed events stay, events inside their window gain this frame's
   * evidence, and due events are closed.
   */
  lemma StepEvaluatesEvents(s: State, dets: seq<Detection>, frameId: int, grace: nat, w: nat)
    requires Valid(s)
    ensures var before := EventsOf(s.events, w);
            var after := EventsOf(Step(s, dets, frameId, grace).state.events, w);
            |before| <= |after| && AfterFrame(before, after[..|before|], Run6(s, dets, frameId, grace).sight)
  {
    var ph := Run6(s, dets, frameId, grace);
    PhasesEvaluateEvents(s, dets, frameId, grace, w);
    assert Step(s, dets, frameId, grace).state.events == ph.evaluation.events;
  }

  lemma PhasesEvaluateEvents(s: State, dets: seq<Detection>, frameId: int, grace: nat, w: nat)
    requires WellFormed(s.events)
    ensures var ph := Run6(s, dets, frameId, grace);
            var before := EventsOf(s.events, w);
            var after := EventsOf(ph.evaluation.events, w);
            |before| <= |after| && AfterFrame(before, after[..|before|], ph.sight)
  {
    var ph := Run6(s, dets, frameId, grace);
    var ev := ph.afterOpen;
    var before := EventsOf(s.events, w);
    var after := EventsOf(ph.evaluation.events, w);
    EvaluateAllCloses(ev.keys, ev, ph.sight, AsTally(s));
    var mid := EventsOf(ev, w);
    assert AfterFrame(mid, after, ph.sight) by {
      if w !in ev.entries {
        assert mid == [] && after == [];
      }
    }
    AfterFramePrefix(before, mid, after, ph.sight);
  }

  /** What a frame makes of a list, restricted to a prefix of it. */
  lemma AfterFramePrefix(before: seq<Event>, mid: seq<Event>, after: seq<Event>, v: Sight)
    requires before <= mid && AfterFrame(mid, after, v)
    ensures |before| <= |after| && AfterFrame(before, after[..|before|], v)
  {
    assert forall i | 0 <= i < |before| :: mid[i] == before[i];
  }

  /** An event opened in frame `frameId` is not yet due, so appending it changes nothing that counts. */
  lemma NewEventCountsNothing(before: seq<Event>, mid: seq<Event>, frameId: int, p: set<Key>)
    requires mid == before || (|mid| == |before| + 1 && mid[..|before|] == before && mid[|before|].startFrame == frameId)
    ensures AnyViolation(mid, frameId, p) == AnyViolation(before, frameId, p)
    ensures AnySafe(mid, frameId, p) == AnySafe(before, frameId, p)
  {
    if mid != before {
      assert forall i | 0 <= i < |before| :: mid[i] == before[i];
    }
  }

  /**
   * Worker `w`'s counters grow by one violation exactly when one of its open
   * events is due with a pizza touched, no scooper and an unrecorded key,
   * and by one safe pickup (which also starts its cooldown now) exactly when
   * one is due with both; otherwise they and its cooldown stay as they were.
   */
  lemma StepCountsWorker(s: State, dets: seq<Detection>, frameId: int, grace: nat, w: nat)
    requires Valid(s)
    ensures WorkerCounted(AsTally(s), AsTally(Step(s, dets, frameId, grace).state), w,
                          AnyViolation(EventsOf(s.events, w), frameId, s.processed),
                          AnySafe(EventsOf(s.events, w), frameId, s.processed), frameId)
  {
    var ph := Run6(s, dets, frameId, grace);
    var ha := ph.hands;
    var ev := ph.afterOpen;
    var before := EventsOf(s.events, w);
    var mid := EventsOf(ev, w);
    OpenAllOpensAtMostOne(ha.owned.keys, ha.owned, s.events, s.lastSafe, frameId, grace);
    assert OpensAtMostOne(s.events, ev, w, ha.owned, s.lastSafe, frameId, grace);
    NewEventCountsNothing(before, mid, frameId, s.processed);
    EvaluateAllCounts(ev.keys, ev, ph.sight, AsTally(s), w);
    assert w !in ev.keys ==> mid == [];
    var t := ph.evaluation.tally;
    assert WorkerCounted(AsTally(s), t, w, AnyViolation(before, frameId, s.processed),
                         AnySafe(before, frameId, s.processed), frameId);
  }

  /**
   * A second `process_frame` call with a frame id already written does not
   * write it again. This is about a repeated call with the same `frame_id`:
   * the detector numbers every delivery afresh, so a message the broker
   * delivers twice arrives under a new id and is not covered here.
   */
  lemma RedeliveredFrameSavedOnce(s: State, dets: seq<Detection>, frameId: int, grace: nat)
    ensures var o := Step(s, dets, frameId, grace);
            o.saved ==> !Step(o.state, dets, frameId, grace).saved
  {
  }

  /** One frame of a stream: its number and its detections. */
  datatype Frame = Frame(id: int, dets: seq<Detection>)

  /** The engine run over a stream of frames, threading the state. */
  function Run(s: State, frames: seq<Frame>, grace: nat): (s': State)
    ensures Valid(s) ==> Valid(s')
    ensures Grows(s, s')
    decreases |frames|
  {
    if frames == [] then s
    else
      var s1 := Step(s, frames[0].dets, frames[0].id, grace).state;
      var s2 := Run(s1, frames[1..], grace);
      GrowsTransitive(s, s1, s2);
      s2
  }

  lemma GrowsTransitive(s1: State, s2: State, s3: State)
    requires Grows(s1, s2) && Grows(s2, s3)
    ensures Grows(s1, s3)
  {
    Identity.KeepsTransitive(s1.ids, s2.ids, s3.ids);
  }

  /** Every state reached from the initial state satisfies the invariant. */
  lemma RunFromInitialValid(frames: seq<Frame>, grace: nat)
    ensures Valid(Run(Initial(), frames, grace))
  {
    InitialValid();
  }
}
