# Pizza-store hygiene monitor: the violation-detection engine

This project models the per-frame violation-detection engine of the pizza-store
hygiene monitor. A detector supplies, for each video frame, labelled boxes:
hands, scoopers, pizzas and persons, and persons may carry a tracker id. The
engine does four things:

- It maps tracker ids to stable worker numbers.
- It attributes each hand and scooper to the nearest tracked person.
- It opens a *pickup event* when a worker's hand enters one of three ingredient
  containers, and gathers evidence over a window of frames: did the hand touch
  a pizza, was a scooper used?
- It then classifies the event as a violation (pizza touched without a scooper),
  as a safe pickup (pizza touched with a scooper, which starts a cooldown), or
  as nothing.

The source has three variants of the engine, and all three are modelled. Each
is a pure `Step` function over an immutable `State`, with the invariants
proved over `Step`.

- **Shared parts.**
  - `Geometry`: the centre-in-rectangle test, IoU overlap and the container
    rectangles.
  - `Detections`: the detector's output, given as data.
  - `OrderedDict`: Python's insertion-ordered `dict`. Its order matters here:
    the engine folds over `person_hands`, `person_events` and the tracker's
    position map in iteration order.
  - `Identity`: `get_consistent_worker_id`, in both its plain form and its
    re-identifying form.
  - `Association`: `assign_hand_to_person`.
- **The service engine** (`detection_service/detection_logic.py`, modules
  `ServiceEngine` and `ServiceFrame`).
  - An event opens on entry. Opening is gated by a per-worker cooldown and by
    the rule of one open event per worker.
  - Evidence is gathered for 50 frames.
  - Classification is deduplicated by the key `(worker, start frame)`.
  - The database write is deduplicated by the frame key.
- **The two-worker script** (`detection_logic_two_workers.py`, module
  `TwoWorkers`).
  - A dwell record is kept while a worker's hand stays in a container.
  - The event is recorded when the hand leaves.
  - It is classified `int(3 * fps)` frames after the exit.
- **The one-worker script** (`detection_logic_one_worker.py`, module
  `OneWorker`).
  - There is one global list of pickups and one global cooldown.
  - The window is 40 frames and only scooper evidence counts.

## Modelling choices

- **Numbers.** Coordinates are exact `real`s. Square roots are removed:
  `sqrt(d²) < r` is stated as `d² < r²` with 300² = 90000 and 150² = 22500.
  IoU is the source's division, guarded by `union > 0`.
  `Geometry.OverlapCrossMultiplied` gives the equivalent form
  `inter > t · union`.
- **Windows.** The windows that depend on fps are `nat` parameters:
  - `grace` is `int(fps * 3)` for the service engine and `int(fps * 2)` for
    the one-worker script;
  - `window` is `int(3 * fps)` for the two-worker script.
- **Dedup keys.** The string keys `"{worker}_{start}"` and `"frame_{id}"` are
  the datatype `ServiceEngine.Key`, so two keys are equal exactly when their
  parts are.
- **State and outcome.** The service engine's state dict becomes
  `ServiceEngine.State`. Its result flags become `Outcome`: `isViolation`,
  `isSafePickup`, and `saved`, which says whether `save_violation` would run.
- **Frame numbers.** The frame number is an argument of `ServiceFrame.Step`. The
  two scripts keep `frame_id` in their state and increment it on every frame.
- **Behaviour of the code worth noting:**
  - Re-identification takes the *first* stored position within 150 units, in
    insertion order, which need not be the nearest one.
  - The service engine's window closes at age > 50, so an event opened at
    frame 10 is classified at frame 61.
  - Processed events are never removed from `person_events` in the service
    engine or the two-worker script. Only the one-worker script cleans them up.
  - The two-worker script has no cooldown: `fps_grace` is never read and
    `last_safe_frame` is written but never consulted.
  - The two-worker script has no dedup key either.

## Model

| member | source | states |
|---|---|---|
| Geometry.SqDist | pizza_monitoring/detection_service/detection_logic.py:88-89 | the squared distance that replaces `np.sqrt` is never negative |
| Geometry.IsInside | pizza_monitoring/detection_service/detection_logic.py:36-41 | true exactly when the box centre lies in the rectangle, bounds inclusive, stated without halving |
| Geometry.Iou | pizza_monitoring/detection_service/detection_logic.py:50-54 | intersection over union, 0 when the union is not positive, always within [0, 1] |
| Geometry.BoxesOverlap | pizza_monitoring/detection_service/detection_logic.py:43-55 | for a threshold ≥ 0 an overlap needs a non-empty intersection and a positive union; no pair overlaps at a threshold ≥ 1 |
| Geometry.IntersectionBounds | pizza_monitoring/detection_service/detection_logic.py:46-53 | the intersection area is non-negative and, when positive, at most either box's area and the union |
| Geometry.OverlapSymmetric | pizza_monitoring/detection_service/detection_logic.py:43-55 | the overlap test gives the same answer with its two boxes swapped |
| Geometry.OverlapCrossMultiplied | pizza_monitoring/detection_service/detection_logic.py:53-55 | with a positive union, overlap holds iff inter > t·union; with none, iff the threshold is negative |
| Geometry.FirstContaining | pizza_monitoring/detection_service/detection_logic.py:199-200 | the first container, in list order, holding the box centre, or None exactly when no container holds it |
| Detections.BoxesOf | pizza_monitoring/detection_service/detection_logic.py:151-164 | the boxes of one label: a box is listed iff some detection with that label has it, and there are no more boxes than detections; order and multiplicity are stated by `Detections.BoxesOfConcat` and `Detections.BoxesOfSingle` |
| Detections.BoxesOfConcat | pizza_monitoring/detection_service/detection_logic.py:151-164 | the boxes of a concatenation of detections are the boxes of the first part followed by those of the second, so each append keeps detection order |
| Detections.BoxesOfSingle | pizza_monitoring/detection_service/detection_logic.py:151-164 | one detection contributes exactly its own box, once, when it carries the label, and nothing otherwise |
| Detections.PersonsOf | pizza_monitoring/detection_service/detection_logic.py:165-166 | a person box with its tracker id is listed iff some person detection has them, and there are no more than detections; order and multiplicity are stated by `Detections.PersonsOfConcat` and `Detections.PersonsOfSingle` |
| Detections.PersonsOfConcat | pizza_monitoring/detection_service/detection_logic.py:165-166 | the persons of a concatenation of detections are those of the first part followed by those of the second, in detection order |
| Detections.PersonsOfSingle | pizza_monitoring/detection_service/detection_logic.py:165-166 | one detection contributes exactly one person box, with its tracker id, when it is a person, and nothing otherwise |
| Identity.Initial | pizza_monitoring/detection_service/detection_logic.py:119-121 | empty maps and `next_worker_id` = 1, which satisfies the resolver invariant |
| Identity.FirstNear | pizza_monitoring/detection_logic_two_workers.py:82-85 | the first stored track in map order that is mapped and strictly within 150 units, or None exactly when there is none |
| Identity.Mint | pizza_monitoring/detection_service/detection_logic.py:65-69 | an unknown track gets `next_worker_id`, which then grows by one and is above every id already given |
| Identity.Rebind | pizza_monitoring/detection_logic_two_workers.py:86-88 | an unknown track takes the matched track's worker id and leaves the counter alone |
| Identity.Refresh | pizza_monitoring/detection_service/detection_logic.py:60-63 | a known track keeps its worker id, the counter is unchanged, and only its position is updated |
| Identity.Resolve | pizza_monitoring/detection_service/detection_logic.py:57-69 | the track ends up mapped to the returned id at the given position; a known track keeps its id; otherwise either a fresh id above all others is minted, or (when re-identifying) the first near worker's id is reused; the invariant is kept and no mapping changes |
| Identity.FirstNearNoneIff | pizza_monitoring/detection_logic_two_workers.py:81-89 | the re-identification scan finds nothing exactly when the position is at least 150 from every stored position |
| Identity.ResolvePersons | pizza_monitoring/detection_service/detection_logic.py:175-183 | after the person loop every tracked person's id is mapped, with the invariant kept and no mapping changed |
| Identity.FarTracksGetIncreasingIds | pizza_monitoring/detection_logic_two_workers.py:90-94 | two new tracks far from everything and from each other get consecutive, distinct, increasing worker ids |
| Identity.NearbyTracksJoinSameWorker | pizza_monitoring/detection_logic_two_workers.py:81-88 | two new tracks near only the same stored worker both receive that worker's id, and the counter does not move |
| Association.NearestUnique | pizza_monitoring/detection_service/detection_logic.py:92-93 | at most one person is the nearest candidate under the strict-improvement rule |
| Association.ScanFrom | pizza_monitoring/detection_service/detection_logic.py:82-97 | the resolver calls made during the scan keep the resolver invariant and every existing mapping |
| Association.ScanFromInv | pizza_monitoring/detection_service/detection_logic.py:82-97 | run to the end, the scan has kept the nearest candidate, ties going to the earlier person, with `min_dist` its distance and `assigned_id` its worker number, or nothing exactly when no tracked person is in reach |
| Association.Associate | pizza_monitoring/detection_service/detection_logic.py:71-99 | None exactly when no tracked person is under 300 away; otherwise the id mapped to the nearest such person, the first in list order among equally near ones |
| Association.AddTo | pizza_monitoring/detection_service/detection_logic.py:192-194 | appends a box to one worker's list, creating the list when missing, with other lists unchanged |
| Association.Attribute | pizza_monitoring/detection_service/detection_logic.py:186-194 | attributing boxes in detection order keeps every worker already listed and never leaves an empty list; the exact contents of each list are stated by `Association.AttributeLists` and `Association.NearBoxesAttributed` |
| Association.AttributeLists | pizza_monitoring/detection_service/detection_logic.py:186-194 | each worker's list after the loop is its old list followed by exactly the boxes assigned to it, in detection order |
| Association.NearBoxesPicked | pizza_monitoring/detection_service/detection_logic.py:186-194 | the loop assigns a box to a worker exactly when a tracked person is within 300 of it, and the box is then among that worker's assigned boxes |
| Association.NearBoxesAttributed | pizza_monitoring/detection_service/detection_logic.py:186-194 | every box with a tracked person within 300 ends up in the list of the worker `assign_hand_to_person` returns for it at that point of the loop |
| Association.OnlyNearBoxesAttributed | pizza_monitoring/detection_service/detection_logic.py:187-190 | every attributed box had a tracked person within 300; boxes without one are dropped (the converse is `Association.NearBoxesAttributed`) |
| ServiceEngine.Initial | pizza_monitoring/detection_service/detection_logic.py:117-128 | no events, no stats, no processed keys, a zero violation count |
| ServiceEngine.FirstInside | pizza_monitoring/detection_service/detection_logic.py:198-200 | the first of a worker's hands, in order, that lies in some container, or None exactly when none does |
| ServiceEngine.OpenFor | pizza_monitoring/detection_service/detection_logic.py:197-216 | opening for one worker: nothing happens while cooling down or with an open event; otherwise exactly one new open event from the first hand inside a container; the worker gains a list once a hand is inside; other workers untouched |
| ServiceEngine.OpenForWellFormed | pizza_monitoring/detection_service/detection_logic.py:201-216 | opening keeps every worker's list holding only its own events with at most one open |
| ServiceEngine.OpenAll | pizza_monitoring/detection_service/detection_logic.py:197-216 | the opening loop only appends, keeps the event map well formed, and leaves unchanged every worker cooling down or with an open event |
| ServiceEngine.OpenAllOpensAtMostOne | pizza_monitoring/detection_service/detection_logic.py:203-216 | each worker gains at most one event per frame, only when not cooling down and with none open, and it starts now from one of its own hands that lies in a container |
| ServiceEngine.OpenForOpensAtMostOne | pizza_monitoring/detection_service/detection_logic.py:198-216 | the same at-most-one fact for a single worker's iteration of the loop |
| ServiceEngine.SumViolationsRemove | pizza_monitoring/detection_service/detection_logic.py:278-279 | the sum of per-worker violations splits off any one worker |
| ServiceEngine.SumViolationsFrame | pizza_monitoring/detection_service/detection_logic.py:278-279 | changing a worker outside the summed set leaves the sum alone |
| ServiceEngine.TotalViolationsUpdate | pizza_monitoring/detection_service/detection_logic.py:278-279 | replacing one worker's stats changes the total by exactly the change in that worker's violations |
| ServiceEngine.KeysOfAdd | pizza_monitoring/detection_service/detection_logic.py:284-293 | recording a new key of worker w adds one to w's recorded keys and nothing to anyone else's |
| ServiceEngine.NoStatsNoKeys | pizza_monitoring/detection_service/detection_logic.py:268-272 | a worker without stats has recorded no key |
| ServiceEngine.RecordKeepsInv | pizza_monitoring/detection_service/detection_logic.py:277-293 | recording one counted key with one counter step keeps counts equal to keys and the total equal to the sum |
| ServiceEngine.TouchKeepsInv | pizza_monitoring/detection_service/detection_logic.py:268-272 | creating a zero stats entry keeps the counting invariant |
| ServiceEngine.Evidence | pizza_monitoring/detection_service/detection_logic.py:236-260 | pizza flag set iff already set or one of the worker's hands overlaps a pizza; scooper flag set iff already set or the worker owns a scooper or, owning none, any scooper overlaps any pizza; nothing else changes |
| ServiceEngine.EvidenceIdempotent | pizza_monitoring/detection_service/detection_logic.py:236-260 | applying the same frame's evidence twice equals applying it once |
| ServiceEngine.Classify | pizza_monitoring/detection_service/detection_logic.py:261-299 | the event becomes processed; with an unrecorded key, a pizza without a scooper adds one violation to the worker and the total, and a pizza with a scooper adds a safe pickup and sets `last_safe_frame` to now; the key is recorded exactly then; no pizza, or a recorded key, counts nothing; the worker gets a stats entry; other workers are unchanged |
| ServiceEngine.EventAfter | pizza_monitoring/detection_service/detection_logic.py:230-299 | what one frame makes of an event: evidence only grows, identity is kept, processed ones stay put, and it is processed iff it was or its age exceeds 50 |
| ServiceEngine.EvaluateEvent | pizza_monitoring/detection_service/detection_logic.py:230-299 | processed events are skipped, young ones gain evidence without counting, due ones are classified; the result is the reference `EventAfter`, and other workers' stats, keys and cooldowns are untouched |
| ServiceEngine.EvaluateList | pizza_monitoring/detection_service/detection_logic.py:230-299 | every event of a list becomes its `EventAfter`, the counting invariant holds, and workers with no event in the list are untouched |
| ServiceEngine.EvaluateAll | pizza_monitoring/detection_service/detection_logic.py:229-299 | the evaluation loop keeps the event map's workers, its well-formedness and the counting invariant, and counters only grow |
| ServiceEngine.EvaluateAllFrame | pizza_monitoring/detection_service/detection_logic.py:229-230 | workers the loop does not visit keep their events |
| ServiceEngine.EvaluateAllRefines | pizza_monitoring/detection_service/detection_logic.py:229-260 | after the loop every event is a refinement of itself: same identity, flags never reset |
| ServiceEngine.EvaluateAllCloses | pizza_monitoring/detection_service/detection_logic.py:229-299 | every visited worker's events become their `EventAfter` for this frame |
| ServiceEngine.AllProcessedNoChange | pizza_monitoring/detection_service/detection_logic.py:231-232 | a list of processed events changes no counter |
| ServiceEngine.EvaluateListCounts | pizza_monitoring/detection_service/detection_logic.py:261-299 | for a well-formed list, the worker's violations grow by one iff its open event is due with a pizza, no scooper and an unrecorded key, and its safe pickups grow by one (with the cooldown set to now) iff due with both |
| ServiceEngine.EvaluateAllCounts | pizza_monitoring/detection_service/detection_logic.py:229-299 | the same per-worker counting fact for the whole loop over all workers |
| ServiceFrame.Step | pizza_monitoring/detection_service/detection_logic.py:141-313 | one `process_frame`: keeps the invariant; state only grows; `is_violation` iff the count grew; `is_safe_pickup` iff some worker's safe-pickup count grew; the frame is saved iff something was flagged and its frame key is new, and the key is recorded exactly then |
| ServiceFrame.FrameKeyKeepsCounts | pizza_monitoring/detection_service/detection_logic.py:307-313 | recording a frame key does not disturb the per-worker key counts |
| ServiceFrame.InitialValid | pizza_monitoring/detection_service/detection_logic.py:117-128 | the initial state satisfies the invariant: ids valid, at most one open event per worker, counts equal keys, total equals the sum |
| ServiceFrame.StepOpensAtMostOne | pizza_monitoring/detection_service/detection_logic.py:196-216 | per frame a worker's list grows by at most one event, only outside its cooldown and with no open event; the new event starts now, is open, holds this frame's evidence, and comes from a detected hand in a container with a tracked person in reach |
| ServiceFrame.StepEvaluatesEvents | pizza_monitoring/detection_service/detection_logic.py:229-260 | every event a worker had before the frame becomes its `EventAfter` |
| ServiceFrame.NewEventCountsNothing | pizza_monitoring/detection_service/detection_logic.py:207-216 | an event opened in this frame is not due, so it changes neither counting condition |
| ServiceFrame.StepCountsWorker | pizza_monitoring/detection_service/detection_logic.py:261-299 | per frame, worker w's violations grow by exactly one iff one of its events is due as a violation with an unrecorded key, its safe pickups likewise, and its cooldown is set to now exactly on a safe pickup |
| ServiceFrame.RedeliveredFrameSavedOnce | pizza_monitoring/detection_service/detection_logic.py:305-313 | a second call with a frame id already saved does not save it again (a broker redelivery gets a new id, so it is not this case) |
| ServiceFrame.Run | pizza_monitoring/detection_service/detector.py:68-89 | threading the state through a stream of frames keeps the invariant and only grows the state |
| ServiceFrame.GrowsTransitive | pizza_monitoring/detection_service/detection_logic.py:371-381 | growth of the state composes across frames |
| ServiceFrame.RunFromInitialValid | pizza_monitoring/detection_service/detector.py:68-89 | every state reachable from the initial one satisfies the invariant |
| TwoWorkers.Initial | pizza_monitoring/detection_logic_two_workers.py:22-47 | frame 0, no dwells, no events, zero count |
| TwoWorkers.InsideWorkers | pizza_monitoring/detection_logic_two_workers.py:173-180 | exactly the workers with some attributed hand inside a container |
| TwoWorkers.Track | pizza_monitoring/detection_logic_two_workers.py:173-192 | a worker inside keeps its dwell if it has one, else starts one now from its first hand inside; everyone else's dwell is unchanged |
| TwoWorkers.Exit | pizza_monitoring/detection_logic_two_workers.py:195-214 | a dwelling worker not inside loses its dwell and gains an event copied from it, ending now, iff it has no open event; other workers are unchanged |
| TwoWorkers.Evidence | pizza_monitoring/detection_logic_two_workers.py:224-239 | (corrected) pizza flag set iff already set or one of the event's own worker's hands overlaps a pizza at IoU > 0.1; scooper flag iff already set or a scooper overlaps a pizza |
| TwoWorkers.EvidenceAsWritten | pizza_monitoring/detection_logic_two_workers.py:224-239 | (as written) the pizza test reads whatever hand list the leftover `worker_id` selects |
| TwoWorkers.StaleHandsMissTouch | pizza_monitoring/detection_logic_two_workers.py:226 | worker 1's hand covers the pizza while the leftover `worker_id` is worker 2, whose only hand is far from it: the touch is missed as written and caught by the corrected evidence |
| TwoWorkers.Classify | pizza_monitoring/detection_logic_two_workers.py:240-272 | processed always; violation iff pizza without scooper (worker and total +1); safe iff both (safe +1, `last_safe_frame` set); no dedup; other workers unchanged |
| TwoWorkers.EventAfter | pizza_monitoring/detection_logic_two_workers.py:219-272 | (corrected) what one frame makes of an event: evidence only grows, identity is kept, and it is processed iff it was or its age since exit exceeds the window |
| TwoWorkers.EvaluateEvent | pizza_monitoring/detection_logic_two_workers.py:220-272 | (corrected) the result is the reference `EventAfter`; nothing counts unless the event is open and due, and then it is classified |
| TwoWorkers.EvaluateList | pizza_monitoring/detection_logic_two_workers.py:220-272 | (corrected) every event of a list becomes its `EventAfter`, and counters only grow, total equal to the sum |
| TwoWorkers.EvaluateAll | pizza_monitoring/detection_logic_two_workers.py:219-272 | (corrected) the loop keeps the workers, the event invariant and the counting invariant |
| TwoWorkers.EvaluateAllAfter | pizza_monitoring/detection_logic_two_workers.py:219-239 | (corrected) every visited worker's events become their `EventAfter`, unvisited workers keep theirs |
| TwoWorkers.Step | pizza_monitoring/detection_logic_two_workers.py:131-298 | one loop iteration advances the frame, keeps the invariant and the id mappings, and counters only grow |
| TwoWorkers.InitialValid | pizza_monitoring/detection_logic_two_workers.py:22-47 | the initial state satisfies the invariant: one dwell per worker at most, flags false, at most one open event, start ≤ end ≤ now |
| TwoWorkers.StepDwell | pizza_monitoring/detection_logic_two_workers.py:173-192 | a worker with a hand inside keeps its dwell unchanged or starts one now; a worker without one has no dwell afterwards |
| TwoWorkers.StepExit | pizza_monitoring/detection_logic_two_workers.py:195-214 | (corrected) per frame a worker gains at most one event, only when it was dwelling, is no longer inside and had none open; the event runs from the dwell's start to now and holds this frame's evidence |
| TwoWorkers.StepEvaluates | pizza_monitoring/detection_logic_two_workers.py:219-239 | (corrected) every event a worker had before the frame becomes its `EventAfter` |
| TwoWorkers.Run | pizza_monitoring/detection_logic_two_workers.py:126-131 | the loop over frames counts them, keeps the invariant, and never lowers the count |
| TwoWorkers.RunFromInitialValid | pizza_monitoring/detection_logic_two_workers.py:126-131 | every state the script reaches satisfies the invariant |
| OneWorker.Initial | pizza_monitoring/detection_logic_one_worker.py:22-36 | frame 0, no pickups, `last_safe_frame` = -999, zero count |
| OneWorker.MatchTrackedHand | pizza_monitoring/detection_logic_one_worker.py:68-72 | the first hand in order with IoU > 0.3 against the event hand, or None exactly when there is none |
| OneWorker.CountHolding | pizza_monitoring/detection_logic_one_worker.py:102-103 | how many containers hold the hand's centre; zero exactly when none does |
| OneWorker.OpenAsWritten | pizza_monitoring/detection_logic_one_worker.py:98-119 | (as written) when the gate is open, one fresh pickup is appended for every container holding the first hand's centre; no other hand is looked at |
| OneWorker.FreshFor | pizza_monitoring/detection_logic_one_worker.py:102-116 | one fresh pickup per container holding the hand |
| OneWorker.OpenCorrected | pizza_monitoring/detection_logic_one_worker.py:98-119 | (corrected) when the gate is open, exactly one fresh pickup from the first hand inside any container, else nothing |
| OneWorker.PickupAfter | pizza_monitoring/detection_logic_one_worker.py:122-162 | processed pickups stay; inside 40 frames the scooper flag becomes old-or-seen; after 40 the pickup is processed with its flag unchanged |
| OneWorker.Evaluate | pizza_monitoring/detection_logic_one_worker.py:122-162 | each pickup becomes its `PickupAfter`; the count grows by the number of due pickups without a scooper; `last_safe_frame` becomes now iff some due pickup had one |
| OneWorker.Unprocessed | pizza_monitoring/detection_logic_one_worker.py:165 | the cleanup keeps only unprocessed pickups and every unprocessed one, and leaves a list with none processed whole and in order |
| OneWorker.UnprocessedConcat | pizza_monitoring/detection_logic_one_worker.py:165 | the cleanup of a concatenation is the cleanup of each part, in order |
| OneWorker.UnprocessedSingle | pizza_monitoring/detection_logic_one_worker.py:165 | one pickup survives the cleanup, once, exactly when it is not processed |
| OneWorker.NewPickupsNotDue | pizza_monitoring/detection_logic_one_worker.py:108-127 | pickups opened in this frame have age 0, so they neither count nor set the cooldown |
| OneWorker.Finish | pizza_monitoring/detection_logic_one_worker.py:122-165 | the evaluation and cleanup after opening: frame +1, the count grows by the due unscooped pickups that were pending, the cooldown is set iff a due one was scooped, only unprocessed pickups remain, and none is dropped while every pickup is inside its window |
| OneWorker.StepAsWritten | pizza_monitoring/detection_logic_one_worker.py:80-165 | (as written) one iteration: frame +1, count grows by the due unscooped pickups, cooldown set iff a due one was scooped, only unprocessed pickups remain, nothing opens when gated |
| OneWorker.StepCorrected | pizza_monitoring/detection_logic_one_worker.py:80-165 | (corrected) the same facts as for the loop as written |
| OneWorker.StepCorrectedKeepsValid | pizza_monitoring/detection_logic_one_worker.py:80-165 | the corrected iteration keeps at most one pending pickup, each started no later than now, so the count grows by at most one per frame |
| OneWorker.AtMostOneAfterOpen | pizza_monitoring/detection_logic_one_worker.py:98-100 | with the corrected loop, the gate stops a second pickup opening while one is pending |
| OneWorker.InitialValid | pizza_monitoring/detection_logic_one_worker.py:22-36 | the initial state has no pending pickup |
| OneWorker.OverlappingContainersOpenTwo | pizza_monitoring/detection_logic_one_worker.py:101-116 | a hand centred at (500, 318), inside containers 0 and 1, opens two pickups as written, breaking the invariant; the corrected loop opens one |
| OneWorker.FirstHandOutsideMissed | pizza_monitoring/detection_logic_one_worker.py:117-119 | a first hand outside every container hides a second hand inside one: no pickup as written, one corrected |
| OneWorker.Run | pizza_monitoring/detection_logic_one_worker.py:75-80 | the corrected loop over frames counts them, keeps the invariant, and never lowers the count |

## Left out

- The detector and tracker (YOLO, ByteTrack), fps probing and video I/O. They are external; detections are input data, and the fps-derived windows are parameters.
- All drawing, video writing, `print`, the `messages` list and timestamp formatting. They have no behavioural contract.
- The database write. Only whether `save_violation` would run is modelled, as `Outcome.saved` with the frame dedup key; the written record is not.
- The message-queue detector, consumer, frame reader, streaming server and their locking. Their point is concurrency and network I/O; a run over a sequence of frames stands in for the detector's single-threaded loop.
- Floating point and `np.sqrt`: exact reals and squared distances are used instead.
- The `KeyError` raised in the two-worker script at line 226 when the leftover `worker_id` has no hands this frame. Exceptions are not modelled. `TwoWorkers.EvidenceAsWritten` takes the hand list that line reads as an explicit argument.
- `match_tracked_hand` is modelled, but the one-worker script never calls it, so it takes part in no step.
- The `labels` and `boxes` lists that `process_frame` returns are left out. They are the detections passed through unchanged.
- ServiceFrame.Step: does not state the full per-worker counting facts itself. Those are in `ServiceFrame.StepCountsWorker`, stated for one worker at a time.
- TwoWorkers.Step: evaluates with the corrected `TwoWorkers.Evidence`, reading the hands of the event's own worker, not line 226 as written. The frame loop does not track which worker `worker_id` was last bound to, so every statement about a whole two-worker frame describes the corrected script.
- TwoWorkers.StepExit: its pizza-flag clause is the corrected evidence of the exit frame, not what line 226 reads there.
- TwoWorkers.StepEvaluates: `EventAfter` here uses the corrected evidence, not the stale `worker_id`'s hands.
- TwoWorkers.EvaluateAllAfter: `EventAfter` here uses the corrected evidence, not the stale `worker_id`'s hands.
- TwoWorkers.EventAfter: gathers the corrected evidence of the event's own worker, not the hands of the stale `worker_id` that line 226 reads.
- TwoWorkers.EvaluateEvent: evaluates with the corrected `TwoWorkers.EventAfter`, not line 226 as written.
- TwoWorkers.EvaluateList: evaluates with the corrected `TwoWorkers.EventAfter`, not line 226 as written.
- TwoWorkers.EvaluateAll: evaluates with the corrected `TwoWorkers.EventAfter`, not line 226 as written.
- TwoWorkers.Step: states monotone counters and the invariant only. The exact dwell, exit and evaluation facts are in `TwoWorkers.StepDwell`, `TwoWorkers.StepExit` and `TwoWorkers.StepEvaluates`, and there is no per-worker counting lemma like the service engine's.

## Findings

| source | as written | input that shows it | evidently intended | confidence | as-written member | corrected member |
|---|---|---|---|---|---|---|
| pizza_monitoring/detection_logic_two_workers.py:226 | the pizza-touch test reads `person_hands[worker_id]`, where `worker_id` is left over from an earlier loop, not the event's worker | worker 1's event is in its window and worker 1's hand `(0,0,10,10)` covers the pizza `(0,0,10,10)`, while `worker_id` was last bound to worker 2, whose only hand is `(100,100,110,110)`: line 226 reads worker 2's hands and the touch is missed | test the hands of `event['worker_id']` | high, not executed | TwoWorkers.StaleHandsMissTouch | TwoWorkers.Evidence |
| pizza_monitoring/detection_logic_one_worker.py:101-116 | one pickup is appended for every container that holds the hand's centre | a hand centred at (500, 318) lies in containers 0 and 1, so two pickups open; later both can count a violation for one pickup | one pickup per entry, from the first container found | medium, not executed | OneWorker.OverlappingContainersOpenTwo | OneWorker.StepCorrectedKeepsValid |
| pizza_monitoring/detection_logic_one_worker.py:117-119 | the break after the first hand always fires, since the gate it re-tests cannot have changed | hands `[(0,0,2,2), (499,279,501,281)]`: the first is outside every container, so the second, inside container 0, is never looked at | stop after the first detection, as the comment there says | high, not executed | OneWorker.FirstHandOutsideMissed | OneWorker.OpenCorrected |
