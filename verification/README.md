# Verified models of E-MARS decision logic

Dafny 4.11 models of ten components of the repository, with proofs of what they promise over every input,
every run or every reachable state. Check everything with `dafny verify dfyconfig.toml`.

| file | models |
|---|---|
| `Costmap.dfy` | `GridCostmapChecker`: the breadth-first costmap search, against shortest paths |
| `Nav2Adapter.dfy` | `OmniNavNav2Adapter`: the waypoint gate as a state machine, rigid transform, goal ids |
| `VisionCache.dfy` | `EpisodeVisionCache`: an LRU whose puts also delete clashing entries |
| `CaptureStream.dfy` | the emitted method `_record_t5_d435_rgb`: durable writes, crashes and resumption |
| `InferenceService.dfy` | `NavigationInferenceService` and `LatestResponseGate`, composed over a lossy channel |
| `Tournament.dfy` | the successive-halving analysis of preregistered candidates |
| `ReplayTimeline.dfy` | stamp alignment, canonical order and accounting of the replay timeline |
| `StopBursts.dfy` | burst compression of STOP candidates |
| `ProcessAudit.dfy` | three-valued process ancestry and the credential audit |
| `CanaryVerdict.dfy` | the engineering canary's verdict and what a PASS says about time |
| `ReplayRecorder.dfy` | the replay recorder against its own validator |
| `Wrappers.dfy`, `Sorting.dfy` | options and results, sequences, orders and a stable sort |

Each stateful class of the source is a class here. Its methods are proved against a step function on a value
that holds the same fields; runs are sequences of events folded over that step function, and the theorems
about runs are lemmas. Loops of the source are loops here, proved against recursive or declarative
specifications.

## Modelling decisions

- Floats are reals. An angle is its cosine and sine, `cos*cos + sin*sin == 1`; distances are compared by their
  squares; a flag tells whether all floats of a pose or waypoint are finite. The transform follows ROS REP 103,
  "Axis Orientation" (x forward, y left).
- Clocks, file contents, process tables, environments and the answers of the backbone adapter are inputs.
  Digest comparisons of the tournament are one boolean per comparison group.
- The service and the cache hold a lock during each operation, so each operation is one step.
- A call of the capture method takes a cut: the durable write after which the process stops or a write raises.
  Controllers follow one another; the source relies on the old one being gone before a new one starts.
- The emitted capture method lies at lines 248-418 of `scripts/build_t4_r3_sensor_runtime_overlay.py`.
- Requires taken over as assumptions: frame ids are not negative and episode ids not empty (what
  `from_mapping` lets through), survivor counts are positive, cached features are not None, and every replay
  event comes from its own source line.
- The backbone's `infer` may fail or answer anything; its `reset_episode`, called when an activation begins, is
  assumed not to raise.

## What turned out not to hold

Each has inputs that show it and the exact condition under which it does hold.

- Goal identifiers join episode, subgoal and sequence with colons. Goals of different episodes can share one,
  and a late report about the one then clears the other (`Nav2Adapter.ForeignReportCanClear`, a run). A report
  ends a goal exactly when sequence ids and the texts before the last colon agree
  (`Nav2Adapter.ReportEndsExactly`); with colon-free subgoal ids that means the same episode, subgoal and
  sequence (`Nav2Adapter.ReportEndsItsGoalExactly`).
- Even those can be given out twice, because resetting an episode forgets its sequence ids: a late report about
  a goal from before a reset can clear a different goal sent after it (`Nav2Adapter.ReissuedGoalCanBeCleared`, a
  run). Without a reset of the episode in between, and with colon-free subgoal ids, no report about an accepted
  goal ever ends a later one (`Nav2Adapter.ReportEndsNoLaterGoal`).
- The response gate can drop an answer for something older. For any output this is possible exactly when an
  earlier call asked for the same or a later frame of its episode (`InferenceService.ShutOutExactly`). For an
  answer of the backbone the culprit is then the safe stop of such a call, or anything from before an activation
  that began since (`InferenceService.AnswerShutOutExactly`); answers of one activation never shut one another
  out (`InferenceService.AnswersNeverShutOut`). Both cases happen, the first even when everything is delivered in
  order (`InferenceService.StopCanShutOut`, `InferenceService.RestartedEpisodeCanBeOvertaken`).
- Gate and service can therefore end at different frames, even in order and after a single call
  (`InferenceService.RefusedOpenerOutrunsService`). From the first call of an activation on they end in step
  exactly when the greatest frame requested for its episode was answered (`InferenceService.InStepExactly`).
- A capture call can end the stream for good. On an untouched disk that is exactly a call that made the
  directory and then refused the frame or was interrupted, on a clean one exactly a call that was interrupted
  while writing (`CaptureStream.CaptureEndsExactly`, `CaptureStream.EndedExactly`).
- Alignment is not idempotent (`ReplayTimeline.AlignmentIsNotIdempotent`). It is exactly when no event that
  stays unstamped has a snapshot or request id that the first pass turned into an anchor
  (`ReplayTimeline.IdempotentExactly`); a second pass only ever adds stamps.
- The recorder's records do not always satisfy its own validator. A record line that was cut short never
  decodes. If the recorder raises after a record is written, before or after counting it, going on can repeat a
  global index or a sequence id
  (`ReplayRecorder.UncountedThenContinuedFails`, `ReplayRecorder.TornThenContinuedFails`). They pass exactly when
  no line was cut, nothing was recorded after an uncounted record, and nothing after a torn step before a reset
  (`ReplayRecorder.RecorderRefinesValidator`).

## Model

| member | source | states |
|---|---|---|
| Costmap.Check | omninav_nav2/adapter.py:207-238 | the loop answers, for all grids and points, exactly what the path-based specification says: error reasons in order, shortest length when connected, no path otherwise |
| Costmap.CellOfExactly | omninav_nav2/adapter.py:192-197 | the cell of a point is the one cell of the grid whose square holds the point on both axes, None iff there is none |
| Costmap.CostsRowByRow | omninav_nav2/adapter.py:199-201 | value k of the data is the cost of column k % width in row k / width |
| Costmap.VerdictExactly | omninav_nav2/adapter.py:203-238 | each answer on the points, the costs under them and the paths between them: off the grid, unknown, lethal, blocked start, connected or not, with cost and length |
| Costmap.Search | omninav_nav2/adapter.py:223-238 | the breadth-first loop ends and returns the exact least number of cells on a 4-connected open path, None iff there is none |
| GridPaths.Distance | omninav_nav2/adapter.py:223-238 | the reference quantity: attained by some path, not undercut by any, None iff unconnected |
| GridPaths.PathMeetsFrontier | omninav_nav2/adapter.py:223-237 | under the search invariant every path from the start is matched at its end or passes through a waiting cell |
| GridPaths.GoalFound | omninav_nav2/adapter.py:235-236 | stopping at discovery is safe: the goal's distance is exactly one more than that of the cell being expanded |
| GridPaths.NoPathLeft | omninav_nav2/adapter.py:238 | an empty queue means that no path exists |
| GridPaths.DistanceSymmetric | omninav_nav2/adapter.py:203-238 | swapping the ends keeps reachability and length |
| GridPaths.DistanceMonotone | omninav_nav2/adapter.py:203-238 | opening cells never loses reachability or lengthens the path |
| GridPaths.DistanceTriangle | omninav_nav2/adapter.py:203-238 | len(a,c) <= len(a,b) + len(b,c) - 1 |
| GridPaths.DistanceBounded | omninav_nav2/adapter.py:203-238 | a reported length never exceeds the number of open cells |
| Costmap.ReachableExactly | omninav_nav2/adapter.py:207-238 | a check is positive iff both points are on the grid and their cells are connected by open cells |
| Costmap.CheckSymmetric | omninav_nav2/adapter.py:207-238 | swapping start and goal keeps verdict and path length |
| Costmap.CheckMonotone | omninav_nav2/adapter.py:203-238 | lower costs, a higher lethal threshold, allowing or uncovering unknown cells, whatever happens to blocked ones, never lose reachability or lengthen the path |
| GoalIds.GoalIdsCollideExactly | omninav_nav2/adapter.py:343 | two identifiers are equal iff the sequence ids are and the texts before the last colon are |
| GoalIds.GoalIdReads | omninav_nav2/adapter.py:343 | an identifier ends in the decimal sequence id, which reads back as that number |
| GoalIds.GoalIdInjective | omninav_nav2/adapter.py:343 | with colon-free subgoal ids an identifier determines episode, subgoal and sequence |
| Nav2Adapter.TransformIsRigid | omninav_nav2/adapter.py:259-270 | the map goal lies at exactly the waypoint's length from the robot |
| Nav2Adapter.ActionHeadToMap | omninav_nav2/adapter.py:62-88 | a waypoint built from the action head lands in the map at the length of the raw head output, whatever the heading |
| Nav2Adapter.TransformIsUndone | omninav_nav2/adapter.py:259-270 | turned back by the robot's yaw the goal's displacement is forward and left, and its yaw the waypoint's heading |
| Nav2Adapter.ActionHeadSetsDirection | omninav_nav2/adapter.py:62-88 | the waypoint lies in the direction of the heading head, straight ahead if that is zero |
| Nav2Adapter.Triangle | omninav_nav2/adapter.py:319-323 | the triangle inequality for the jump distance, on squares |
| Nav2Adapter.SentExactly | omninav_nav2/adapter.py:330-354 | an accepted waypoint is sent iff it is the first goal, changes the subgoal, or follows an arrival or an invalid path |
| Nav2Adapter.UpdateNamesItsReason | omninav_nav2/adapter.py:332-341 | the reason given for a new goal holds of the active goal and the execution state |
| Nav2Adapter.DecidedByFirstFailingTest | omninav_nav2/adapter.py:289-330 | a waypoint is accepted iff it meets all fourteen tests, otherwise the first it fails is reported, and its sequence id is used up iff it meets the first five |
| Nav2Adapter.AcceptedGoalIsSound | omninav_nav2/adapter.py:303-348 | an accepted goal is the unsnapped waypoint: seen from the robot at its forward and left and turned by its heading, within limits, bounds and jump, in a cell connected to the robot's |
| Nav2Adapter.ConsumedIsFinal | omninav_nav2/adapter.py:299-302 | once a waypoint passed the sequence test, even if rejected later, no run without a reset of its episode lets that or a lower id through again |
| Nav2Adapter.AcceptedSequencesIncrease | omninav_nav2/adapter.py:299-302 | between resets accepted ids of an episode strictly increase and their goal identifiers differ |
| Nav2Adapter.ReportEndsExactly | omninav_nav2/adapter.py:378-380 | for any subgoal ids a report ends a goal iff it is terminal, the sequence ids agree and so do the texts before the last colon |
| Nav2Adapter.ForeignReportCanClear | omninav_nav2/adapter.py:378-380 | there is a run from a new adapter in which the report about one sent goal clears the active goal of another episode |
| Nav2Adapter.ReportEndsItsGoalExactly | omninav_nav2/adapter.py:378-380 | with colon-free subgoal ids a terminal report ends a goal iff it names that goal's episode, subgoal and sequence |
| Nav2Adapter.ReportEndsNoLaterGoal | omninav_nav2/adapter.py:299-302 | without a reset of its episode in between, no report about an accepted goal ends a later accepted goal, for colon-free subgoal ids |
| Nav2Adapter.ReissuedGoalCanBeCleared | omninav_nav2/adapter.py:378-385 | there is a run in which a reset lets an identifier be given out again and a report about the first goal clears the second |
| Nav2Adapter.RunsStayCoherent | omninav_nav2/adapter.py:351-385 | in every run the active goal is none or the last sent goal, and the last sent goal's sequence id is recorded |
| Nav2Adapter.ActiveGoalSurvives | omninav_nav2/adapter.py:351-385 | an active goal is lost only to a reset, a terminal report for its own id or a newly sent goal |
| Nav2Adapter.RoutineStretchSendsNothing | omninav_nav2/adapter.py:330-350 | any stretch of waypoints for the driven subgoal without arrival or invalid path sends nothing and keeps the goal |
| Nav2Adapter.EpisodeOfRememberedGoalsIsIgnored | omninav_nav2/adapter.py:318-334 | decisions do not depend on the episode of the active or last sent goal |
| Nav2Adapter.ChainSteps | omninav_nav2/adapter.py:318-324 | in a run without resets consecutively sent goals of one subgoal are within the jump limit |
| Nav2Adapter.DriftIsBounded | omninav_nav2/adapter.py:318-324 | the k-th such goal is within k jump limits of the first, whatever is interleaved |
| Nav2Adapter.OmniNavNav2Adapter.Consider | omninav_nav2/adapter.py:272-356 | the method, with the real search inside, takes exactly the step and decision of the state machine, raised errors of infinite angles included |
| Nav2Adapter.OmniNavNav2Adapter.RecordExecution | omninav_nav2/adapter.py:358-380 | unsupported results raise and change nothing; terminal ones clear exactly the active goal with that id |
| Nav2Adapter.OmniNavNav2Adapter.ResetEpisode | omninav_nav2/adapter.py:382-385 | clears both goals, and the sequence of that episode only |
| VisionCache.RunStaysHealthy | omninav_cosmos/vision_cache.py:35-98 | every run keeps: valid keys only, none twice, no two that clash, at most capacity entries |
| VisionCache.EntriesAreProper | omninav_cosmos/vision_cache.py:76-98 | on the keys themselves, in every run: of the active episode, complete and sized, none twice, and one size and model per view |
| VisionCache.AccessRefusedExactly | omninav_cosmos/vision_cache.py:51-84 | gets and puts fail iff there is no episode, it is another one, or the key is impossible or incomplete, and then change nothing |
| VisionCache.GetExactly | omninav_cosmos/vision_cache.py:51-59 | a get is a hit iff the key is there, and only moves its entry to the end |
| VisionCache.PutExactly | omninav_cosmos/vision_cache.py:61-70 | a put makes its pair the newest, drops what shares its view with another size or model, and nothing else unless the cache is full |
| VisionCache.DisabledAndReset | omninav_cosmos/vision_cache.py:44-66 | a disabled cache stores and finds nothing; a reset clears exactly what it names |
| VisionCache.BeginExactly | omninav_cosmos/vision_cache.py:35-42 | fails iff the id is blank, empties the cache iff the trimmed id is not the active one |
| VisionCache.HitsReturnTheLastPut | omninav_cosmos/vision_cache.py:51-70 | every hit returns the value last put for that key since the last clear, with no clashing put after it |
| VisionCache.RoomyCacheIsTheMap | omninav_cosmos/vision_cache.py:51-70 | all through a run of any length the cache answers like the unbounded map iff that map never holds more than capacity keys |
| VisionCache.StepStaysIncluded | omninav_cosmos/vision_cache.py:51-70 | one event keeps the smaller cache a sub-sequence of the larger and the larger at least as roomy |
| VisionCache.StackInclusion | omninav_cosmos/vision_cache.py:51-98 | on every trace more capacity keeps all entries in the same order with the same values and never turns a hit into a miss |
| VisionCache.HitGuarantee | omninav_cosmos/vision_cache.py:51-70 | a key survives, with its value, while fewer than capacity distinct other keys were put or hit and nothing cleared or clashed |
| VisionCache.EpisodeVisionCache.BeginEpisode | omninav_cosmos/vision_cache.py:35-42 | method against step function, including the stripped id and the error |
| VisionCache.EpisodeVisionCache.Clear | omninav_cosmos/vision_cache.py:44-49 | `reset`: method against step function |
| VisionCache.EpisodeVisionCache.Fetch | omninav_cosmos/vision_cache.py:51-59 | `get`: method against step function |
| VisionCache.EpisodeVisionCache.Store | omninav_cosmos/vision_cache.py:61-70 | `put`: the eviction loop leaves exactly the newest capacity entries |
| VisionCache.EpisodeVisionCache.InvalidateIncompatible | omninav_cosmos/vision_cache.py:86-98 | collecting and deleting one by one leaves exactly the compatible entries in order |
| CaptureStream.StreamIsAlwaysWellFormed | scripts/build_t4_r3_sensor_runtime_overlay.py:274-410 | in every run, crashes anywhere, the stream has indices 0,1,2,..., positive strictly increasing stamps and a matching frame each; only a torn last line may follow |
| CaptureStream.ResumeIsExact | scripts/build_t4_r3_sensor_runtime_overlay.py:284-338 | a fresh controller restores index, first and last stamp of the stream exactly, or refuses |
| CaptureStream.ResumeExactly | scripts/build_t4_r3_sensor_runtime_overlay.py:284-338 | exactly which ends of a stream a fresh controller accepts, whoever left it, and where it goes on |
| CaptureStream.CaptureStoresItsFrame | scripts/build_t4_r3_sensor_runtime_overlay.py:342-410 | in every run a call stores nothing but the frame given to it, as the next frame file and described by its own stamp, digest and length; a completed one does, and is summed up |
| CaptureStream.StepStaysSound | scripts/build_t4_r3_sensor_runtime_overlay.py:257-418 | every action keeps disk and controller in step; an interrupted call that changed the disk leaves it refused |
| CaptureStream.RefusedForever | scripts/build_t4_r3_sensor_runtime_overlay.py:284-335 | a directory that a fresh controller refuses is never written again by any run |
| CaptureStream.InterruptedWriteIsFinal | scripts/build_t4_r3_sensor_runtime_overlay.py:346-410 | an orphan frame, torn line or event without summary is never appended to again |
| CaptureStream.EndedExactly | scripts/build_t4_r3_sensor_runtime_overlay.py:284-335 | in a reachable system no run ever writes again iff the directory is there and a fresh controller refuses it |
| CaptureStream.CaptureEndsExactly | scripts/build_t4_r3_sensor_runtime_overlay.py:257-410 | which calls end the stream: on an untouched disk those that made the directory and then refused the frame or were interrupted, on a clean one those interrupted while writing, and no others |
| CaptureStream.CaptureController.Begin | scripts/build_t4_r3_sensor_runtime_overlay.py:274-338 | creating the directories, or resuming from them, against the specification |
| CaptureStream.CaptureController.Persist | scripts/build_t4_r3_sensor_runtime_overlay.py:346-410 | the three durable writes and the field updates, up to any cut, are those of the specification |
| CaptureStream.FreshCaptureSucceedsExactly | scripts/build_t4_r3_sensor_runtime_overlay.py:257-410 | a fresh controller's uninterrupted capture is recorded iff stamp and shape are good and the disk is untouched or cleanly ends before the stamp |
| CaptureStream.HistoryIsKept | scripts/build_t4_r3_sensor_runtime_overlay.py:346-375 | lines are only added at the end and frame files never rewritten |
| CaptureStream.CaptureController.RecordRgb | scripts/build_t4_r3_sensor_runtime_overlay.py:248-418 | the whole call, up to any cut, takes disk and controller where the specification says |
| InferenceService.StoppedExactly | omninav_cosmos/service.py:51-70 | each reason for a stop, iff on clock, queue, active episode, reset flag and frame |
| InferenceService.OnlyTimelyRequestsCount | omninav_cosmos/service.py:51-58 | a request changes the service or is answered only within the age limit |
| InferenceService.LeavingRetires | omninav_cosmos/service.py:57-75 | the service leaves its episode only on a reset request of another one, and exactly then that episode is queued |
| InferenceService.AnsweredExactly | omninav_cosmos/service.py:37-49 | the backbone's answer passes iff the gate lets it and it is for the requested episode and frame; otherwise a safe stop names why |
| InferenceService.RunQueueSound | omninav_cosmos/service.py:51-75 | over whole runs the queue is the newest limit entries of all retirements, duplicate-free, without the active episode |
| InferenceService.RefusedAsRetiredExactly | omninav_cosmos/service.py:57-58 | a timely request is refused as retired iff its episode is among the newest limit retirements |
| InferenceService.RetiredGetsOnlyStops | omninav_cosmos/service.py:51-70 | from its retirement an episode gets only safe stops until limit distinct other episodes were retired |
| InferenceService.PassedFramesIncrease | omninav_cosmos/service.py:37-49 | within an activation answered frames strictly increase and the newest is remembered |
| InferenceService.AcceptedAreTheMaxima | omninav_cosmos/service.py:99-103 | the gate accepts exactly the strict left-to-right maxima of the matching deliveries |
| InferenceService.FinalFrameIgnoresOrder | omninav_cosmos/service.py:95-103 | reordering and duplication do not change where the gate ends |
| InferenceService.AppliedFramesIncrease | omninav_cosmos/service.py:95-103 | over the whole life of a gate, resets included, the frames applied for an episode strictly increase until it is reset for that episode again |
| InferenceService.StretchIsDelivery | omninav_cosmos/service.py:95-103 | between resets a gate's life is a plain delivery, to which the results on maxima apply |
| InferenceService.EndToEndFreshness | omninav_cosmos/service.py:37-103 | over any channel and any gate resets no frame is applied twice without a reset for its episode in between, and each answers a request for that frame and episode |
| InferenceService.NewestFrameWins | omninav_cosmos/service.py:37-103 | if every output arrives at least once the gate ends at the newest requested frame of the episode |
| InferenceService.ShutOutExactly | omninav_cosmos/service.py:37-103 | some delivery of earlier outputs makes a freshly reset gate drop output k iff an earlier call asked for the same or a later frame of its episode |
| InferenceService.AnswersIncrease | omninav_cosmos/service.py:37-49 | of two answers of one activation the later is for a later frame |
| InferenceService.AnswerShutOutExactly | omninav_cosmos/service.py:37-103 | an answer can be shut out iff such an earlier call was safe-stopped or an activation began since |
| InferenceService.AnswersNeverShutOut | omninav_cosmos/service.py:37-103 | no delivery of earlier answers of the same activation shuts an answer out |
| InferenceService.InOrderAcceptedExactly | omninav_cosmos/service.py:37-103 | with all outputs delivered in order, output k is accepted iff its frame exceeds the gate's and every earlier requested frame of the episode |
| InferenceService.InOrderAnswerDroppedExactly | omninav_cosmos/service.py:37-103 | from the first call of an activation on, an answer delivered in order to a gate reset for its episode is dropped iff an earlier safe stop asked for the same or a later frame |
| InferenceService.ContinuedAnswerDroppedExactly | omninav_cosmos/service.py:37-103 | the same for the rest of an activation and a gate standing where the service stands |
| InferenceService.InStepExactly | omninav_cosmos/service.py:37-103 | after in-order delivery of an activation, its first call included, a gate reset for its episode and the service stand at the same frame iff the greatest frame requested for it was answered |
| InferenceService.ContinuedInStepExactly | omninav_cosmos/service.py:37-103 | the same for the rest of an activation and a gate standing where the service stands |
| InferenceService.RefusedOpenerOutrunsService | omninav_cosmos/service.py:39-43 | a single refused first call leaves the gate beyond the service |
| InferenceService.StopCanShutOut | omninav_cosmos/service.py:39-49 | a run of the service within one activation whose delivered safe stop shuts out the next answer |
| InferenceService.RestartedEpisodeCanBeOvertaken | omninav_cosmos/service.py:66-67 | a run that restarts its episode and whose old answer shuts out the new one |
| InferenceService.NavigationInferenceService.GateRequest | omninav_cosmos/service.py:51-75 | method against step function |
| InferenceService.NavigationInferenceService.ProcessRequest | omninav_cosmos/service.py:37-49 | method against step function, for every behaviour of the adapter |
| InferenceService.LatestResponseGate.Accept | omninav_cosmos/service.py:99-103 | method against step function |
| Tournament.TournamentIsChained | scripts/analyze_t5_lane_a_candidates.py:257-367 | a family is played iff all earlier ones produced winners, against exactly those; the first failure blocks all later ones |
| Tournament.JudgedResultsNameThePredecessors | scripts/analyze_t5_lane_a_candidates.py:183-213 | every result consulted was produced against exactly the expected predecessors |
| Tournament.FamilyFollowsItsRounds | scripts/analyze_t5_lane_a_candidates.py:290-356 | each round is about the survivors of the one before; the family is complete iff all rounds were ranked |
| Tournament.SurvivorsAreNested | scripts/analyze_t5_lane_a_candidates.py:340-353 | survivors are the best ranked of the active candidates |
| Tournament.RoundRanksTheActive | scripts/analyze_t5_lane_a_candidates.py:290-352 | a ranking is a sorted arrangement of exactly the active candidates |
| Tournament.RankingFollowsMetrics | scripts/analyze_t5_lane_a_candidates.py:340-352 | in a ranked round a candidate stands before another as their metrics demand: more successes, fewer stuck, higher SPL, higher nDTW, lower error, lower age, earlier id |
| Tournament.GapsExactly | scripts/analyze_t5_lane_a_candidates.py:102-115 | the keys reported missing of a candidate are those of the prefix without a record |
| Tournament.WinnerHasLeastRankKey | scripts/analyze_t5_lane_a_candidates.py:340-358 | a winner beats, on the metrics, every other candidate active in the last round over all episodes |
| Tournament.RankLeOrders | scripts/analyze_t5_lane_a_candidates.py:150-160 | rank keys order candidates totally and tell different ones apart |
| Tournament.RankLeExactly | scripts/analyze_t5_lane_a_candidates.py:150-160 | the comparison of rank keys is the preference on the metrics |
| Tournament.MetricsMeasureThePrefix | scripts/analyze_t5_lane_a_candidates.py:111-147 | metrics count the successful and stuck records of the prefix, and each mean times the count is the sum |
| Tournament.AggregateExactly | scripts/analyze_t5_lane_a_candidates.py:102-137 | when there are no metrics: duplicate keys, missing keys, a value out of range or an empty prefix |
| Tournament.AnalysisChecksItsInputs | scripts/analyze_t5_lane_a_candidates.py:163-260 | a report is given only for three families of distinct non-empty ids, registered results, code and configurations, and the declared number of episodes |
| Tournament.RoundIgnoresOrder | scripts/analyze_t5_lane_a_candidates.py:290-352 | a round gives the same ranking and survivors, or the same metrics and gaps, for every order of its active candidates |
| Tournament.TournamentIgnoresListing | scripts/analyze_t5_lane_a_candidates.py:216-387 | success, winners, every family's verdict and every ranking do not depend on the order in which candidate ids are listed |
| Tournament.ByKeyIgnoresOrder | scripts/analyze_t5_lane_a_candidates.py:105-110 | the dictionary of records, or its failure, does not depend on the order of the records |
| Tournament.AggregateReadsOnlyThePrefix | scripts/analyze_t5_lane_a_candidates.py:102-147 | fresh records under keys beyond the first count, anywhere among the others, never change an aggregate |
| Tournament.FamilyIgnoresLateRecords | scripts/analyze_t5_lane_a_candidates.py:290-356 | records beyond the prefixes of the rounds a candidate plays, so anything after its elimination, change no decision of its family |
| Tournament.TournamentIgnoresLateRecords | scripts/analyze_t5_lane_a_candidates.py:216-387 | the same for the whole report |
| Tournament.RankedRoundIsFinal | scripts/analyze_t5_lane_a_candidates.py:290-352 | a ranked round stays exactly as it is whatever fresh records and results arrive |
| Tournament.RankedRoundsAreFinal | scripts/analyze_t5_lane_a_candidates.py:290-356 | a family analysed again after more results came in has all its ranked rounds unchanged, and is unchanged if it was complete |
| Tournament.CompleteResultsAreFinal | scripts/analyze_t5_lane_a_candidates.py:216-387 | the same for the whole report: winners, complete families and ranked rounds stay |
| Tournament.AggregateRecords | scripts/analyze_t5_lane_a_candidates.py:102-147 | the loop over records, duplicates raising, computes the specified aggregate |
| Tournament.RunRound | scripts/analyze_t5_lane_a_candidates.py:291-352 | the candidate loop and ranking against the recursive specification, errors included |
| Tournament.RunFamily | scripts/analyze_t5_lane_a_candidates.py:286-366 | the round loop against the recursive specification |
| Tournament.CandidateIndex | scripts/analyze_t5_lane_a_candidates.py:163-180 | succeeds iff there are three families of at least two non-empty ids, no id twice, and returns exactly those ids |
| Tournament.Analyze | scripts/analyze_t5_lane_a_candidates.py:216-387 | the family loop against the recursive specification |
| ReplayTimeline.AlignmentIsSound | scripts/build_t5_unified_replay.py:730-759 | explicit stamps are kept; another event is stamped iff all stamps of its snapshot id agree, or else of its request id, and with that stamp |
| ReplayTimeline.SecondPassKeepsStamps | scripts/build_t5_unified_replay.py:743-759 | aligning again never changes a stamp |
| ReplayTimeline.SecondPassStampsExactly | scripts/build_t5_unified_replay.py:743-759 | a second pass stamps an event iff it has no stamp yet and the first pass made its snapshot or request id an anchor |
| ReplayTimeline.IdempotentExactly | scripts/build_t5_unified_replay.py:743-759 | aligning twice equals aligning once iff there is no such event |
| ReplayTimeline.AlignmentIsNotIdempotent | scripts/build_t5_unified_replay.py:743-759 | a second pass can add a stamp: three events that show it |
| ReplayTimeline.TimelineIsInTime | scripts/build_t5_unified_replay.py:762-769 | the timeline is the aligned events with stamps ascending and unstamped ones last |
| ReplayTimeline.TimelineIsInOrder | scripts/build_t5_unified_replay.py:762-769 | any two events stand by stamp, unstamped last, then ordinal, path and line |
| ReplayTimeline.TimelineIgnoresInputOrder | scripts/build_t5_unified_replay.py:730-769 | the timeline is the same for every order of the loaded events |
| ReplayTimeline.AlignmentAccounting | scripts/build_t5_unified_replay.py:979-983 | explicit, matched and unstamped counts add up to the events |
| ReplayTimeline.RangeAccounting | scripts/build_t5_unified_replay.py:951-983 | per-episode counts and unmatched identities add up to the events |
| ReplayTimeline.RangeEndsCarryTheStamps | scripts/build_t5_unified_replay.py:955-977 | a range spans its events, and its first stamp is that of the event at its start index when any is stamped |
| ReplayTimeline.RangeExactly | scripts/build_t5_unified_replay.py:955-977 | a range counts the events of its episode and generation and gives their least and greatest stamps |
| ReplayTimeline.UniqueAnchor | scripts/build_t5_unified_replay.py:730-740 | the two loops yield exactly the identities with a single stamp |
| ReplayTimeline.Align | scripts/build_t5_unified_replay.py:743-759 | stamping the events in place gives the specified alignment |
| ReplayTimeline.PerEpisodeRanges | scripts/build_t5_unified_replay.py:951-977 | one range per identity that occurs, as specified |
| StopBursts.BurstsAreLossless | scripts/analyze_t5_stop_shadows.py:90-99 | concatenating the bursts gives the keys; each is a run and no two can be joined |
| StopBursts.UniqueIsInOrder | scripts/analyze_t5_stop_shadows.py:85-85 | candidates ascend by episode, generation and sequence id |
| StopBursts.RunCountsUp | scripts/analyze_t5_stop_shadows.py:90-99 | the frames of a burst share episode and generation and count up by one |
| StopBursts.BurstsAreUnique | scripts/analyze_t5_stop_shadows.py:90-99 | there is no other way to cut keys into bursts |
| StopBursts.BurstsAreMaximal | scripts/analyze_t5_stop_shadows.py:85-99 | neither the frame before a burst nor the one after it is a candidate |
| StopBursts.BurstCount | scripts/analyze_t5_stop_shadows.py:148-149 | the number of bursts is the number of candidates whose predecessor is not one |
| StopBursts.UniqueIgnoresOrderAndRepetition | scripts/analyze_t5_stop_shadows.py:85 | order and repetitions of the candidates do not matter |
| StopBursts.TotalsAreConserved | scripts/analyze_t5_stop_shadows.py:101-156 | labels, burst lengths and onset labels add up to the totals |
| StopBursts.LabelledExactly | scripts/analyze_t5_stop_shadows.py:101-112 | true positives are within 2.5 m of the oracle, false positives beyond, unresolved without a distance |
| StopBursts.TemporalBursts | scripts/analyze_t5_stop_shadows.py:85-99 | grouping by generation and cutting each group gives the run-length encoding of the sorted set |
| ProcessAudit.DescendantState | scripts/audit_t5_hf_token_process_scope.py:41-60 | true iff the chain meets the ancestor, false iff it leaves at init or a non-positive pid, unknown iff a row is missing or a pid repeats |
| ProcessAudit.FatesExclude | scripts/audit_t5_hf_token_process_scope.py:41-60 | all four outcomes, the missing row and the cycle included, exclude one another |
| ProcessAudit.AncestryIsMonotone | scripts/audit_t5_hf_token_process_scope.py:41-60 | rows for absent pids never overturn true or false |
| ProcessAudit.Audit | scripts/audit_t5_hf_token_process_scope.py:83-210 | PASS iff the declarative safety condition on matches, unreadable processes and identities holds |
| ProcessAudit.IdentitiesExactly | scripts/audit_t5_hf_token_process_scope.py:83-102 | each process has the row of its last identified entry |
| ProcessAudit.PassMeansAllIdentified | scripts/audit_t5_hf_token_process_scope.py:83-102 | a PASS means that no scanned process hid its identity |
| ProcessAudit.PassMeansConfined | scripts/audit_t5_hf_token_process_scope.py:118-207 | a PASS on the rows: who read out the secret is in the model's group and below it, who denied is so too or provably outside the parent's tree |
| ProcessAudit.PassHoldsOfTheRealTree | scripts/audit_t5_hf_token_process_scope.py:118-207 | a PASS stays true in every process tree that extends the scanned rows |
| CanaryVerdict.StepStagnation | scripts/analyze_t5_engineering_canary.py:267-274 | the scan computes the longest time from a last progress to a later sample |
| CanaryVerdict.Analyze | scripts/analyze_t5_engineering_canary.py:284-404 | PASS iff all required checks hold, stagnation stated for every sample |
| CanaryVerdict.PassMeansNoLongStall | scripts/analyze_t5_engineering_canary.py:267-274 | two samples with equal received-step count are at most 30 s apart |
| CanaryVerdict.PassMeansNoGap | scripts/analyze_t5_engineering_canary.py:307-318 | every instant of the window is followed within 15 s by a sample or the cutoff, and cutoff <= 15*(samples+1) |
| CanaryVerdict.PassMeansFewErrors | scripts/analyze_t5_engineering_canary.py:191-224 | at every sample the errors since ready are at most 12 on sim time and 0 on wall time |
| CanaryVerdict.PassMeansHealthy | scripts/analyze_t5_engineering_canary.py:284-300 | every sample is healthy, on the right timebase and clock and over five episodes; the run was probed and long enough |
| CanaryVerdict.PassMeansTimeMoves | scripts/analyze_t5_engineering_canary.py:355-380 | between any two samples time and publications advance and neither steps nor clock go back |
| CanaryVerdict.PassMeansProgress | scripts/analyze_t5_engineering_canary.py:325-385 | actions grow from a positive number to the cutoff, and steps arrive in at least two intervals |
| CanaryVerdict.PassMeansErrorsAreWarnings | scripts/analyze_t5_engineering_canary.py:186-225 | errors split into warnings and fatal ones counted from ready; none is fatal by the cutoff, at most 12 on sim time |
| CanaryVerdict.PassIsPossible | scripts/analyze_t5_engineering_canary.py:284-404 | a run that meets all checks |
| ReplayRecorder.RecorderRefinesValidator | scripts/capture_internnav_t1_replay.py:97-210 | the file decodes and passes the index, sequence and uniqueness checks iff no line was cut, nothing was recorded after an uncounted step and nothing after a torn one before a reset; without a cut line it has min(maximum, counted steps) records and one per uncounted step |
| ReplayRecorder.UndisturbedRunsPass | scripts/capture_internnav_t1_replay.py:97-210 | every interleaving of steps, failing calls and resets passes, with min(maximum, steps) records |
| ReplayRecorder.UncountedThenContinuedFails | scripts/capture_internnav_t1_replay.py:166-170 | a concrete trace with a failed sync, a reset and a step that the validator rejects |
| ReplayRecorder.TornThenContinuedFails | scripts/capture_internnav_t1_replay.py:166-180 | a concrete trace with a failed state write that the validator rejects |
| ReplayRecorder.RecordsAreTheSteps | scripts/capture_internnav_t1_replay.py:97-170 | the records are the recorded steps in order, each with its own action and the generation made by the resets before it |
| ReplayRecorder.ContiguousIsUnique | scripts/capture_internnav_t1_replay.py:207-210 | uniqueness follows from contiguity |
| ReplayRecorder.Finalize | scripts/capture_internnav_t1_replay.py:185-242 | accepts iff every line decodes and count and contiguity are right, never reports a duplicate, and tallies generations and actions |
| ReplayRecorder.ManifestAddsUp | scripts/capture_internnav_t1_replay.py:229-236 | per-generation and per-action counts both sum to the step count |
| ReplayRecorder.RecordingAgentClient.TakeStep | scripts/capture_internnav_t1_replay.py:97-180 | method against step function, for each place where it can raise while or after writing the record |
| ReplayRecorder.RecordingAgentClient.ResetEpisode | scripts/capture_internnav_t1_replay.py:104-120 | method against step function |

## Left out

- The adapter's JSONL audit log, and its unused setting `goal_equivalence_m`.
- Float rounding and overflow, and NaN or infinite clocks and robot stamps, which the adapter does not test.
- The cache's `keys` view and the `active_episode` properties.
- Symbolic links, a capture root outside the result root, PNG encoding and leftover temporary files of the capture stream; two live capture controllers at once.
- Latency and payload fields of navigation outputs, and threads.
- The tournament's plateau rule, which compares neighbouring winners field by field, and the pending-run list, which repeats the reported gaps.
- Loading, sanitising and hashing of replay sources, wall latencies, artifact counts and the sorted listing of per-episode ranges.
- `_score_method` and the per-generation rows of the STOP analysis: counts of the same labels over the same candidates.
- UID counters and the race counters of the credential audit, and how a secret is searched for in an environment.
- Descriptive fields of the canary report.
- Observation payload checks (hashes, shapes, value ranges) of the replay validator.
- Tournament.TournamentIgnoresListing: takes active lists as multisets and the items and gaps of waiting rounds as sets, because the reports list them in the given order.
- A records line of which only the line feed is lost: the validator takes it like an uncounted one.
