# Broadcast engine: verified model

This project models the deterministic cores of a live broadcast engine (`nbe`)
in Dafny and proves what their documentation promises. Each file is one
component; `dafny verify dfyconfig.toml` checks them all.

**The master limiter** (`LimiterSpec`, `MasterLimiter`). A look-ahead,
stereo-linked, true-peak limiter: a 4x polyphase detector over a doubled history
buffer, an eight-slot ring of true peaks, a sliding minimum kept in a circular
monotonic deque, a box average with a running sum, a release filter and a delay
line. `MasterLimiter.Process` updates those arrays in place and is proved equal,
frame by frame, to a specification over the whole input; the specification is
then shown never to pass the ceiling, to be the delayed input below it, never to
step, and to recover in a bounded number of samples. The filter coefficients, the
look-ahead, the release and the ceiling are arbitrary, and the ceiling may change
between any two frames.

**The clip read-ahead window** (`ReadAhead`, `ClipRing`). A modular slot ring,
refilled by a sequential decoder that may be slow, stop early or be restarted,
while the window's base follows the clock.

**The device audio path** (`SampleRing`, `DeviceMarks`, `SlipControl`,
`Respacing`, `Feeder`, `RenderDue`). The single-producer ring and the sequence
lock are state machines whose steps are single loads and stores, so a run is any
interleaving. The slip controller, the cubic re-spacing and the push log are
proved separately and then together. `RenderDue` is the null sink's catch-up.

**The frame cadence and its accounting** (`MasterClock`, `LineBudget`, `TickCadence`,
`DropAccount`, `WatchdogLadder`, `SourceCadence`). Which master frame an instant
belongs to; that each is drawn at most once and in order; that every drop is
counted once; that a reader of the drop lines finds unexplained exactly the
counts whose line was suppressed; the watchdog beside the degradation ladder; and
show time against source time.

**Graph, protocol and codec** (`RuleCycles`, `ViewTransition`, `SurfacePool`,
`Descriptors`). The refusal of automation cycles, takes that interrupt a mix, the
zero-copy surface pool's free rule, and MPEG-4 descriptors (ISO/IEC 14496-1
section 8.3.3).

`Common`, `RealFacts` and `IntFacts` hold an option type, a pair and the
arithmetic the rest uses.

Where the code and its documentation differ, the model follows the code:

- `cadence_holds`'s documentation gives `[2, 3, 2, 3]` for 12 into 30 frames a
  second; the code gives `[3, 2, 3, 2]` (`SourceCadence.TwelveInThirty`).
- `clip_source_index` narrows its index to 64 bits before it compares it with the
  clip's length, so a source faster than the house can show a finished clip again
  far beyond its end (`SourceCadence.FastSourceWraps`). The exact condition is
  `SourceCadence.ClipPlaysItsSpanUnlessWrapped`.
- The clock's `boundary` and `frame_at` are called inverses. They are adjoint for
  every rate above zero and not at zero, and the round trip is exact up to a
  frame a nanosecond and no further (`MasterClock.AdjointExactlyForTickingRates`,
  `MasterClock.RoundTripExactlyUpToNanosecondFrames`).
- A mid-mix take "starts from the displayed blend" except when nothing of the
  blend is visible yet or it is past the underlay's cap; `ViewTransition.MixTakeContinues`
  gives the condition and `EmptyBlendIsNotContinuous` a case.
- The push log is said to cover all the device can be presenting. It does for blocks of
  two frames or more (`Feeding.Feeder.LogCoversTheRing`), and not for one
  (`OneFrameBlocksOutrunTheLog`).
- A descriptor length of five bytes is printed and not read back, so a wrapped
  config is found exactly when the outermost length is under 2^28.

## Model

| member | source | states |
|---|---|---|
| LimiterSpec.CeilingHolds | crates/nbe-engine/src/limiter.rs:194-274 | For every input and every sequence of ceilings, each frame returned has both channels within the ceiling that was in force when that frame's own true peak was completed. |
| LimiterSpec.DelayedGain | crates/nbe-engine/src/limiter.rs:222-273 | What a frame is scaled by on leaving is in (0, r], where r is what that frame's own true peak requires: gain and delay line up to the sample. |
| LimiterSpec.AttackCoversDelayed | crates/nbe-engine/src/limiter.rs:233-252 | Every one of the averaged minima covers the sample that leaves, so their average is at most what that sample requires. |
| LimiterSpec.Transparent | crates/nbe-engine/src/limiter.rs:22-27 | While no true peak so far has passed its ceiling, frames leave exactly as they came, the latency later, and silence leaves before them. |
| LimiterSpec.UnityGain | crates/nbe-engine/src/limiter.rs:244-260 | If every sample so far required unity, the gain is exactly unity. |
| LimiterSpec.UnityAttack | crates/nbe-engine/src/limiter.rs:233-252 | Once the last 2 x lookahead - 1 required gains are unity, whatever came before, the averaged attack is exactly unity. |
| LimiterSpec.GainRange | crates/nbe-engine/src/limiter.rs:252-260 | The gain stays in (0, 1] and never exceeds the attack gain. |
| LimiterSpec.NeverSteps | crates/nbe-engine/src/limiter.rs:233-260 | From one sample to the next the gain falls by at most 1 / lookahead and rises by at most the release step plus the snap. |
| LimiterSpec.AttackFall | crates/nbe-engine/src/limiter.rs:233-252 | The attack falls by at most 1 / lookahead a sample, whatever the peaks do. |
| LimiterSpec.Recovers | crates/nbe-engine/src/limiter.rs:252-260 | After the last sample that needed limiting, the distance from unity shrinks by the release factor each sample once the window has passed, until the gain is exactly 1. |
| LimiterSpec.RecoveryBound | crates/nbe-engine/src/limiter.rs:252-260 | For every release coefficient, 24 m samples put that distance under the snap once m times the coefficient reaches one. |
| LimiterSpec.RecoversWithin | crates/nbe-engine/src/limiter.rs:233-260 | So the gain is exactly 1 again 2 x lookahead - 2 + 24 m samples after the last sample that needed limiting, and stays so while none does. |
| LimiterSpec.WindowMinIsMin | crates/nbe-engine/src/limiter.rs:277-296 | The sliding minimum is a lower bound of its window and is attained in it. |
| LimiterSpec.RequiredsAreGains | crates/nbe-engine/src/limiter.rs:222-229 | A required gain is in (0, 1], and times its sample's true peak is within the ceiling. |
| LimiterSpec.FirIsTapSum | crates/nbe-engine/src/limiter.rs:207-210 | A phase's filter is the sum of its twelve taps against the newest twelve samples, the newest first. |
| LimiterSpec.LargestMagnitude | crates/nbe-engine/src/limiter.rs:203-224 | Over a sample and all the points, of any phase and either channel, interpolated on both sides of it, the true peak is the largest magnitude, and one of them has it. |
| LimiterSpec.RequiredByLargest | crates/nbe-engine/src/limiter.rs:222-229 | What a sample requires is unity unless some such magnitude passes its ceiling, and then the ceiling over the largest. |
| LimiterSpec.PointsAreHeld | crates/nbe-engine/src/limiter.rs:203-229 | Times what its sample requires, every interpolated point beside a sample, a twelve-tap sum of either sign, is within plus and minus the ceiling. |
| LimiterSpec.NeverOverLimits | crates/nbe-engine/src/limiter.rs:233-260 | The gain is never lower than the least any sample so far has required: nothing is turned down further than some peak needs. |
| MasterLimiting.HeadIsWindowMin | crates/nbe-engine/src/limiter.rs:230-231 | The head of the deque is the true minimum of the required gains in the window. |
| MasterLimiting.MasterLimiter.constructor | crates/nbe-engine/src/limiter.rs:135-162 | The buffers of silence and unity are the state of an empty run. |
| MasterLimiting.MasterLimiter.SetCeiling | crates/nbe-engine/src/limiter.rs:167-170 | A change of ceiling changes nothing else: no buffer, no gain, no part of the run. |
| MasterLimiting.MasterLimiter.Process | crates/nbe-engine/src/limiter.rs:194-274 | One frame in: the run grows by it and the ceiling in force, and the frame out is the specification's output for the whole run. |
| MasterLimiting.MasterLimiter.Meter | crates/nbe-engine/src/limiter.rs:195-231 | The detector and the deque together give the sliding minimum of the required gains, the newest included. |
| MasterLimiting.MasterLimiter.Level | crates/nbe-engine/src/limiter.rs:233-273 | The box, release and delay stages give the specified gain and the frame it belongs to. |
| MasterLimiting.MasterLimiter.Detect | crates/nbe-engine/src/limiter.rs:199-224 | Returns the completed true peak of sample n - 6 and keeps the history and the slots. |
| MasterLimiting.MasterLimiter.Remember | crates/nbe-engine/src/limiter.rs:199-202 | A channel's history still holds its last twelve samples, each in two places. |
| MasterLimiting.MasterLimiter.Convolve | crates/nbe-engine/src/limiter.rs:207-210 | One phase's filter over the newest twelve samples. |
| MasterLimiting.MasterLimiter.Interpolate | crates/nbe-engine/src/limiter.rs:203-213 | The largest magnitude over a channel's four phases. |
| MasterLimiting.MasterLimiter.CountPeaks | crates/nbe-engine/src/limiter.rs:215-224 | The interpolated peak counts toward both its neighbours, and the older neighbour's true peak is then complete. |
| MasterLimiting.MasterLimiter.PushMin | crates/nbe-engine/src/limiter.rs:277-296 | The circular deque goes on holding exactly the suffix minima of the window, now one sample later. |
| MasterLimiting.MasterLimiter.PopDominated | crates/nbe-engine/src/limiter.rs:279-286 | Every sample an entry popped from the back covered, the value waiting to join covers. |
| MasterLimiting.MasterLimiter.Append | crates/nbe-engine/src/limiter.rs:287-290 | The new sample joins without overrunning the arrays, and covers what the popped entries did. |
| MasterLimiting.MasterLimiter.PopExpired | crates/nbe-engine/src/limiter.rs:291-295 | What left the window leaves the deque, and nothing still in it is uncovered. |
| MasterLimiting.MasterLimiter.Average | crates/nbe-engine/src/limiter.rs:233-252 | The box slides by one minimum and returns its exact mean; the reset at unity and the re-derived sum change nothing. |
| MasterLimiting.MasterLimiter.SumRing | crates/nbe-engine/src/limiter.rs:247-250 | The re-derived sum is the ring's. |
| MasterLimiting.MasterLimiter.Delay | crates/nbe-engine/src/limiter.rs:262-267 | Returns the frame exactly `latency` frames old. |
| ReadingAhead.ReadAhead.constructor | crates/nbe-engine/src/read_ahead.rs:48-97 | A new worker has delivered nothing, and will deliver `start` next. |
| ReadingAhead.ReadAhead.Step | crates/nbe-engine/src/read_ahead.rs:60-88 | A worker's step only appends to the channel, in order, at most two deep, whether or not its decoder stops. |
| ReadingAhead.ReadAhead.RunWorker | crates/nbe-engine/src/read_ahead.rs:52-88 | So does any number of steps, at any pace. |
| ReadingAhead.ReadAhead.Poll | crates/nbe-engine/src/read_ahead.rs:106-121 | Frames arrive in order, each one past the last and below the end; done exactly when the worker has returned and its channel is empty. |
| ClipWindow.Window.MissingFrom | crates/nbe-engine/src/render.rs:129-131 | The first frame not resident, with every frame before it resident; none exactly when all are. |
| ClipWindow.Window.HighestBelow | crates/nbe-engine/src/render.rs:143-149 | The highest frame the slots hold below the one due. |
| ClipWindow.UploadEvictsNothingNeeded | crates/nbe-engine/src/render.rs:666-694 | Uploading the first missing frame evicts no frame the window must hold; if it evicts anything, the frame at the base is resident. |
| ClipWindow.UploadCounts | crates/nbe-engine/src/render.rs:692-694 | It leaves exactly one frame fewer missing. |
| ClipWindow.HoldIsResident | crates/nbe-engine/src/render.rs:137-150 | The hold for a missing frame is below it and is itself resident (or frame 0). |
| ClipWindow.HoldIsLatest | crates/nbe-engine/src/render.rs:137-150 | The hold is what was shown last, while that is resident and earlier than the frame due, and otherwise no resident frame before the due one is later than it. |
| ClipWindow.GapFollowsClock | crates/nbe-engine/src/render.rs:635-656 | With the worker standing at `at` and the window filled just to it, the first missing frame after the base moves is the later of the two. |
| ClipWindow.ClipRing.constructor | crates/nbe-engine/src/render.rs:475-494 | A new window: its number of slots, every one empty, its base at the head's end, no worker and nothing shown. |
| ClipWindow.UploadInWindow | crates/nbe-engine/src/render.rs:111-131 | Within the window no two frames share a slot: an upload there makes its frame resident and changes no other. |
| ClipWindow.ClipRing.Prime | crates/nbe-engine/src/render.rs:495-524 | Of the window's frames exactly those decoded at load become resident. |
| ClipWindow.ClipRing.Receive | crates/nbe-engine/src/render.rs:666-695 | A delivered frame is skipped, kept for later or uploaded; an upload is always of the first missing frame and leaves exactly one fewer missing; while one is missing, a frame that can be staged is never kept. |
| ClipWindow.ClipRing.MoveBase | crates/nbe-engine/src/render.rs:635-638 | The base is the frame drawn or the head's end, the slots are untouched, and a kept frame is forgotten exactly when it falls below. |
| ClipWindow.ClipRing.Reposition | crates/nbe-engine/src/render.rs:643-656 | A live worker at or below the first missing frame, and at most a window short of it, is kept; one past it, or further short, is replaced by one starting there; with none, one starts unless the last stalled there; nothing else changes anything. |
| ClipWindow.ClipRing.Next | crates/nbe-engine/src/render.rs:658-701 | The next frame is the one kept or the worker's next in order, and there is one whenever either has it; a worker is let go exactly when it is over and drained, recording the first missing frame, and one that never failed is then at the clip's end. |
| ClipWindow.ClipRing.TakeOne | crates/nbe-engine/src/render.rs:657-702 | One turn of the refill: a frame at hand brings the window nearer full (fewer missing, or the decoder further on), and nothing takes it further from full. |
| ClipWindow.ClipRing.Refill | crates/nbe-engine/src/render.rs:657-703 | Within the budget, and wherever staging first refuses: no frame the window must hold leaves it, what left did so with the base resident, and with a frame at hand, one missing, budget and staging, the window ends nearer full. |
| ClipWindow.ClipRing.Aim | crates/nbe-engine/src/render.rs:635-656 | Base and worker set; with the window where it was, a worker that had not passed the first missing frame stands where it did or further on. |
| ClipWindow.ClipRing.Pump | crates/nbe-engine/src/render.rs:632-703 | A whole turn, by the numbers: which worker runs on and which is replaced as the base moves, by where it stands and where the first missing frame then is; one in step runs on while the base is within a window of it. While the window lacks a frame there is a worker short of it or a recorded stall at it; nothing needed leaves; and a decoder that never fails is let go only over a full window. |
| ClipWindow.ClipRing.FillTurn | crates/nbe-engine/src/render.rs:632-703 | With the decoder decoding one frame more when none is at hand, each pumped turn decreases (frames missing, decoder's distance to the end, frames to decode). |
| ClipWindow.ClipRing.Fill | crates/nbe-engine/src/render.rs:632-703 | So, pumped again and again, the window fills, unless it began with no worker and a stall at its first missing frame. |
| ClipWindow.ClipRing.Draw | crates/nbe-engine/src/render.rs:1216-1228 | The due frame when resident; otherwise the hold and one miss counted. |
| ClipWindow.ClipRing.Present | crates/nbe-engine/src/render.rs:1199-1233 | One View frame, from any state: never past the clock's frame; the due frame whenever it is resident, and one miss counted otherwise; never before what was shown last, while that is held and not past the frame due. |
| ClipWindow.ClipRing.Play | crates/nbe-engine/src/render.rs:1192-1233 | Over any play, first or repeated, at whatever pace the decoder and the uploads run and however the budget varies, presented time never runs backwards nor ahead of the clock; and as the due frame advances one worker serves the whole play, for as long as it stands within a window of the clock. |
| RuleCycles.Successors | crates/nbe-core/src/automation_effects.rs:140-146 | Exactly the rules a rule's action can set off, each with its reason. |
| RuleCycles.EdgeIsEffect | crates/nbe-core/src/automation_effects.rs:78-125 | An edge exists exactly when the command has the effect the trigger listens for: the named field changed, an item put on air, or the deferred effect of the trigger's own name; two differing items rule it out; keys, wall time and headlines are never raised. |
| RuleCycles.ReasonNamesTheCommand | crates/nbe-core/src/automation_effects.rs:78-125 | Every reason begins by quoting the command. |
| RuleCycles.CycleIsClosedWalk | crates/nbe-core/src/automation_effects.rs:135-138 | A reported cycle is a closed walk of the relation. |
| RuleCycles.FinishedIsAcyclic | crates/nbe-core/src/automation_effects.rs:172-173 | When every rule is done, no walk of the relation closes, however long and however often it repeats rules. |
| RuleCycles.TrailCloses | crates/nbe-core/src/automation_effects.rs:159-162 | The stack from the rule found again is a simple cycle. |
| RuleCycles.Search.Follow | crates/nbe-core/src/automation_effects.rs:157-171 | Following an edge finds a simple cycle or leaves its target done and the stack as it was. |
| RuleCycles.Search.Visit | crates/nbe-core/src/automation_effects.rs:150-174 | A visit finds a simple cycle, or finishes its rule with every edge leading to one finished before; it ends because fewer rules are left unvisited. |
| RuleCycles.FindCycle | crates/nbe-core/src/automation_effects.rs:138-190 | `None` exactly when no closed walk exists; otherwise distinct rules, each naming the reason it sets off the next, the last the first. |
| SampleRing.StepKeeps | crates/nbe-engine/src/audio_ring.rs:65-110 | Every load and store of either end keeps: unpopped samples in their cells, whole frames, no more waiting than the capacity. |
| SampleRing.FifoUnderAnyInterleaving | crates/nbe-engine/src/audio_ring.rs:38-110 | Under any interleaving what was popped is a prefix of what was pushed, in whole frames, with written - read within capacity; that a pop takes what waits is PopTakesWhatWaits. |
| SampleRing.StepRefinesFifo | crates/nbe-engine/src/audio_ring.rs:65-110 | Each step leaves the queue alone, appends a pushed prefix whole, or removes a popped prefix from its front; how much each moves is PushTakesWhatFits and PopTakesWhatWaits. |
| SampleRing.PushTakesWhatFits | crates/nbe-engine/src/audio_ring.rs:62-77 | A push is short only of room or of a whole frame. |
| SampleRing.PopTakesWhatWaits | crates/nbe-engine/src/audio_ring.rs:97-110 | A pop is short only of samples waiting or of room for a whole frame. |
| SampleRing.CallbackTakesTheFront | crates/nbe-engine/src/audio_ring.rs:97-110 | A callback run through, whatever the producer does meanwhile, takes exactly the front of the queue it counted, as much as fits it, and nothing else. |
| SampleRing.CallbackGoesOn | crates/nbe-engine/src/audio_ring.rs:97-110 | It is never stuck: short of its count it loads one sample more, and at its count it releases. |
| SampleRing.PushAppends | crates/nbe-engine/src/audio_ring.rs:65-77 | A push run through, whatever the callback does meanwhile, publishes the samples it found room for, in order, behind all published before. |
| SampleRing.QueueOnlyShrinks | crates/nbe-engine/src/audio_ring.rs:80-84 | Between a reading of the fill and the next publication, the device can only make room. |
| SampleRing.FillLoopNeverPushesShort | crates/nbe-engine/src/audio_driver.rs:430-462 | Whatever the device does between the fill check and the push, a block pushed under the target, even one lengthened by a slip, goes in whole. |
| DeviceMarks.StepKeeps | crates/nbe-engine/src/audio_clock.rs:112-136 | Every atomic step keeps the count and the cells consistent, and a reader whose count has not moved holds one mark's parts. |
| DeviceMarks.AnswerIsOneCallbacksMark | crates/nbe-engine/src/audio_clock.rs:112-136 | Under any interleaving an answer is one callback's frame with that callback's instant, no older than the latest mark when the read began; none only before the first. |
| DeviceMarks.UndisturbedReadAnswers | crates/nbe-engine/src/audio_clock.rs:122-134 | After any interleaving, a read that no callback enters answers in four steps, with the latest mark, or with none before the first. |
| DeviceMarks.CallbackCompletesItsMark | crates/nbe-engine/src/audio_clock.rs:112-120 | After any interleaving, a callback's four steps complete its mark. |
| DeviceMarks.ReadBeganAfter | crates/nbe-engine/src/audio_clock.rs:122-134 | However often the read retries, the count it settles on is no older than its beginning. |
| SlipControl.AnchorIsNear | crates/nbe-engine/src/audio_clock.rs:335-344 | Anchoring leaves at most half a sample of skew. |
| SlipControl.PlanIsWithinRealign | crates/nbe-engine/src/audio_clock.rs:330-370 | Whatever the clock and the device do, a planned block's skew is within the realign limit, and its length accounts for the slips counted. |
| SlipControl.FollowsOrAnchors | crates/nbe-engine/src/audio_clock.rs:336-349 | A block goes on where the last one ended unless the clock has started since or it would be heard more than 4 ms from its time; then it is anchored afresh and never slips, and in the latter case alone a realign is counted. |
| SlipControl.HeardFrom | crates/nbe-engine/src/audio_clock.rs:330-334 | A block is heard a sample period after the mark for each ring frame still ahead of it, or before any mark a sample period from now for each frame of the lead. |
| SlipControl.StepMovesSkew | crates/nbe-engine/src/audio_clock.rs:343-370 | One block moves the skew by exactly its slip and the device's drift. |
| SlipControl.StaysWithin | crates/nbe-engine/src/audio_clock.rs:343-370 | Inside threshold + d the skew stays so for ever, for any drift under d < one sample a block: no realign, contiguous base samples. |
| SlipControl.StartHoldsSkew | crates/nbe-engine/src/audio_clock.rs:330-370 | So it does from the moment the clock starts. |
| SlipControl.SlipShrinks | crates/nbe-engine/src/audio_clock.rs:350-358 | One slip takes at least a sample less the drift off the skew, and does not overshoot it. |
| SlipControl.SkewReturns | crates/nbe-engine/src/audio_clock.rs:343-370 | From any skew within the realign limit it comes inside the threshold within a stated number of blocks, with no realign or gap on the way. |
| Respacing.Respace | crates/nbe-engine/src/audio_clock.rs:411-458 | Fills exactly the plan's frames, each with the specified point, and nothing past them; what those points are of a signal is QuadraticIsKept and NoKink. |
| Respacing.EndsAreExact | crates/nbe-engine/src/audio_clock.rs:407-409 | However a block is stretched, its outermost frames come out unaltered, so it meets its neighbours. |
| Respacing.CopyIsTheCubic | crates/nbe-engine/src/audio_clock.rs:414-417 | For equal lengths every sample is copied, and interpolating would have given the same. |
| Respacing.AffineIsKept | crates/nbe-engine/src/audio_clock.rs:418-457 | For a signal affine in the master sample, output frame j carries its value at exactly the master sample j lies at. |
| Respacing.QuadraticIsKept | crates/nbe-engine/src/audio_clock.rs:418-457 | For a signal quadratic in the master sample every output frame carries its value at exactly the place it lies at, but between the last two input frames, where the straight continuation past the end adds exactly bend * t^2 * (1 - t). |
| Respacing.NoKink | crates/nbe-engine/src/audio_clock.rs:428-457 | Around every input frame, output frames on either side lie, to second order in their distance, on one line through it with half the difference of its neighbours for slope: a stretched block has no corner. |
| Respacing.CubicIsHermite | crates/nbe-engine/src/audio_clock.rs:450-455 | The cubic is the Hermite curve through its two inner points whose slope at each is half the difference of that point's neighbours. |
| Respacing.CubicReversed | crates/nbe-engine/src/audio_clock.rs:450-455 | Read backwards it is the same curve. |
| Respacing.PlacesAreEven | crates/nbe-engine/src/audio_clock.rs:441-447 | Output frames lie evenly over the block: j of n_out - 1 steps is j (n_in - 1) / (n_out - 1) input frames. |
| Respacing.PlaceSplits | crates/nbe-engine/src/audio_clock.rs:231-237 | The log's place for a frame and the interpolation's whole and fractional parts are the same number. |
| Feeding.PushLog.Push | crates/nbe-engine/src/audio_clock.rs:214-217 | The circular log holds the last 32 pushes. |
| Feeding.PushLog.LogAnswers | crates/nbe-engine/src/audio_clock.rs:222-239 | When one of the last 32 pushes, rendered against a running clock, carries a frame, that push alone decides the answer. |
| Feeding.PushLog.LogIsSilent | crates/nbe-engine/src/audio_clock.rs:222-239 | When none does, there is no answer. |
| Feeding.Feeder.constructor | crates/nbe-engine/src/audio_clock.rs:284-298 | A new feeder is unanchored, with an empty log and nothing pushed. |
| Feeding.Feeder.PlanBlock | crates/nbe-engine/src/audio_clock.rs:308-371 | Updates cursor, anchor and counters, and returns the plan, as the slip controller's specification says of the instant the block will be heard, which FeedBlock states; the plan fits the output buffer. |
| Feeding.Feeder.Emit | crates/nbe-engine/src/audio_clock.rs:376-393 | Returns the re-spaced block, logs it at the ring frame it takes, and remembers its last frame. |
| Feeding.Feeder.FeedBlock | crates/nbe-engine/src/audio_driver.rs:430-462 | One turn of the fill loop. Heard after every ring frame still ahead of it past the mark (or after the lead, before any mark), the skew read back for a block's opening frame is the skew it was planned with, that frame is heard within 4 ms of the instant its master sample is due, and, with the slip enabled, the block slips exactly when those are over half a millisecond apart. |
| Feeding.Feeder.PresentedIsPlanned | crates/nbe-engine/src/audio_clock.rs:398-401 | For as long as the log reaches back to it, the skew read back for a block's first frame, heard at any instant, is the planner's for that instant, the block's epoch and its base sample. |
| Feeding.Feeder.NamedIsPlayed | crates/nbe-engine/src/audio_clock.rs:219-239 | For any stretch of blocks rendering one signal without a gap from an unslipped one, whatever was pushed before (stopped, or before a realign) or after it: whatever master sample the log names for a frame of the stretch is the one whose sound is on it. |
| Feeding.Feeder.LogCoversTheRing | crates/nbe-engine/src/audio_clock.rs:194-202 | Every frame the eight-block ring can still hold was carried by one of the last 32 pushes, whatever slipped, so the log answers for it exactly when that push was rendered against a running clock. |
| Feeding.OneFrameBlocksOutrunTheLog | crates/nbe-engine/src/audio_clock.rs:194-202 | Blocks of two frames or more are needed: 32 one-frame blocks, each a sample dropped, push nothing and lose a frame the ring holds. |
| Feeding.StretchPlays | crates/nbe-engine/src/audio_clock.rs:376-393 | The frames of a stretch inside any run carry its signal where their own records say. |
| Feeding.RecentBlocksFill | crates/nbe-engine/src/audio_clock.rs:194-202 | A block older than the last 32 lies wholly further back than the ring reaches. |
| Feeding.LogTellsWhatPlays | crates/nbe-engine/src/audio_clock.rs:376-393 | For a signal affine in the master sample over contiguous blocks, the sample on every ring frame is the signal at the master sample its record gives. |
| Feeding.RecordsInOrder | crates/nbe-engine/src/audio_clock.rs:385-391 | A run's records cover disjoint ring frames, in order. |
| RenderDue.DueCountsDeadlinesBehind | crates/nbe-engine/src/audio_driver.rs:942-950 | The blocks due are the one at the deadline and one for each later deadline already behind now, no more. |
| RenderDue.NullSink.RenderDueBlocks | crates/nbe-engine/src/audio_driver.rs:912-940 | One wake: each overdue block rendered for its own deadline, silence past the cap, one underrun if late, one line if capped. |
| RenderDue.NullSink.OnWake | crates/nbe-engine/src/audio_driver.rs:879-892 | After every wake of the loop the schedule is in phase with its start, each rendered block is its own deadline's, and underruns count the late wakes. |
| RenderDue.NullSink.RenderBlocks | crates/nbe-engine/src/audio_driver.rs:921-924 | The overdue blocks, oldest first, each rendered for its own deadline. |
| RenderDue.WakeKeepsPhase | crates/nbe-engine/src/audio_driver.rs:912-940 | A wake keeps every block on its own deadline. |
| RenderDue.PhaseIsKept | crates/nbe-engine/src/audio_driver.rs:897-911 | Over any sequence of wakes, k blocks given leave the next deadline exactly k blocks from the start, and each rendered block was rendered for its own deadline. |
| RenderDue.OneUnderrunPerLateWake | crates/nbe-engine/src/audio_driver.rs:925-927 | Underruns count the wakes more than a block late, once each. |
| RenderDue.RenderWorkIsBounded | crates/nbe-engine/src/audio_driver.rs:98-110 | Of a wake's blocks exactly those up to thirty past the first are rendered; the rest are silence. |
| RenderDue.SilenceIsNamed | crates/nbe-engine/src/audio_driver.rs:925-940 | A wake that gives silence writes one line, with how long the silence is and that thirty blocks were caught up; any other writes none. |
| RenderDue.WakeCatchesUp | crates/nbe-engine/src/audio_driver.rs:912-950 | A wake leaves the schedule at or past now exactly when the blocks due fit 32 bits, and then less than a block past it or one block on. |
| RenderDue.TapsCarryElapsedTime | crates/nbe-engine/src/audio_driver.rs:897-911 | The blocks given to the taps reach the wake's instant and pass it by at most one block: no audio time is lost. |
| MasterClock.ReachedFromBoundary | crates/nbe-engine/src/clock.rs:63-87 | The clock has reached frame f exactly from f's boundary on, for every ticking rate. |
| MasterClock.AdjointExactlyForTickingRates | crates/nbe-engine/src/clock.rs:63-87 | The two are adjoint if and only if the rate is above zero. |
| MasterClock.NamesFrameFromItsBoundary | crates/nbe-engine/src/clock.rs:57-87 | For every rate from 1 to 10^9: frame_at(boundary(f)) is f, and one nanosecond earlier it is f - 1. |
| MasterClock.BoundariesRise | crates/nbe-engine/src/clock.rs:63-67 | At those rates boundaries are at least a nanosecond apart. |
| MasterClock.RoundTripExactlyUpToNanosecondFrames | crates/nbe-engine/src/clock.rs:63-87 | The round trip holds for every frame if and only if the rate is in that range. |
| MasterClock.ASecondIsRateFrames | crates/nbe-engine/src/clock.rs:63-87 | Every second of elapsed time begins exactly `rate` frames, by boundary and by reading. |
| MasterClock.ClockReaches | crates/nbe-engine/src/clock.rs:57-87 | A running clock, whatever its epoch, reads frame f or a later one exactly from f's boundary on; before its epoch it reads frame 0. |
| MasterClock.ClockNamesFrame | crates/nbe-engine/src/clock.rs:57-87 | Asked at a frame's own boundary it names that frame, and a nanosecond before it the one before. |
| MasterClock.MasterClock.Start | crates/nbe-engine/src/clock.rs:37-42 | Starting a stopped clock sets its epoch; a running one keeps its own. |
| MasterClock.MasterClock.Stop | crates/nbe-engine/src/clock.rs:44-47 | A stopped clock has no epoch. |
| DropAccount.Enter | packages/control-plane/src/drop-account.ts:78 | One line's counts, exactly, are entered over whatever explained them before. |
| DropAccount.ReadLines | packages/control-plane/src/drop-account.ts:67-79 | Each count maps to the last readable line that covers it and whether that line ties it; no other count maps to anything. |
| DropAccount.PlaceAccounts | packages/control-plane/src/drop-account.ts:81-89 | One more count is placed in exactly the list its explanation calls for, and its line listed once. |
| DropAccount.AccountDrops | packages/control-plane/src/drop-account.ts:61-91 | Every count of (before, after] is in exactly one of tied, untied and unexplained, in order, and in the right one; the lines are those that explain some of them, each once. |
| DropAccount.TiesByTheNumbers | packages/control-plane/src/drop-account.ts:68-78 | A line ties its counts exactly when it carries both figures, the wake was late by the submit's lateness or by as long as the skipped frames last, and the preceding tick took no longer than a frame. |
| DropAccount.CoversByTheNumbers | packages/control-plane/src/drop-account.ts:68-79 | A line covers the counts up to its total, one for a late submit and else as many as it skipped, provided both are whole numbers. |
| DropAccount.LastLineExplains | packages/control-plane/src/drop-account.ts:74-79 | Of the lines that cover a count the last explains it. |
| DropAccount.UncoveredIsUnexplained | packages/control-plane/src/drop-account.ts:82-84 | A count that no line covers is unexplained. |
| LineBudgets.LineBudget.Take | crates/nbe-engine/src/tick.rs:117-137 | A line passes exactly when the second is over or fewer than five have passed in it; the new second and counts are stated, and every line asked for is let through, reported later as withheld, or still waiting to be. |
| LineBudgets.AtMostFivePerWindow | crates/nbe-engine/src/tick.rs:106-137 | Whenever lines are asked for, at most five pass in any one of the budget's seconds, and none in one already over. |
| LineBudgets.WithheldExactlyAfterFive | crates/nbe-engine/src/tick.rs:117-137 | A line is withheld if and only if the second is not over and five have passed in it. |
| LineBudgets.WindowsRise | crates/nbe-engine/src/tick.rs:120-127 | One of the budget's seconds begins at least a second after the one before. |
| TickCadence.ExplainedByOwnLine | crates/nbe-engine/src/tick.rs:285-303 | A count is explained by its own event's line exactly when that line was let through, and by no other. |
| TickCadence.AccountAgreesWithLog | packages/control-plane/src/drop-account.ts:61-91 | Read against the lines the engine wrote, the unexplained counts are exactly those whose line was withheld, and every other is placed by its own line. |
| TickCadence.Cadence.CountDrops | crates/nbe-engine/src/tick.rs:238-260 | The counter, the event, the line and the budget move together: the line is written exactly when its budget has room. |
| TickCadence.Cadence.Tick | crates/nbe-engine/src/tick.rs:194-266 | A tick's whole effect: a repeat counts once, a gap counts each frame passed over as a skip and as a drop and asks for one line, and nothing else counts. |
| TickCadence.TicksConserve | crates/nbe-engine/src/tick.rs:194-266 | Over any ticks whose frames do not fall: every tick on a frame after its first is a repeat, every frame up to the last is ticked or skipped, and each skip is a drop. |
| TickCadence.CountedKeeps | crates/nbe-engine/src/tick.rs:238-260 | Drop events follow one another without gap or overlap, each with the line that names its counts, and the log is the lines written. |
| TickCadence.LaterFrameHolds | crates/nbe-engine/src/tick.rs:223-261 | Drawing a later frame of a run and passing over those between keeps the run's account. |
| TickCadence.GrownRunHolds | crates/nbe-engine/src/tick.rs:503-568 | So does any reading: the run goes on, begins afresh on a new epoch, or stops. |
| TickCadence.RunTotals | crates/nbe-engine/src/tick.rs:223-261 | Within a run: drawn + skipped = last - first + 1, and dropped = skipped + late-submitted, counted as sets of frames. |
| TickCadence.WakeReadsALaterFrame | crates/nbe-engine/src/tick.rs:516-537 | Woken at or after the instant it meant to, a turn inside a run reads a frame past the one drawn before. |
| TickCadence.GapIsBoundariesPassed | crates/nbe-engine/src/tick.rs:516-556 | A turn passes over n frames or more exactly when it reads the clock at or after the boundary n frames past the one it meant to draw; so one that reads before the next boundary loses nothing. |
| TickCadence.LateOnceTheNextIsReached | crates/nbe-engine/src/tick.rs:408-419 | A frame is submitted late exactly when the clock, asked at that instant, would already read a later one. |
| TickCadence.LateWakeTies | packages/control-plane/src/drop-account.ts:68-78 | The engine's own lines: a skip's ties its counts exactly when the wake was late by what the skipped frames last, a late submit's when the wake was as late as the submit, and either only after a tick no longer than a frame. |
| TickCadence.Cadence.Advance | crates/nbe-engine/src/tick.rs:516-556 | Taking the clock's reading adds exactly the frames passed over to skips and to drops, and repeats nothing. |
| TickCadence.Cadence.Submit | crates/nbe-engine/src/tick.rs:408-419 | A frame submitted at or after the next boundary adds exactly one drop, one event and one request for a line. |
| TickCadence.Cadence.RunTurn | crates/nbe-engine/src/tick.rs:503-568 | A turn's exact effect: repeats unchanged, skips by the frames passed over, drops by those and one if the frame was late; the whole new state is stated. |
| TickCadence.TurnKeeps | crates/nbe-engine/src/tick.rs:503-568 | Every plausible turn keeps the accounts sound with those exact increments. |
| TickCadence.TurnGrowsRun | crates/nbe-engine/src/tick.rs:516-543 | Within a run a turn draws one later frame and moves nothing the run began with; a new run begins at its frame with the counters as they stood. |
| TickCadence.Cadence.RunLoop | crates/nbe-engine/src/tick.rs:503-568 | The loop over any turns: the frame drawn at each, and exact totals of repeats, skips and drops. |
| TickCadence.TotalsOver | crates/nbe-engine/src/tick.rs:503-568 | Over any turns, with any starts and stops of the clock: no repeat, skips exactly the frames passed over, drops those and the late submits. |
| TickCadence.RunFills | crates/nbe-engine/src/tick.rs:494-502 | Inside a run the frames drawn rise, and with those passed over make up every frame. |
| TickCadence.RunInNumbers | crates/nbe-engine/src/tick.rs:494-502 | A whole run of the clock over its turns: frames rise, so none is drawn twice; drawn + skipped = last - first + 1; dropped = skipped + late-submitted; no repeat; its account starts at its first frame with the counters of that moment. |
| TickCadence.WrittenAsBudgeted | crates/nbe-engine/src/tick.rs:117-137 | Over any turns, the lines written are exactly those their budget let through. |
| TickCadence.UnexplainedIsWithheld | crates/nbe-engine/src/tick.rs:117-303 | End to end from the start: the unexplained counts are exactly those whose line its budget withheld, and each budget let through at most five in a second. |
| WatchdogLadder.FrameWatchdog.ReportFrame | crates/nbe-engine/src/watchdog.rs:60-95 | One report moves the counters, the tripped flag, the slate's sources and the totals, and nothing of the ladder's. |
| WatchdogLadder.Renderer.UpdateRung | crates/nbe-engine/src/render.rs:909-935 | One frame moves the rung and the ladder's counters, and nothing of the watchdog's. |
| WatchdogLadder.Renderer.EndFrame | crates/nbe-engine/src/render.rs:878-890 | After every frame, whatever the frames so far: the rung is the one they call for, the watchdog holds the slate exactly while a late run past its threshold is unrecovered, and trips - clears is 1 exactly then. |
| WatchdogLadder.CountersAlwaysMatch | crates/nbe-engine/src/watchdog.rs:60-95 | Over every history: trips - clears is 1 exactly while tripped, the watchdog holds the slate exactly then, and its on-time count is then the ladder's. |
| WatchdogLadder.SlateIsUpExactlyWhileUnrecovered | crates/nbe-engine/src/watchdog.rs:11-30 | The slate is up if and only if some unbroken late run missed more than the threshold and thirty consecutive frames on time have not come since. |
| WatchdogLadder.ClearsWithTheLadder | crates/nbe-engine/src/watchdog.rs:23-29 | Every clear lands on the thirtieth consecutive frame on time, with the ladder at nominal when it ends; tripped and off nominal, neither stands down alone. |
| WatchdogLadder.RungsClimbInOrder | crates/nbe-engine/src/render.rs:902-908 | Rung 2 is entered only from rung 1, rung 1 only from nominal, and nominal only on the thirtieth on-time frame. |
| WatchdogLadder.LadderRemembers | crates/nbe-engine/src/render.rs:909-935 | The ladder is off nominal if and only if some two late frames in a row are unrecovered, and it counts from the first such pair. |
| WatchdogLadder.RungIsCalledFor | crates/nbe-engine/src/render.rs:192-203 | The rung is a function of the frames: loops shed exactly when two more late frames, not necessarily in a row, followed an unrecovered pair. |
| SourceCadence.ReachesFrom | crates/nbe-decode/src/lib.rs:759-766 | A clip reaches source frame q exactly from house frame ceil(q * house / source) on. |
| SourceCadence.ClipPlaysItsSpanUnlessWrapped | crates/nbe-decode/src/lib.rs:768-781 | A frame shows the source frame due if and only if it lies in the clip's ceil(n * house / source) house frames, except exactly where the index wraps 64 bits back inside the clip. |
| SourceCadence.SlowSourcesNeverWrap | crates/nbe-decode/src/lib.rs:768-781 | A source no faster than the house never does. |
| SourceCadence.FastSourceWraps | crates/nbe-decode/src/lib.rs:768-781 | A faster one can: a one-frame clip shown again at master frame 2^63. |
| SourceCadence.LoopRepeats | crates/nbe-decode/src/lib.rs:783-804 | A loop's index is unchanged by any number of periods of house frames, pre-roll included. |
| SourceCadence.LoopPlaysInOrder | crates/nbe-decode/src/lib.rs:783-804 | A loop shows frame i exactly while the source, run on without end in either direction, is at frame i of some lap. |
| SourceCadence.CadenceHolds | crates/nbe-decode/src/lib.rs:822-845 | The lengths of the pattern's maximal runs, in order, summing to its length. |
| SourceCadence.HoldStarts | crates/nbe-decode/src/lib.rs:806-845 | Hold j is source frame j's, and starts at the first house frame that reaches it. |
| SourceCadence.HoldsAreEven | crates/nbe-decode/src/lib.rs:806-845 | For a source no faster than the house, every hold but the last is house / source rounded down or up, and the last no longer. |
| SourceCadence.OneHoldPerSourceFrame | crates/nbe-decode/src/lib.rs:806-845 | No source frame the pattern reaches is skipped. |
| SourceCadence.TwelveInThirty | crates/nbe-decode/src/lib.rs:806-822 | Twelve frames a second into thirty hold 3, 2, 3, 2. |
| ViewTransition.ViewBus.ApplyTake | crates/nbe-engine/src/directive.rs:643-789 | A take replaces the View's item, start and transition together, freezing an interrupted mix, and leaves the View coherent. |
| ViewTransition.ViewBus.TrimToCap | crates/nbe-engine/src/directive.rs:749-755 | Past the cap the base and the newest seven layers remain. |
| ViewTransition.TakeKeepsCoherence | crates/nbe-engine/src/directive.rs:697-761 | A take keeps: the View holds the incoming item from its start, and an underlay is 1 to 8 layers, every one of which shows. |
| ViewTransition.ChainKeepsCoherence | crates/nbe-engine/src/directive.rs:697-761 | So does any chain of takes interrupting one another. |
| ViewTransition.FrozenIsDisplayed | crates/nbe-engine/src/scene.rs:929-945 | What an interrupting take freezes is exactly the blend on screen. |
| ViewTransition.MixTakeContinues | crates/nbe-engine/src/directive.rs:674-720 | The next frame shows exactly this frame's visible layers and the new item at zero, if and only if, mid-mix, something is visible and it is within the cap. |
| ViewTransition.PastTheCap | crates/nbe-engine/src/directive.rs:740-755 | Beyond it the next frame shows this frame's blend cut to the cap, its base kept. |
| ViewTransition.CutSnaps | crates/nbe-engine/src/directive.rs:762-763 | Anything but a mix shows the old item alone through the frame the take lands in, and the new item alone from the next, mid-mix or not. |
| ViewTransition.ProgressIsEven | crates/nbe-engine/src/scene.rs:983-1000 | A mix's opacity times its duration is the frames since its start; it is 0 up to the start, 1 from the end on, and complete exactly then. |
| ViewTransition.MixRunsItsCourse | crates/nbe-engine/src/directive.rs:643-789 | A mix taken on a settled View, frame by frame: the old item alone, then the old item under the new at k / n in its k-th frame (n is 15 unless given), then the new item alone. |
| ViewTransition.EmptyBlendIsNotContinuous | crates/nbe-engine/src/directive.rs:726-738 | A mix interrupted before it showed, over nothing, appears at full opacity at once. |
| SurfacePool.StepKeeps | crates/nbe-decode/src/zerocopy.rs:457-481 | Whatever step any thread takes, a surface whose count read one has no holder, and one whose retain count then read baseline has no encoder. |
| SurfacePool.HandsOutOnlyUnheld | crates/nbe-decode/src/zerocopy.rs:457-481 | Under any interleaving of shares, encodes, drops and releases by any number of consumers, a surface handed out has no other holder and no encoder retain. |
| SurfacePool.NothingOnlyWhenAllBusy | crates/nbe-decode/src/zerocopy.rs:466-481 | A scan that ends with none saw every surface busy at some instant of that scan. |
| SurfacePool.UndisturbedAcquire | crates/nbe-decode/src/zerocopy.rs:466-481 | Left to itself an acquire hands out the first unheld surface, and comes back empty only if there is none. |
| SurfacePool.NeitherReadAloneNorReversed | crates/nbe-decode/src/zerocopy.rs:398-417 | A run in which the strong count is one while an encoder reads, after the retain count read baseline: neither read alone suffices, nor both in the other order. |
| Descriptors.PushDescLen | crates/nbe-decode/src/aac.rs:442-461 | Appends the base-128 length, high digits first, each but the last marked as continued. |
| Descriptors.LenReadsBack | crates/nbe-decode/src/aac.rs:442-513 | The printed length reads back to itself if and only if it is under 2^28; past that the reader gives up. |
| Descriptors.LenIsMinimal | crates/nbe-decode/src/aac.rs:441-442 | No shorter encoding reads as the same length. |
| Descriptors.FindDescriptor | crates/nbe-decode/src/aac.rs:501-543 | The cursor's walk returns what the recursive walk does. |
| Descriptors.FindsThroughAnyHierarchy | crates/nbe-decode/src/aac.rs:496-543 | In any ES / decoder config / specific info hierarchy, with lengths in any encoding of up to four bytes and any descriptors between, the walk finds the config, and refuses it if the ES flags are set. |
| Descriptors.EsdsContent | crates/nbe-decode/src/aac.rs:255-282 | A hierarchy verbatim, a bare config in the minimal hierarchy. |
| Descriptors.SpecificInfo | crates/nbe-decode/src/aac.rs:261-266 | The specific info and the sync-layer descriptor after it. |
| Descriptors.DecoderConfig | crates/nbe-decode/src/aac.rs:267-274 | The decoder config around them, with its fixed fields and bit rates. |
| Descriptors.BigEndianReadsBack | crates/nbe-decode/src/aac.rs:272-273 | The bit rates are printed in four bytes, most significant first, and read back. |
| Descriptors.WrapNests | crates/nbe-decode/src/aac.rs:260-281 | Each printed length covers exactly what is inside it. |
| Descriptors.WrappedIsFound | crates/nbe-decode/src/aac.rs:255-543 | A wrapped config is found again if and only if the outermost length is under 2^28. |
| Descriptors.FileAndStreamAgree | crates/nbe-decode/src/aac.rs:249-297 | The config in the file's box and the one in a stream's header are the same: always for a hierarchy, for a bare cookie exactly when it is nonempty and short enough. |

## Left out

- GPU, decoder, encoder and device calls are not modelled: an upload's staging may be refused at will, a decoder is a sequential producer that may stop (or may not, where filling is claimed), an encoder is a retain and a later release.
- Floating point: samples, gains, skews and opacities are `real`, so rounding, and the limiter's measures against it, are exact no-ops here; the decibel conversion and the filter table's construction are parameters.
- Memory ordering: the ring, the sequence lock and the surface pool are interleavings of single sequentially consistent loads and stores; the fences are what make that granularity right, and are not modelled. Those three are state machines on values rather than shared arrays and fields.
- Integer width is modelled where it decides a result (descriptor lengths, the clip index, the null sink's 32-bit block count, the clock's 64-bit nanoseconds) and unbounded elsewhere: the ring's counters, the mark's sequence number, the ladder's 32-bit counts.
- ClipWindow.ClipRing.Pump: one clip at a time; the order over clips is not modelled, so what others spend of the shared budget is a smaller budget here; the pixels a slot holds beside the index it is labelled with, and reads by Preview, are not modelled either.
- ClipWindow.ClipRing.Play: one layer with nondecreasing due frames; a frame due before the one last shown begins another play.
- RuleCycles.FindCycle: rules are already parsed, and the command effects table is an arbitrary parameter.
- SlipControl.StaysWithin: the prediction of when a block is heard moves by the frames just pushed and an arbitrary bounded drift; the slip disabled or reversed, and an injected rate error, are settings outside it.
- SlipControl.SkewReturns: as above.
- Respacing.AffineIsKept: what the log names is shown to be what plays for affine signals; quadratic ones come out exactly but for the block's last stretch (QuadraticIsKept gives the difference), and of any other signal the ends, the unslipped copy and the slopes at input frames are claimed.
- Feeding.PushLog.LogAnswers: ring frames are handed out in order, as one opening of the device does.
- Feeding.Feeder.Emit: the plan fits the output buffer, which it does for any block of at least one frame.
- RenderDue.NullSink.OnWake: the graph's rendering and the taps' own rings are not modelled; a block is the frame it was rendered at, or silence. After a lost device another schedule starts.
- DropAccount.AccountDrops: lines are records of their fields, a missing field comparing false; text and colour codes are not parsed, and the house rate is above zero.
- TickCadence.Cadence.RunTurn: the record and stream feeds, the preview, the span summaries and the wake histogram are not modelled; a turn assumes time runs forward, sleeping does not cut short, a clock that reads the epoch last drawn has not been restarted, and a run is short of 584 years.
- WatchdogLadder.Renderer.EndFrame: the operator's own hold on the slate is another source, untouched here; a frame's missed count is given, not computed from its duration.
- ViewTransition.MixTakeContinues: takes land with the clock running, after the previous transition's start; frames asked for before the new transition's boundary, two takes in one master frame, Preview and recalls are not modelled.
- SurfacePool.HandsOutOnlyUnheld: one thread acquires, as the render loop does; the GPU's own completion is not modelled.
- Descriptors.PushDescLen: a length of 2^35 or more would overrun the five digits the source stacks, and is excluded; the byte vectors it grows in place are passed and returned; the cookie's own 256-byte limit and the converter are not part of this model.
- Audio graph mixing, text and overlay layout, the loop cache plan, session and connection gates, manifest parsing and the recording files are not modelled.
