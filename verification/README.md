# mikroscope: a model of the sample pipeline and what it promises

mikroscope samples a router's kernel ten times a second. An agent on the router
numbers its samples 1, 2, 3, ..., keeps the newest of them in a ring, watches
them for trigger conditions and pins the window around a fire. A collector
follows the ring over HTTP with a cursor, learns of what it missed from gap
lines, notices a restarted agent from its health, and hands everything to its
sinks. This project models that pipeline and the folds, detectors and small
algorithms around it, and proves what the code and its documentation promise.
Where the promise does not hold for every input, a run or an input shows it and
a lemma says when it holds.

Everything is in integers and reals of unbounded size unless a width is
written out: 64-bit cursors and differences, 32-bit addresses and truncated
division are modelled as they are.

## How the files fit together

- **The pipeline.** `Ring.dfy` (the circular buffer), `CaptureSpec.dfy`,
  `CaptureLaws.dfy` and `Captures.dfy` (triggered captures), `Serve.dfy` (what one
  request writes) and `Forward.dfy` (the collector's cursor) each hold a
  specification on values and, where the program updates fields in place, a class
  proved against it. `Pipeline.dfy` composes the specifications into one
  transition system whose steps are the agent's lock sections and the
  collector's actions. `AgentLaws.dfy`, `DeliveryLaws.dfy` and `MarkerLaws.dfy`
  are the three parts of its invariant; `PipelineTheorems.dfy` has the theorems
  about whole runs, and `GapTheorems.dfy`, `WindowTheorems.dfy`,
  `MarkerTheorems.dfy` and `RestartTheorems.dfy` say exactly what is lost, when
  and across restarts. `PipelineWitnesses.dfy` has the runs that show what is not
  promised, `FireTheorems.dfy` says exactly when a hit is refused, `TallyTheorems.dfy`
  that the counters are those of the events, and `CatchUp.dfy` how far one poll gets.
- **The folds.** `RunLengths.dfy` (busy runs and their histogram), `EmitHold.dfy`
  (emit on change, and the receiver's hold), `Baseline.dfy` (trailing windows and
  the burst flag), `BootHold.dfy` (reboot detection, flapping ports and the
  refractory window) and `BootTheorems.dfy` (what it does, said by the calls alone).
- **The algorithms.** `Grid.dfy`, `GridTheorems.dfy` and `Nesting.dfy` (the dashboard
  packer), `SqlRewrite.dfy`, `SqlOrdered.dfy` and `SqlLiterals.dfy` (the hand-written
  SQL passes), `SqlWritten.dfy`, `SqlArrays.dfy`, `SqlCalls.dfy` and `SqlMarks.dfy`
  (what each of them writes, and where),
  `SqlCasts.dfy`, `SqlReach.dfy` and `SqlCastWitness.dfy` (what the casts do to
  quoted literals), `SqlTags.dfy`, `SqlOnce.dfy`, `SqlTagLists.dfy` and
  `SqlTagPairs.dfy` (that nothing is cast twice),
  `Chips.dfy` and `ChipTheorems.dfy` (chart markers), `Routes.dfy` (IPv4 containment) and
  `RouterLiterals.dfy` (RouterOS string literals).
- `Words.dfy` is the vocabulary they share.

`dafny verify dfyconfig.toml` checks the whole project.

## Where the code and its words differ

The models follow the code.

- A cursor of 0 is documented as "everything held" and never declares a gap, so a
  collector that starts on an empty ring can lose samples in silence
  (`SilentLoss`; `ZeroCursorToldIff` says exactly which and when).
- The largest 64-bit cursor is answered like 0, with a gap besides
  (`LargestCursorIff`).
- A gap's upper end is read after the batch and can overstate the gap by samples
  that are then forwarded (`GapOverstates`), by exactly as many as were pushed in
  between (`GapIsExactIff`); it never understates it (`ReadGapIsHonest`).
- A manual capture is described as fired at the ring's newest sample; the number
  is read before the fire and can be out of date, so that part or all of the
  window is gone (`LateWindowLost`; `LateWindowIff` says exactly when).
- The shortest buffer the agent accepts, 10 s, is one sample short of the default
  window of 5 s before and 5 s after, so no capture is ever complete
  (`TenSecondBufferNeverComplete`).
- A held gauge is described as the source's current answer; it is not when the
  current reading is empty (`EmptyIsNotHeld`; `HoldIsRightIff` says exactly when).
- The hold for the boot log is described as bounded; its clock takes time 0 for
  "not started" (`HoldOutlivesBoundIff`).
- Log markers of one second are described as folded into one; they are folded only
  while no marker of another kind stands between them (`NoteParts`; `FoldedIff`
  says exactly when).
- Casts are described as never made inside a quoted literal; a literal that closes
  a parenthesis it did not open closes the call around it and lets them into the
  next one (`LiteralIsReached`). Without such a literal they stay out
  (`CastLeavesLiterals`), and no other literal does this (`HarmlessIff`).
- An occurrence that carries its cast is described as left alone. So it is for the
  lists of tags there are (`NestedCallsOnce`, `PassOnce`), but a tag named text, or
  one of digits alone, can make another find something new; `OnceIff` says exactly
  when.

## Model

| member | source | states |
|---|---|---|
| Rings.Ring.constructor | internal/agent/ring.go:37-42 | A new ring is empty and has room for at least one entry, whatever capacity is asked for. |
| Rings.Ring.Push | internal/agent/ring.go:45-62 | One push adds one entry to the history the ring stands for; what it holds is the newest part of that history, as long as the buffer. |
| Rings.Ring.Store | internal/agent/ring.go:54-60 | For every write position, the slots read round the circle are the old contents, less the oldest when full, and the new entry last. |
| Rings.Ring.Last | internal/agent/ring.go:66-70 | The number of the last entry ever pushed, 0 before the first. |
| Rings.Ring.Oldest | internal/agent/ring.go:73-80 | The number of the first entry still held, although it is computed from the newest number and the count. |
| Rings.Ring.Since | internal/agent/ring.go:89-113 | For every head and count: exactly the held entries numbered above the cursor, oldest first, at most limit, and a gap exactly when a cursor other than 0 lies before the oldest; the largest cursor wraps. |
| Rings.Ring.Copy | internal/agent/ring.go:107-112 | The copying loop round the buffer yields one slice of the contents. |
| Rings.Ring.Tail | internal/agent/ring.go:116-129 | The newest n entries held, oldest first. |
| Rings.Ring.ReadNewest | cmd/mikroscope/health.go:69-78 | The doctor's cursor, bounded read and ring together give the newest ten thousand entries, what Tail would give. |
| RingSpec.HealthSinceReadsNewest | cmd/mikroscope/health.go:69-78 | The same on the history: never an older window, and never a gap. |
| RingSpec.SinceInNumbers | internal/agent/ring.go:95-106 | The ring's number arithmetic picks the slice that a filter on the entries picks. |
| RingSpec.BatchIsSlice | internal/agent/ring.go:89-113 | A batch is one slice of all pushes: right after the cursor, or from the oldest entry held. |
| RingSpec.LimitedFromIsSlice | internal/agent/ring.go:102-106 | First place and count of a limited read of a numbered sequence. |
| PipelineWitnesses.LargestCursorIff | internal/agent/ring.go:96-103 | A read answers "the entries above the cursor" if and only if the cursor is not the largest 64-bit number, which wraps to number 0 and declares a gap besides. |
| CaptureStore.Captures.constructor | internal/agent/capture.go:232-250 | A new evaluator has fired nothing, holds nothing and owes nothing. |
| CaptureStore.Captures.FireOn | internal/agent/capture.go:355-383 | One hit has exactly one effect: counted as refractory, counted as pending, or armed with its window, its identity and its marker; which of the three is HitIsJudged and ManualIsJudged. |
| FireTheorems.HitIsJudged | internal/agent/capture.go:355-383 | After any run from a fresh agent: a condition that hits is counted as refractory, and changes nothing else, if and only if some marker of the same condition was fired less than the refractory window of samples before; otherwise it is counted as pending if and only if a capture is pending; and otherwise it is counted as fired, the history of markers grows by its own, numbered next, and its capture is pending. |
| FireTheorems.ManualIsJudged | internal/agent/capture.go:355-395 | The same for a manual fire, whose number may be out of date: it is refused as refractory if and only if the newest manual marker is less than the window before it in 64-bit arithmetic. |
| FireTheorems.RunKeepsNewest | internal/agent/capture.go:366-368 | Over every run, restarts included, what is remembered of a cause is the number of the newest of its markers. |
| FireTheorems.DefaultsAtTenHertz | internal/agent/capture.go:227-246 | The default seconds at 10 Hz are 50 samples before, 50 after and 100 of quiet, so that a condition fires again from the hundredth sample after a fire on. |
| CaptureStore.Captures.ArmOn | internal/agent/capture.go:366-382 | Arming gives the next identity, the window around the fire and a marker, of which the last 64 are kept. |
| CaptureStore.Captures.KeepMarker | internal/agent/capture.go:379-382 | Appending and then cutting keeps the last 64 markers of all ever armed. |
| CaptureStore.Captures.FireManual | internal/agent/capture.go:386-395 | A manual capture fires at the ring's newest number. |
| CaptureStore.Captures.AfterPush | internal/agent/capture.go:400-410 | The pending capture is collected with the first sample at or past the end of its window, not before. |
| CaptureStore.Captures.Finalize | internal/agent/capture.go:414-423 | A pending capture is collected with whatever the ring holds. |
| CaptureStore.Captures.Collect | internal/agent/capture.go:425-459 | The window is cut out of the ring's tail, refused when empty or too large, or held as the newest capture after the evictions the policy allows. |
| CaptureStore.Captures.Settle | internal/agent/capture.go:434-458 | A window cut out is refused as empty or over the budget, or becomes the newest capture after the evictions the policy allows. |
| CaptureStore.Captures.MakeRoom | internal/agent/capture.go:446-453 | The eviction loop drops the fewest oldest captures that make room; under "last" its refusal is unreachable for a window within the budget, under "first" it drops none. |
| CaptureStore.Captures.Delete | internal/agent/capture.go:503-514 | Removes the first capture with that identity, if there is one, and takes off its bytes. |
| CaptureStore.Captures.MarkersBetween | internal/agent/capture.go:525-538 | The kept markers fired in the range of numbers, in order. |
| CaptureLaws.AlwaysSound | internal/agent/capture.go:355-514 | In every state any history of fires, collections and deletions reaches: bytes is the weight of the held captures and within the budget; armed = held + pending + refused + evicted + deleted; identities are 1, 2, 3, ... |
| CaptureLaws.LastKeepsWhatFits | internal/agent/capture.go:442-458 | Under "last" a window is kept as the newest capture if and only if it is not empty and fits the budget by itself. |
| CaptureLaws.LastEvictsTheLeast | internal/agent/capture.go:446-453 | Eviction takes the oldest captures, not one more than the window needs, and leaves the rest untouched. |
| CaptureLaws.FirstKeepsWhatFits | internal/agent/capture.go:442-458 | Under "first" a window is kept as the newest capture if and only if it is not empty and fits beside the captures already held. |
| CaptureLaws.RefusedIsCounted | internal/agent/capture.go:433-450 | A window not kept is counted as refused, as empty if it was and else for the budget, and leaves the held captures alone; one kept is counted as neither. |
| CaptureLaws.FirstNeverEvicts | internal/agent/capture.go:447-450 | Under "first" no operation but a deletion takes a held capture away. |
| CaptureLaws.DeleteRemovesOne | internal/agent/capture.go:503-514 | After a deletion exactly the captures with another identity are left. |
| CaptureLaws.FireCountsOnce | internal/agent/capture.go:358-367 | A hit is counted under its own verdict and no other. |
| CaptureLaws.EveryHitCounted | internal/agent/capture.go:355-367 | Over any history, fired + refractory + pending is the number of hits of a condition. |
| CaptureLaws.SurplusIsLeast | internal/agent/capture.go:446-453 | Eviction stops at the first point where the rest fits. |
| CaptureLaws.WeightIsText | internal/agent/capture.go:437-440 | What a capture weighs is the length of its lines one after another. |
| Serve.WriteEntriesWithMarkers | internal/agent/http.go:176-192 | The loop that consumes the markers writes the samples with each marker woven in. |
| Serve.WeaveKeepsSamples | internal/agent/http.go:176-192 | Markers change no sample and no order of samples. |
| Serve.WeaveWritesMarkers | internal/agent/http.go:180-191 | Markers fired no later than the last sample are all written, once each and in order. |
| Serve.WeavePlacesMarker | internal/agent/http.go:173-187 | A marker stands before the first sample numbered at or above its own. |
| ForwardSpec.TakeOneMore | internal/forward/forward.go:250-274 | Of a reply's lines a sample moves the cursor and a marker never does. |
| Forwarding.Forwarder.constructor | internal/forward/forward.go:167-167 | The collector starts at the newest number the agent reported, having told nothing. |
| Forwarding.Forwarder.PullOnce | internal/forward/forward.go:238-275 | A failed pull changes nothing; a reply is told whole, its gap first, and the cursor ends at its last sample. |
| Forwarding.Forwarder.Pull | internal/forward/forward.go:228-236 | One poll takes answers up to the first that is not a full batch, at most a hundred. |
| CatchUp.PollCatchesUpIff | internal/forward/forward.go:225-236 | While the agent stands still, one poll brings the cursor to the newest sample if and only if what there was to fetch is at most a hundred batches, whatever markers ride along. |
| CatchUp.PullsCatchUp | internal/forward/forward.go:225-236 | Any number of drained pulls gets that many batches further and not past the newest sample. |
| CatchUp.OnePull | internal/forward/forward.go:225-236 | A short reply is the ring's edge, although markers count as lines. |
| Forwarding.Forwarder.Resync | internal/forward/forward.go:388-399 | The cursor moves only when it is above the agent's newest number, and then to just before the oldest. |
| TallyTheorems.RunKeepsTally | internal/forward/forward.go:238-275 | Over every run, agent restarts and failed pulls included, the counters are those of the events: how many samples, gaps and markers the sinks were told, which sample last, and how often a health read showed a newest number below the cursor. |
| TallyTheorems.LinesKeepTally | internal/forward/forward.go:251-273 | The same for the lines of one reply. |
| DeliveryLaws.ReadBatchFinds | internal/agent/http.go:158-158 | The first lock section of a read: the batch follows the cursor, or what lies between is gone and the read says so. |
| DeliveryLaws.ReadMisses | internal/agent/ring.go:96-98 | A read declares a gap if and only if its cursor is not 0 and the number after it is gone. |
| DeliveryLaws.ReadGapIsHonest | internal/agent/http.go:159-161 | The gap's upper end, read in a lock section of its own after any number of further pushes, covers all that the batch does not and only numbers that are gone. |
| DeliveryLaws.DeliverKeeps | internal/forward/forward.go:247-273 | Delivering such a reply keeps the whole account of what was told true. |
| DeliveryLaws.TellLines | internal/forward/forward.go:251-273 | The same line by line. |
| PipelineTheorems.StepKeepsLife | internal/agent/sampler.go:65-95 | Each of the fifteen steps within one life (ticks, fires, pushes, collections, the stop, deletions, the three lock sections of a read, delivery, failure, health reads and resync) keeps one invariant of agent and collector. |
| PipelineTheorems.RunKeepsLife | internal/forward/forward.go:117-208 | So does every interleaving of them. |
| PipelineTheorems.HonestForwarding | internal/forward/forward.go:238-275 | In every interleaving within one agent life: samples reach the sinks unchanged and in strictly rising order; every number from the first accounted for up to the cursor was forwarded or declared lost; what was declared lost is gone from the ring; the cursor never passes the agent's newest number; no health read moves it. |
| GapTheorems.ZeroCursorToldIff | internal/agent/ring.go:96-98 | From a cursor of 0, in every interleaving within one life: of the numbers up to the cursor exactly those are told that the ring still held at the read whose reply took the cursor off 0; so all are told if and only if the cursor is still 0 or the ring had overwritten nothing at that read. |
| GapTheorems.ZeroCursorRead | internal/agent/ring.go:96-102 | A read from cursor 0 starts at the oldest entry held and never declares a gap. |
| GapTheorems.GapIsExactIff | internal/agent/http.go:158-161 | In any state a collector can be in: a gap overstates by exactly the samples pushed between the batch and the gap line, so it ends just before the batch if and only if there was none; otherwise the first samples of the batch, as many as were pushed, are declared lost and delivered too. |
| GapTheorems.OldestMovesOn | internal/agent/ring.go:73-80 | Once the ring is full its oldest number moves on by one with every push. |
| PipelineTheorems.MarkersExactlyOnce | internal/agent/http.go:176-192 | Every marker a condition armed on a number the cursor passed is told exactly once, before every sample numbered at or above its own, as long as at most 64 markers were armed since the first unsent one whenever a pull reads them; manual fires may interleave. |
| PipelineTheorems.MarkersNeverTwice | internal/agent/capture.go:525-538 | No marker of any kind is ever told twice, however many are armed. |
| MarkerTheorems.MarkerToldIff | internal/agent/capture.go:379-382 | However many markers are armed: a marker of a condition, on a number the cursor passed, is told exactly once if fewer than 64 were armed after it when the markers were last read before the cursor reached its number, and never otherwise. |
| MarkerTheorems.WrittenIffKept | internal/agent/http.go:180-191 | A reply writes a marker of its range if and only if that is among the 64 newest. |
| MarkerLaws.RangeCompleteIff | internal/agent/capture.go:379-382 | The 64 markers kept answer a range completely if and only if none of the range is older than the 64 newest. |
| MarkerLaws.FitsIffFewUnsent | internal/agent/capture.go:379-382 | The unsent markers of conditions are all kept if and only if at most 64 markers were armed from the first of them on. |
| MarkerLaws.WeaveIsWellPlaced | internal/agent/http.go:180-191 | In one reply markers differ, and a condition's precedes every sample at or above its number. |
| MarkerLaws.ReadMarkersCarries | internal/agent/http.go:176-192 | What a reply carries are markers of this life in the reply's own range, all of them when they fit. |
| MarkerLaws.DeliverAnnotates | internal/forward/forward.go:251-258 | Delivery keeps markers unique and in place among all events told. |
| MarkerLaws.DeliverCompletes | internal/forward/forward.go:251-258 | Delivery loses no marker the reply carried. |
| PipelineTheorems.RunKeepsAgent | internal/agent/sampler.go:48-99 | Whatever the collector does and however often the agent restarts, numbering, spacing, pending window and collected windows stay as the invariant says. |
| PipelineTheorems.WindowsAreExact | internal/agent/capture.go:425-459 | Every held capture of a condition is exactly the pushed entries of its window, as far back as the ring reached when its last sample came, and complete if and only if the fire is past the first pre samples and the ring is as long as the window; only a sampler stopped before the window ended leaves less, incomplete. |
| PipelineTheorems.FullRingWindow | internal/agent/capture.go:373-377 | With such a ring the window reaches back to the sample pre before the fire, or to the first, and includes the fire. |
| PipelineTheorems.ShortRingNeverComplete | internal/agent/capture.go:428-457 | A ring shorter than the window makes no capture complete, of whatever cause and however late. |
| AgentLaws.CollectedIsExact | internal/agent/capture.go:428-432 | The tail and the range test together cut out one slice of the pushes, for every fire, pre, post and capacity and however late the collection. |
| AgentLaws.FinalizeKeeps | internal/agent/capture.go:412-423 | Stopping collects the pending window with what there is and keeps the whole invariant. |
| WindowTheorems.ArmedIsCollectedWhenDue | internal/agent/capture.go:400-410 | A fire of any kind, armed in any reachable state: at every later moment of that life it is pending and not overdue, or what is held of it is exactly what the tail held of its window at the first collection at or past the window's end, or when the sampler stopped. |
| WindowTheorems.ManualAtNewestIsExact | internal/agent/capture.go:385-395 | A manual fire on the newest sample, with a window that goes on past it and a ring as long as the window, gives exactly its window, complete if and only if it is past the first pre samples and the sampler was not stopped. |
| WindowTheorems.LateWindowIff | internal/agent/capture.go:385-395 | A fire on an out-of-date number gives its whole window if and only if the ring's newest pre+post+1 entries still reach its first sample when it is collected, and nothing when they begin past its last. |
| WindowTheorems.RefusedEmptyIff | internal/agent/capture.go:433-436 | A due collection is refused as empty if and only if those entries begin past the window's last sample. |
| WindowTheorems.StepKeepsDue | internal/agent/sampler.go:65-95 | Every step of a life keeps a pending fire from being overdue and what was collected of it as it was. |
| PipelineTheorems.TenSecondBufferNeverComplete | internal/agent/config.go:50-81 | With the shortest buffer accepted and the default window of 5 s and 5 s no capture is ever complete. |
| PipelineTheorems.FiresAreSpaced | internal/agent/capture.go:355-365 | Any two accepted fires of conditions are more than post samples apart, and two of one condition at least the refractory window. |
| PipelineTheorems.CollectorStarts | internal/forward/forward.go:135-167 | Whenever a collector starts, at any newest number a health read has seen, it is connected, which is what the theorems about runs ask for. |
| RestartTheorems.RestartIsSilent | internal/forward/forward.go:360-386 | From a restart at any point of a life until a resync, however often the agent restarts again, as long as none has numbered past the old cursor: nothing is forwarded and no gap declared but in the one answer that was already on its way. |
| RestartTheorems.RestartNoticed | internal/forward/forward.go:388-399 | After any number of restarts, with anything on its way at the last but a health read below the cursor, a health read below the cursor is one of the agent now running; the cursor then is just before the oldest sample held and the collector is connected to that agent, so that HonestForwarding applies again. |
| RestartTheorems.LifeHasNoLowHealth | internal/forward/forward.go:388-399 | Within a life no health read below the cursor is on its way, so a first restart meets the condition. |
| RestartTheorems.RestartAccounted | internal/forward/forward.go:388-399 | From there on every sample held at the resync that the cursor passes is forwarded or declared lost, when the cursor landed above 0. |
| PipelineWitnesses.SilentLoss | internal/agent/ring.go:96-98 | For a ring of any size, a run in which a cursor of 0 passes sample 1, which is neither told nor declared lost. |
| PipelineWitnesses.GapOverstates | internal/agent/http.go:158-161 | For a ring of any size, a run in which sample 3 is both declared lost and forwarded, because a push fell between batch and gap line. |
| PipelineWitnesses.LateWindowLost | internal/agent/capture.go:385-395 | For a ring of any size from 2, a run in which a manual fire on a number two samples old loses its whole window. |
| RunLengths.CoreRuns.FoldRun | internal/expo/expo.go:416-432 | After every sample the four numbers of each threshold agree with the split of the whole history into runs. |
| RunLengths.CoreRuns.FoldOne | internal/expo/expo.go:420-431 | One threshold's step leaves the other thresholds alone. |
| RunLengths.CoreRuns.RenderRuns | internal/expo/expo.go:712-722 | Each rendered bucket counts exactly the closed runs at most its bound, and the last one equals the count. |
| RunSpec.ClosedRunsAreMaximal | internal/expo/expo.go:413-432 | The runs observed are longest stretches at or above the threshold that ended, in order and apart. |
| RunSpec.MaximalRunsAreClosed | internal/expo/expo.go:413-432 | Every such stretch that ended is among them. |
| RunSpec.OpenIsUnique | internal/expo/expo.go:421-423 | The run in progress is the one unbroken stretch at the end. |
| RunSpec.ObservedStep | internal/expo/expo.go:425-430 | A sample ends at most one run, which is observed only if it took time. |
| RunSpec.TimeIsConserved | internal/expo/expo.go:420-431 | Sum of the observed runs + the open run = all time at or above the threshold. |
| RunSpec.CumulativeCounts | internal/expo/expo.go:714-720 | Adding up a first-bucket-that-fits histogram counts the values at most each bound. |
| EmitSpec.HoldReconstructs | internal/agent/discovered.go:132-175 | With no sample lost, what the receiver holds is the last reading that was not empty, although only changes and heartbeats travel. |
| EmitSpec.HoldIsRightIff | internal/expo/expo.go:347-388 | It is the agent's own last reading if and only if that was not empty, or none ever was. |
| EmitSpec.EmptyIsNotHeld | internal/expo/expo.go:347-388 | A full reading and then an empty one, both sent and received: the receiver still holds the first. |
| EmitSpec.FilterKnowsLastRead | internal/agent/discovered.go:136-140 | What the change filter remembers is the last reading, sent or not. |
| EmitSpec.NeverSilentLonger | internal/agent/discovered.go:136-151 | Among any heartbeat + cadence − 1 consecutive ticks one reading is sent; for a source read every tick, among any heartbeat. |
| EmitSpec.LossIsMadeGood | internal/agent/discovered.go:136-151 | Whatever was lost, empty or unreadable before, after that many samples in a row with full readings the receiver holds the agent's last reading again. |
| EmitSpec.DueSoon | internal/agent/discovered.go:220-222 | A source on a cadence is due once in every so many ticks. |
| EmitSpec.DueOnce | internal/agent/discovered.go:220-222 | Of any so many ticks in a row exactly one is due, the one that the cadence divides. |
| EmitSpec.SentIff | internal/agent/discovered.go:136-171 | Without the override, for a source that has just been re-armed: a reading is sent if and only if the source is due, it was read, and either it differs from the last reading before it or nothing was sent on the ticks of a heartbeat less one before it (before the first send: the source has ticked for a heartbeat). |
| EmitSpec.OverrideSendsAll | internal/agent/source.go:453-467 | With the override every reading of a due source is sent. |
| Discovered.EqualUints | internal/agent/discovered.go:225-235 | The element loop decides equality. |
| Discovered.EqualBuddy | internal/agent/discovered.go:195-205 | So does the loop over zones. |
| Discovered.EqualSlab | internal/agent/discovered.go:250-260 | Equal sizes and a one-sided lookup decide equality of two maps. |
| Discovered.ProcSource.ReadDiscovered | internal/agent/discovered.go:87-155 | One tick passes each source through its own filter on its own cadence and changes nothing else; when a filter lets a reading through is SentIff. |
| Discovered.ProcSource.ReadSlab | internal/agent/discovered.go:145-152 | The same for slabs, on their cadence; when they are sent is SentIff. |
| Discovered.ProcSource.ReadBuddy | internal/agent/discovered.go:162-175 | The same for the free lists, when they could be read; when they are sent is SentIff. |
| Discovered.ProcSource.ReArm | internal/agent/source.go:351-354 | Forgets what was sent: the state the theorems start from. |
| Discovered.ProcSource.SetFloors | internal/agent/source.go:364-384 | A heartbeat a minute and the slab cadence nearest to its floor, at least one tick each. |
| Discovered.ProcSource.SetFloorOverride | internal/agent/source.go:453-467 | One cadence for everything and no filter; 0 changes nothing. |
| Discovered.Totals.HoldFloored | internal/expo/expo.go:353-389 | An empty field shows the value held, any other replaces it. |
| Baselines.Window.Push | internal/derive/derive.go:269-280 | Appending and then overwriting in a circle keeps a rotation of the last cap values. |
| Baselines.Window.Overwrite | internal/derive/derive.go:277-279 | Overwriting the oldest value turns the circle by one. |
| Baselines.Window.Median | internal/derive/derive.go:282-287 | The median of the last cap values, from ten values on. |
| Baselines.Window.P90 | internal/derive/derive.go:290-298 | Their ninetieth percentile, from ten values on. |
| Baselines.CpuBaseline.IsBurst | internal/derive/derive.go:505-515 | The flag as a function of the two windows of recent values, which FlaggedIff spells out; a sample no busier than half of its window that dropped a packet, or squeezed at least three times and more than over nine tenths of its window, is flagged. |
| Baselines.CpuBaseline.Burst | internal/derive/derive.go:451-479 | A sample is judged by FlaggedIff before it joins the baselines; an episode is a flag with at least three kept flags. |
| Baselines.CpuBaseline.Cluster | internal/derive/derive.go:464-470 | The trimming loop keeps the flags of the last minute. |
| BaselineSpec.SortForgetsRotation | internal/derive/derive.go:294-305 | Sorting a rotation gives the same values in the same places, so the circle's turn does not matter. |
| BaselineSpec.AboveP90Iff | internal/derive/derive.go:290-298 | A value is above the ninetieth percentile if and only if more than nine tenths of the window lie below it. |
| BaselineSpec.AtMostMedian | internal/derive/derive.go:300-308 | At or below the median: at least half of the window is no smaller. |
| BaselineSpec.AboveMedian | internal/derive/derive.go:300-308 | Above the median: at least half of the window is smaller. |
| BaselineSpec.BurstStandsOut | internal/derive/derive.go:505-515 | A flag without a drop squeezed more than over nine tenths of its window, at least three times, in a sample no busier than half of its window. |
| BaselineSpec.FlaggedIff | internal/derive/derive.go:505-515 | Exactly when a sample is flagged, by counting alone: at least ten counts in the window, the mean of its two middle values in order (or its middle one) no smaller than this sample, and either a drop, or at least ten squeeze counts, at least three squeezes, and more than nine tenths of those counts below. |
| BaselineSpec.QuietIsFlagged | internal/derive/derive.go:505-515 | Enough for a flag: fewer than half of the window below the sample, and a drop or such squeezes. |
| BaselineSpec.MedianIsMiddle | internal/derive/derive.go:300-308 | The median is the mean of the two middle values, or the middle one: the values at those places in order, told by how many of the window are smaller and how many no larger. |
| BaselineSpec.RankedIsPlace | internal/derive/derive.go:300-308 | A value with so many smaller and more than so many no larger is the one at that place in order. |
| BaselineSpec.FewBelowIsAtMostMedian | internal/derive/derive.go:506-509 | With fewer than half of the window below it a value is at most the median. |
| BaselineSpec.BusyIsNotBurst | internal/derive/derive.go:506-509 | A sample busier than more than half of its window is never flagged. |
| BaselineSpec.LatelyIsLastMinute | internal/derive/derive.go:464-469 | While time does not go back, the flags kept are exactly those of the last minute. |
| BaselineSpec.TrimFindsStart | internal/derive/derive.go:465-469 | The trimming loop stops where the window starts. |
| BootSpec.WaitingIsForAChange | internal/derive/derive.go:726-783 | For every order of calls: waiting implies a pending change, and the hold's clock is the first sample held for it at a time other than 0. |
| BootSpec.EveryChangeAccounted | internal/derive/derive.go:340-343 | Every boot change noted is reported once, replaced by a later one, or still pending. |
| BootSpec.TryingClearsHold | internal/derive/derive.go:340-343 | Reporting a change leaves no hold state behind. |
| BootSpec.HoldIsBounded | internal/derive/derive.go:770-783 | A sample that does not report a pending change is within three minutes of the first sample held for it. |
| BootSpec.HeldLessThanBound | internal/derive/derive.go:770-783 | On a clock that does not go back or stand at 0, any two samples held for one change are less than three minutes apart. |
| BootSpec.HoldOutlivesBoundIff | internal/derive/derive.go:774-779 | After one held sample, a sample past the bound is still held if and only if the first one's time was 0. |
| BootTheorems.HeldIff | internal/derive/derive.go:340-343 | Exactly when a sample leaves a pending change unreported: since the boot log was asked for with a change pending, neither did it say anything nor was a change reported, and the first sample held for the change, if there is one, is less than three minutes old and not from the future. |
| BootTheorems.WaitIff | internal/derive/derive.go:746-765 | Waiting, in terms of the calls alone. |
| BootTheorems.NotedAreTurns | internal/derive/derive.go:726-740 | The changes noted are the places where a known boot id differs from the known one before it, and a pending change is from the id before the last such place. |
| BootTheorems.ReportSays | internal/derive/derive.go:755-783 | A report says that the boot log came too late when it was still waited for, and else what was last said of it since a change was reported. |
| BootSpec.DetectionsAreSpaced | internal/derive/derive.go:361-369 | Whatever the clock does, detections of one rule and key are at least the refractory window apart. |
| BootSpec.WithheldIff | internal/derive/derive.go:361-369 | An attempt is withheld if and only if a detection of its rule and key was let through less than the window before it. |
| BootSpec.NoRebootIff | internal/derive/derive.go:519-525 | Kernel-log records show no reboot if and only if they are in order and not before the last one known. |
| BootSpec.OneRebootOnce | internal/derive/derive.go:735-738 | Over all the samples after a noted boot change, while the new boot's kernel-log records are in order, the reboot is tried exactly once or is still pending. |
| BootSpec.FlapIff | internal/derive/derive.go:526-547 | On a clock that does not go back, a link transition shows a flapping port if and only if that port had another one at most 60 s before. |
| BootTheorems.FlapTriedIff | internal/derive/derive.go:526-551 | On such a clock a flap is tried if and only if the record tells of a link transition and another one of the same port, by the router's name or else the kernel's, came at most a minute before. |
| BootSpec.TrimmedKeeps | internal/derive/derive.go:538-543 | Cutting a port's history keeps the newest transition, and one more if and only if it is at most 60 s old. |
| BootHold.Stage.NoteBoot | internal/derive/derive.go:726-740 | A change is a known id that differs from a known one; an empty id is never one; an id reported again is remembered as the same. |
| BootHold.Stage.AwaitLog | internal/derive/derive.go:746-750 | Waits only for a pending change. |
| BootHold.Stage.NoteLog | internal/derive/derive.go:755-765 | Ends the wait with what the log said. |
| BootHold.Stage.HeldForBootLog | internal/derive/derive.go:770-783 | Holds within the bound and gives up past it or when the clock goes back. |
| BootHold.Stage.Fire | internal/derive/derive.go:361-369 | Every attempt of a rule and key is let through or counted as suppressed. |
| BootHold.Stage.BootRule | internal/derive/derive.go:340-343 | A pending change is reported with the first sample not held. |
| BootHold.Stage.KmsgRules | internal/derive/derive.go:519-549 | The attempts of the records one after another: a reboot for each record earlier than the one before it, a flap for each second transition of a port within 60 s. |
| BootHold.Stage.NoteLink | internal/derive/derive.go:532-547 | A transition joins its port's history, cut to the last 60 s, and leaves the other ports alone. |
| BootHold.Stage.Kernel | internal/derive/derive.go:322-345 | The attempts of one sample, in order: restart, boot change, kernel log. |
| Grid.LayOut | internal/dashboards/dashboards.go:648-690 | The in-place packer lays any list out row by row as the specification says. |
| Grid.Step | internal/dashboards/dashboards.go:665-687 | One panel: a header closes the row and takes a line, any other joins the row or starts the next. |
| Grid.CloseRow | internal/dashboards/dashboards.go:651-664 | A closed row is filled, and the next starts below its tallest panel. |
| Grid.FillRow | internal/dashboards/dashboards.go:696-712 | The row's panels get their share of the slack and their places, and no other panel is touched. |
| Grid.Round | internal/dashboards/dashboards.go:701-706 | One round hands one column each from the right while there are any. |
| Grid.Spend | internal/dashboards/dashboards.go:701-706 | The rounds end, and give every panel its share. |
| GridSpec.LayoutIsInOrder | internal/dashboards/dashboards.go:616-619 | List order is reading order: every panel lies above every later one or to its left in the same row. |
| GridSpec.NoOverlap | internal/dashboards/dashboards.go:616-619 | No cell of the grid belongs to two panels. |
| GridSpec.LayoutIsOnGrid | internal/dashboards/dashboards.go:616-624 | Every panel has some size, lies inside the 24 columns and is no narrower than declared. |
| GridSpec.LayoutIsTiled | internal/dashboards/dashboards.go:693-695 | Every row starts at the left edge, runs on without a hole and ends at column 24. |
| GridSpec.LayoutIsFair | internal/dashboards/dashboards.go:701-706 | Two panels of one row are widened by amounts that differ by at most one column, the right one's being no smaller. |
| GridTheorems.LayoutKeepsSizes | internal/dashboards/dashboards.go:668-678 | A header is 24 wide and 1 high; any other panel is as high as declared, 8 where nothing was, and at least as wide, 12 where nothing was; headers stay headers, collapsed or not. |
| GridTheorems.LayoutHasNoGaps | internal/dashboards/dashboards.go:656-664 | Rows touch: every panel stands at the top or at the height at which an earlier one ends. |
| GridTheorems.LayoutEndsAtFloor | internal/dashboards/dashboards.go:656-664 | The height of the layout is where some panel ends. |
| GridTheorems.LayoutIsGreedy | internal/dashboards/dashboards.go:665-687 | In the finished layout a row ends only before a header or before a panel that would not have fitted at its declared width, and a header has a row to itself. |
| GridSpec.RowsAreGreedy | internal/dashboards/dashboards.go:679-686 | A row holds panels as long as they fit: the next one, unless it is a header, would not have. |
| GridSpec.TallestIsReached | internal/dashboards/dashboards.go:656-662 | The next row touches the tallest panel of the row above. |
| GridSpec.AllIsGiven | internal/dashboards/dashboards.go:701-706 | The shares add up to the slack. |
| Nesting.Nest | internal/dashboards/dashboards.go:397-421 | Nesting keeps every panel once, in order and numbered by its place; a collapsed section takes in all panels up to the next header, and nothing else nests. |
| Nesting.Children | internal/dashboards/dashboards.go:411-415 | A section's children are the panels up to the next header. |
| NestingSpec.NumberedAt | internal/dashboards/dashboards.go:399-415 | Panel k of the list gets the number k + 1, wherever it is nested. |
| SqlPasses.MatchParen | internal/dashboards/postgres.go:366-380 | The depth counter finds the first place where what the parenthesis encloses is balanced, or none. |
| SqlText.ClosingEnclosesBalanced | internal/dashboards/postgres.go:366-380 | The span found is balanced. |
| SqlText.OpenedCloses | internal/dashboards/postgres.go:366-380 | In a balanced text every parenthesis that opens is found to close. |
| SqlPasses.LastTopLevelComma | internal/dashboards/postgres.go:384-399 | The last comma at depth 0. |
| SqlText.CommaSplitsBalanced | internal/dashboards/postgres.go:384-399 | Splitting a balanced list there leaves two balanced halves. |
| SqlText.NoCommaAfterLast | internal/dashboards/postgres.go:384-399 | After it there is no comma at depth 0. |
| SqlText.SwapKeepsBalance | internal/dashboards/postgres.go:319-321 | Replacing balanced text by balanced text neither mends nor breaks the balance of what surrounds it. |
| SqlPasses.PgRewritePercentiles | internal/dashboards/postgres.go:301-322 | The pass ends on every string and takes every step from the first call on; what each step writes is PercentileIsWritten, and where the pass stops SingleIsLeft, NoCallIsLeft and OpenCallIsLeft. |
| SqlWritten.PercentileIsWritten | internal/dashboards/postgres.go:301-322 | For every text before and after the first call of approx_percentile_cont and any two arguments, the last without a comma of its own: the pass makes of the query what it makes of the one with percentile_cont(fraction) WITHIN GROUP (ORDER BY expression) in its place, both trimmed. |
| SqlWritten.SingleIsLeft | internal/dashboards/postgres.go:313-316 | At a first call with a single argument the pass ends. |
| SqlWritten.NoCallIsLeft | internal/dashboards/postgres.go:303-306 | A query that calls the function nowhere stays as it is. |
| SqlWritten.OpenCallIsLeft | internal/dashboards/postgres.go:307-311 | And so does one in which the first call never closes. |
| SqlWritten.TrimIff | internal/dashboards/postgres.go:317-318 | Trimming takes all the blanks around a text and nothing else. |
| SqlPasses.StepLosesX | internal/dashboards/postgres.go:318-320 | Why it ends although the text grows: each step lowers the number of x in it. |
| SqlPasses.PercentilesKeepBalance | internal/dashboards/postgres.go:301-322 | A query is balanced after the pass if and only if it was before, and no step is left to take. |
| SqlPasses.PercentilesAreGone | internal/dashboards/postgres.go:301-322 | If the name is called anywhere in a balanced query after the pass, the first such call has a single argument. |
| SqlMoves.RunKeepsBalance | internal/dashboards/postgres.go:332-363 | A pass of moves that each keep the balance keeps it as a whole, and ends. |
| SqlMoves.RunKeepsWhatItPassed | internal/dashboards/postgres.go:361-362 | What the pass has gone past it never touches again. |
| SqlMoves.RunAll | internal/dashboards/postgres.go:333-363 | The loop over the reassigned string makes all the moves. |
| SqlOrdered.PgRewriteOrderedAggregates | internal/dashboards/postgres.go:332-363 | The pass ends on every string: each move is past a name or past what it put in place; what it writes is LastIsWritten and FirstIsWritten, and what it leaves WindowIsLeft, NoneIsLeft and OpenIsLeft. |
| SqlArrays.LastIsWritten | internal/dashboards/postgres.go:332-363 | For every text before and after a first call of last_value with an ORDER BY among its arguments, not followed by OVER: what is before stays, (array_agg(expression ORDER BY order DESC))[1] takes its place, both trimmed, and what follows is rewritten as if it stood alone. |
| SqlArrays.FirstIsWritten | internal/dashboards/postgres.go:332-363 | The same for first_value, without DESC. |
| SqlArrays.WindowIsLeft | internal/dashboards/postgres.go:345-353 | A first call without an ORDER BY or followed by OVER stays, and the pass goes on inside its arguments. |
| SqlArrays.NoneIsLeft | internal/dashboards/postgres.go:334-337 | A query without such a call stays as it is. |
| SqlArrays.OpenIsLeft | internal/dashboards/postgres.go:340-343 | So does one in which the first call found never closes. |
| SqlArrays.RunSplits | internal/dashboards/postgres.go:333-362 | What such a pass makes of a query is what it has gone past and what it would make of the rest alone. |
| SqlOrdered.MoveKeepsBalance | internal/dashboards/postgres.go:344-361 | An array form balances like the call it replaces, wherever its ORDER BY is cut. |
| SqlOrdered.OrderedAggregatesKeepBalance | internal/dashboards/postgres.go:332-363 | A query is balanced after the pass if and only if it was before. |
| SqlLiterals.ReplaceOutsideLiterals | internal/dashboards/postgres.go:267-292 | The replacement is applied to every stretch outside quotes and to nothing else. |
| SqlCalls.StretchIsReplaced | internal/dashboards/postgres.go:267-292 | The text up to the first quote is replaced, a literal is kept and the rest goes on in the same way; what an open quote begins is kept. |
| SqlLiterals.LiteralsUntouched | internal/dashboards/postgres.go:265-292 | Every quoted literal comes through untouched and in order, when the replacement brings in no quote. |
| SqlLiterals.CastAll | internal/dashboards/postgres.go:201-229 | The pass ends on every string, although casting lengthens the arguments it then looks into. |
| SqlLiterals.CastKeepsBalance | internal/dashboards/postgres.go:201-229 | A query is balanced after it if and only if it was before. |
| SqlCalls.CallIsCast | internal/dashboards/postgres.go:201-229 | The first call of lpad or concat, with no literal before it: what is before stays, the arguments are cast and then looked into themselves, and what follows is cast as if it stood alone. |
| SqlCalls.LiteralIsCopied | internal/dashboards/postgres.go:204-213 | A literal with no such call before it is copied, and what follows is cast as if it stood alone. |
| SqlCalls.OpenLiteralIsCopied | internal/dashboards/postgres.go:205-209 | A quote that none follows copies all the rest. |
| SqlCalls.NothingStays | internal/dashboards/postgres.go:214-219 | A query without literals and such calls stays as it is. |
| SqlCalls.TagsInTurn | internal/dashboards/postgres.go:252-263 | The tags of an argument list are cast one after another. |
| SqlLiterals.TagCastKeepsParentheses | internal/dashboards/postgres.go:252-263 | Replacements outside literals that touch no parenthesis make, one after the other, such a cast. |
| SqlCasts.CastLeavesLiterals | internal/dashboards/postgres.go:194-229 | In a query in which no literal closes a parenthesis it did not open, the whole pass touches no literal, for every cast that itself leaves literals alone. |
| SqlCasts.TagCastKeepsLiterals | internal/dashboards/postgres.go:252-263 | Casting the tags of an argument list outside literals leaves every literal as it is. |
| SqlCasts.ParenStandsOutside | internal/dashboards/postgres.go:366-380 | In text without such a literal, a parenthesis that closes what stood open at the start stands outside literals, from whatever depth. |
| SqlReach.PassLeavesLiterals | internal/dashboards/postgres.go:194-229 | The same for the pass with any list of tags. |
| SqlCastWitness.HarmlessIff | internal/dashboards/postgres.go:194-229 | Exactly which literals the promise holds for: a literal is harmless (in no query whose other literals close no parenthesis they did not open, and for no list of tags, does the pass change a literal) if and only if it closes no parenthesis it did not open. |
| SqlCastWitness.TagIsReached | internal/dashboards/postgres.go:194-249 | Behind a literal that does, in a call of concat, the pass casts a tag inside the next literal. |
| SqlCastWitness.KernelLabelIsHarmless | internal/dashboards/panels.go:2041-2041 | The label of the kernel share, which holds a pair of parentheses, lets the pass change no literal. |
| SqlCastWitness.LiteralIsReached | internal/dashboards/postgres.go:194-229 | In a query of two literals, of which the first closes a parenthesis, casting cpu changes the second. |
| SqlTags.CasterIsSafe | internal/dashboards/postgres.go:252-263 | The cast of a tag touches no parenthesis and brings in no quote, which is what the pass asks of a cast. |
| SqlMarks.CastMarks | internal/dashboards/postgres.go:252-263 | Casting a tag puts suffixes into a text and does nothing else: each behind a word that is the tag and has none yet. For a tag that does not start like the suffix, every such word gets one but those that are an alias of the tag itself; and of a dotted pair of the tag, with no dot before it, the first gets none. |
| SqlTags.CastOnce | internal/dashboards/postgres.go:253-260 | Of one tag no reference is cast twice: casting a text already cast changes nothing. |
| SqlTags.TagCastOnce | internal/dashboards/postgres.go:252-263 | Nor is one in an argument list with literals. |
| SqlOnce.PassStays | internal/dashboards/postgres.go:201-229 | In text already cast, in which no literal closes a parenthesis it did not open, the pass changes nothing, however deep its calls are nested. |
| SqlOnce.PassTwice | internal/dashboards/postgres.go:201-229 | For such a query the pass made twice is the pass made once, for every cast that is made once and starts anew behind a parenthesis. |
| SqlTagLists.CastStaysSettled | internal/dashboards/postgres.go:252-263 | Casting a tag never makes an earlier one find something new, when the earlier is not the suffix's own name and, if it may be an alias, the later is more than digits. |
| SqlTagLists.NestedCallsOnce | internal/dashboards/postgres.go:198-203 | The calls nested in an argument list get no second suffix: once the list has been cast, the pass over it changes nothing. |
| SqlTagLists.PassOnce | internal/dashboards/postgres.go:153-156 | Nor does the pass made again for another table with the same tags. |
| SqlTagLists.TablesAreSafe | internal/dashboards/postgres.go:95-104 | The lists of tags there are meet the condition. |
| SqlTagPairs.OnceIff | internal/dashboards/postgres.go:252-263 | Exactly which lists of distinct names are cast once: those in which no name but the last is text, and none that starts with a letter or an underscore stands before text, before digits alone, or before text and digits. |
| SqlTagPairs.PassOnceIff | internal/dashboards/postgres.go:194-229 | The same for the pass over all queries in which no literal closes a parenthesis it did not open. |
| Chips.LayoutChips | internal/chart/chart.go:335-379 | One item for every marker in range and in order, each with the longest label of 12 bytes or more that fits after the chips before it and on the first row with room, or with none; a label shorter than 12 bytes gets no chip. Chips of one row are more than 6 apart, all between the margins, on at most 6 rows. |
| Chips.PlaceChip | internal/chart/chart.go:354-370 | The shortening loop ends with the longest label of 12 bytes or more that fits on some row, on a row with room that no row with room precedes, or gives up when none of them fits, as it does at once for a label shorter than that. |
| Chips.ChipFor | internal/chart/chart.go:346-376 | The item of one marker, chip or only a rule. |
| ChipSpec.LongestIsLongest | internal/chart/chart.go:357-369 | No longer label would have fitted. |
| ChipSpec.ChipIff | internal/chart/chart.go:357-369 | A marker gets a chip if and only if its label has 12 bytes or more and 12 of them fit. |
| ChipTheorems.ChipStands | internal/chart/chart.go:335-379 | By the chips before it: a marker gets a chip if and only if its label has 12 bytes or more and some row has room for 12; the label is then the longest there is room for, its own or its first bytes and an ellipsis, on the uppermost row that has it, centred on the marker unless that would pass a margin. |
| ChipTheorems.InRangeIff | internal/chart/chart.go:341-345 | An item is shown for every marker of the chart's time, both ends included, and for no other. |
| ChipSpec.ChipIsInside | internal/chart/chart.go:359-359 | A chip of at most 40 bytes fits between the margins wherever its marker is. |
| ChipSpec.OneMoreApart | internal/chart/chart.go:360-375 | A chip on a row with room left touches none of the chips before it, not only the last. |
| Chips.GroupMarkers | internal/chart/chart.go:301-317 | Folding counts every marker once, keeps the order of time, and leaves no two neighbouring log markers of one second. |
| Chips.OthersAreKept | internal/chart/chart.go:297-316 | Notes and gaps come through folding one by one and in order. |
| ChipSpec.FoldedIff | internal/chart/chart.go:297-310 | Of markers sorted by time, two log markers of one second end in one item if and only if no marker of another kind stands between them. |
| ChipSpec.ItemCountsMembers | internal/chart/chart.go:303-315 | Each item counts exactly the markers that ended in it. |
| ChipTheorems.ItemLooks | internal/chart/chart.go:303-315 | An item shows the kind, the time and the label of the first marker in it, behind the count when there is more than one. |
| ChipTheorems.DigitsRead | internal/chart/chart.go:309-309 | The count reads back as the number, without a zero before it. |
| ChipSpec.NoteParts | internal/chart/chart.go:297-310 | A note between two log markers of its moment keeps them two items. |
| ChipSpec.UnfoldedHaveOtherBetween | internal/chart/chart.go:297-310 | Where two log markers of one second are left, another kind of marker of that second stands between them. |
| Chips.PerSecond | internal/chart/chart.go:191-217 | Nothing measured at or after the start is lost and every second sampled has a point; on samples in order the seconds rise and every point is its second's sum. |
| Routes.InRoutes | internal/lab/cli.go:248-274 | True if and only if the network is well formed and every one of its addresses belongs to a single one of the routes. |
| PrefixSpec.MasksAgreeIffInside | internal/lab/cli.go:265-271 | The comparison of masked addresses and lengths says exactly whether one network lies inside another, for lengths 0 to 32. |
| PrefixSpec.MaskedAgreeIff | internal/lab/cli.go:268-269 | Under a mask two words agree exactly when their leading bits do. |
| PrefixSpec.OnesShifted | internal/lab/cli.go:268-268 | All ones shifted left, the shift by 32 included. |
| PrefixSpec.LongerLeavesOut | internal/lab/cli.go:265-267 | A network is never inside one with a longer prefix. |
| Routes.Ip4Reads | internal/lab/cli.go:221-235 | Four octets with dots between them are read as one number, the first octet the highest. |
| Routes.Ip4IsFourOctets | internal/lab/cli.go:217-235 | And nothing else is taken for an address. |
| Routes.ParsedIsValid | internal/lab/cli.go:221-244 | What is parsed is a 32-bit address and a length of at most 32. |
| LiteralSpec.BodyReads | internal/lab/registry.go:104-129 | Reading a literal undoes either escaper for every byte string and stops exactly at the closing quote, so no quote or dollar sign stands unescaped. |
| LiteralSpec.LiteralReads | internal/lab/registry.go:104-129 | A whole literal reads as its value and leaves what follows it. |
| LiteralSpec.ByteReads | internal/lab/registry.go:117-126 | One escaped byte reads as that byte whatever follows it. |
| LiteralSpec.EscapedIs | internal/lab/registry.go:117-126 | The hexadecimal form keeps letters and digits and writes every other byte as two digits of sixteen; the other form puts a backslash before three characters and keeps the rest. |
| LiteralSpec.HexadecimalIsPlain | internal/lab/registry.go:104-106 | Between the quotes of the hexadecimal form stand letters, digits and backslashes only. |
| LiteralSpec.ScriptReads | internal/lab/registry.go:97-100 | A script parses back to exactly the values it was written with. |
| LiteralSpec.ScriptsDiffer | internal/lab/registry.go:91-100 | Different values never give the same script. |
| RouterLiterals.RouterOSEscaped | internal/lab/registry.go:112-129 | The loop writes the hexadecimal form. |
| RouterLiterals.RegistryScriptReads | internal/lab/registry.go:97-100 | The registry script parses back to its URL, user and token. |
| RouterLiterals.AccessScriptReads | internal/lab/provision.go:387-401 | The access script parses back to its key and password. |

## Left out

- Network, HTTP, files, tickers and goroutines: a pull fails whole or delivers what three lock sections read; a request's parameters are the model's inputs. A write that stops half way through a reply is not modelled.
- The `stream` handler: its `send` reads the same three lock sections with no limit and the same cursor as a pull, so the pipeline's steps with a limit of 0 stand for it; its live start at the newest number is the starting cursor.
- Trigger conditions: which conditions a sample trips (`evaluate`, `parseCondition`) is an input. A condition is taken not to be named "manual".
- Rings.Ring.Oldest: asks for entries numbered one after another, which the sampler's own numbering gives; on other numberings the code's subtraction has no meaning.
- Rings.Ring.Since: the same, and the ring's busy ratios and intervals, which travel with the entries, are not modelled.
- Rings.Ring.Push: the error path of the JSON encoding, after which the sampler stops, is not modelled; sample numbers are unbounded, which 64 bits at any rate do not exhaust.
- CaptureStore.Captures.FireManual: the flag it returns besides is read in a second lock section and is not modelled.
- CaptureStore.Captures.Collect: captures are values here; the program shares the line bytes between the ring and the capture.
- PipelineTheorems.MarkersExactlyOnce: speaks, like MarkerTheorems.MarkerToldIff, of conditions. A manual fire takes the newest number, which may already have been pulled, so its marker may be told late or never; MarkersNeverTwice covers it.
- RestartTheorems.RestartNoticed: a restart after which the new agent passes the old cursor before the next health read goes unnoticed by the code and is excluded by hypothesis, as is a health read of an agent that restarts again before the read arrives.
- Forwarding.Forwarder.PullOnce: every line is taken as one that parses; the program skips others, and derives detections from each sample, which the derive models treat by themselves.
- Forwarding.Forwarder.Resync: clock skew, capabilities and timing read along with the health are left out.
- RunLengths.CoreRuns.FoldRun: one core; the program keeps one such state per core. Ratios are reals and bucket bounds nanoseconds, so the rounding of seconds to floating point is left out.
- The other folds of expo (ticks histogram, softnet, interrupts, windows for the gauges) add up counters in the same way and would add easier members.
- CatchUp.PollCatchesUpIff: for a reply limit that equals the batch the poll takes for full; the transport's own cap on a batch is not part of this model.
- Discovered.ProcSource.ReadDiscovered: the sources that are not filtered on change, the flash partitions, and the limits that ride along with a reading are left out. A nil slice and an empty one are the same reading here.
- EmitSpec.NeverSilentLonger: counts a tick on which the filter let a reading through; an empty reading let through is not visible to the receiver.
- Discovered.ProcSource.ReArm: the flash partitions' fields are left out.
- Discovered.ProcSource.SetFloors: the cadences of temperatures and flash are left out; they are set in the same way as the slabs'.
- Discovered.ProcSource.SetFloorOverride: the same.
- Discovered.Totals.HoldFloored: three of the eight held fields; the others are held in the same way.
- Baselines.Window.Median: the library sort is a function here, proved ordered and to keep every value; NaN does not occur.
- Baselines.CpuBaseline.Burst: one CPU; the program keeps one such state per CPU.
- BootHold.Stage.NoteBoot: the clause that the restart message makes of the flag is a text and left out.
- BootHold.Stage.KmsgRules: whether a record tells of a link transition is an input, and the message texts are left out.
- BootHold.Stage.Kernel: the other detection rules and the texts of the messages are left out; the lead-up summary is not part of this model.
- GridSpec.LayoutIsInOrder: about lists whose panels declare widths of at most 24 columns and no negative size, as the dashboards do; LayOut itself is proved for all lists.
- SqlOrdered.PgRewriteOrderedAggregates: the matching parenthesis is computed by the function that MatchParen is proved equal to. Word boundaries are those of ASCII.
- SqlLiterals.CastAll: the cast is a parameter of which only what it does to parentheses is assumed; SqlTags.CasterIsSafe shows that the cast of a tag is such a one. With no tags the program returns the query at once.
- SqlLiterals.CastKeepsBalance: the same; what becomes of literals is CastLeavesLiterals.
- SqlCasts.CastLeavesLiterals: a condition on the literals, exact for each of them by HarmlessIff; a single query with a harmful literal may come through whole as well, when no tag follows it.
- SqlTags.CastOnce: one tag; NestedCallsOnce, PassOnce and OnceIff are about lists and nested calls.
- SqlTags.TagCastOnce: the same.
- SqlTagPairs.OnceIff: tags are names of letters, digits and underscores; characters with a meaning in a regular expression do not occur. A name given twice in a list is left out of the exact condition, not of PassOnce.
- SqlTagLists.PassOnce: one list of tags; what the lists of two tables do to each other's casts is left out.
- SqlMarks.CastMarks: of a tag that starts like the suffix, and of a dotted name that repeats the tag behind another dot, only that nothing else is cast.
- SqlTags.CastTag: the regular expression as a function: leftmost matches, an alias taken when the tag follows it, word boundaries of ASCII.
- SqlText.TrimKeepsWalk: trims ASCII white space; the two blanks beyond ASCII that the library also trims are left out.
- The renames driven by regular expressions, and the meaning of the SQL.
- Chips.LayoutChips: coordinates are reals; the place of a time on the axis is a parameter. A label cut in the middle of a character is not repaired, as in the program.
- Chips.PerSecond: the series of drops and squeezes; the memory series, one point for each sample, is left out.
- Chips.GroupMarkers: starts from markers sorted by time; the stable sort is the library's.
- Routes.InRoutes: addresses are numbers below 2 to the 32; shift and mask are defined bit by bit.
- RouterLiterals.RouterOSEscaped: for byte strings; the checks on a credential before it is used (`validate`) are left out.
- The packages sample, transport, sinks, router and apitier are not part of this model, nor are panel contents, alert texts, command-line flags and the lab's machines.
