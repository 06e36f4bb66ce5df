# Verified models of the Rapid-MLX benchmark, evaluation and example code

A Dafny 4.11 project that models the parts of Rapid-MLX whose correctness is not obvious from
reading one function, and proves what they promise. `dafny verify dfyconfig.toml` checks it all.

**Parallel-tempering power sampler** (`TemperedModel`, `TreeSums`, `Generation`, `Kernels`,
`MetropolisMove`, `ReplicaExchange`, `UniqueTarget`, `PowerSampler`, `SamplerRule`). A base model gives next-token
log-probabilities; chain k targets that distribution raised to the power alpha_k on sequences that
stop at a stop token or at the horizon. Generation probabilities are products of softmax
probabilities, expectations are sums over the tree of completed sequences. The restart move is
shown reversible, stochastic and target-preserving, the swap reversible, and any number of rounds to
leave the product of the tempered targets unchanged; up to a factor it is the only distribution
that a round leaves unchanged. `Sampler` is the code, with its cached
log-probabilities and normalisers; it is proved to make exactly the choices of a sampler without
caches, and `SamplerRule` says what that one does at each draw in terms of the targets, the proposal
probabilities and the joint target. `exp` and `log` are functions of
the setting, of which only the laws listed in `TemperedModel.Analytic` are used; arithmetic is over
the reals.

**Benchmark controller** (`Bytes`, `LineReader`, `RecordPlacement`, `EventChannel`, `EventDelivery`,
`PipeReading`, `LogRetention`, `MeasuredBar`, `Timeline`, `StepTiming`, `ProcessGroup`, `RunVerdict`,
`Digests`, `RecordFormats`). A pipe reader whose
lines do not depend on how the stream is cut into reads, with the place in the stream that every
record comes from; an authenticated event channel with bounded retention, followed from the
worker's emission, over whatever the reader's polls return, to the controller's event list; step events, their projection onto the worker's
clock and timing samples; a process-group shutdown against a kernel that may do anything between two
system calls; the verdict on a run; and the byte strings that digests and fingerprints hash. UTF-8 is
that of section 3 of RFC 3629.

**Grounding grader** (`Spans`, `DenyMarkers`, `NumberGrading`, `Comparatives`, `AnswerText`, `Decimals`,
`SurfaceForms`, `SoleReports`, `ConflictRounding`, `NegatedBounds`, `GroundingReport`, `ReportMeaning`). Merged windows around anchor terms, deny
markers, tolerance and unit tests, comparisons, conflicts and wrong values, and the aggregate verdict
that must fail closed.

**Matching, reassembly and gates** (`ParallelCalls`, `FuzzyArguments`, `ToolCallDeltas`, `LandingGate`) and
**stream segmentation and mask folding** (`VoiceActivity`, `MaskFolding`). `Wrappers` and `Sequences` are shared.

Some properties that one might expect turn out not to hold of the code as it is, and are stated with
the condition under which they do hold and an input that breaks them:

- An emitted event is not always appended. It arrives if and only if a record starts with its line
  and no overflow of the reader's buffer swallows it (`EventDelivery.EventArrivesExactly`). Text
  without a newline takes the event written after it with it (`GluedEventLost`), and so does a line
  that fills the buffer, for an event on the next line (`SwallowedEventLost`).
- Step timings can be negative: steps are sorted by the controller's stamps and then timed by the
  worker's. They are in order exactly when the worker's stamps do not decrease along the sorted
  steps (`Timeline.ProjectedSorted`); `RetimedNegative` is an input for which they do. It needs a
  worker whose steps come over both pipes, as a comment expects of one runtime: `_emit` itself
  prints every event on standard output.
- A reported unit conflict is not always a wrong value, because the conflict test rounds to nine
  decimals and the wrong-value test does not. `ConflictRounding.ConflictIsWrongIff` gives the exact
  condition on the fact, and `NineDecimalsSafe` shows that facts written with at most nine decimals
  meet it.
- "not higher than", "not lower than", "not greater than" and "not fewer than" are read as if the
  negation were absent (`Comparatives.NegationRead`), so an answer that bounds a fact by its own value
  contradicts it (`NegatedBounds.NotHigherThanMisread`).
- The greedy matching of parallel calls is maximum on every selection and order of the expectations
  and calls if and only if no expectation scores a call that another one needs at least as high as
  one that the other does not accept (`ParallelCalls.MaximumExactly`). Without fuzzy scores that means:
  any two expectations accept the same calls or none in common (`MaximumWithoutFuzzy`). In
  `ContainsNotMaximum` an expectation without arguments is such a one; `FuzzyArguments.FuzzyNotMaximum`
  is an input in the default mode.
- A stat fingerprint hashes the same bytes for one file and for several when the name of the one
  spells out the records of the others; `Digests.AmbiguousExactly` says exactly when, and
  `SharedExactly` for lists with any names.
- A content digest distinguishes directories while each file is read at its stat size. Otherwise it
  is also that of a directory of honest files if and only if what the first other file leaves over
  is one (`Digests.MisreadExactly`); `GrowingFileCollides` is an instance.
- A run that does not complete can leave its artifact: exactly when a probe of the polling loop
  raises or a signal or existence probe is refused, since the exception escapes before the verdict,
  though not before the group was told to stop (`RunVerdict.Controller.RunOnce`).

Where code and comments disagree the code is modelled: `_occurrences` returns overlapping matches
although its docstring says otherwise; the comment that calls "no more than" a `>=` is contradicted
by the table above it, which maps it to `<=`; and "no colder than", which two comments call a real
denial, is in the table of comparisons and is none (`NegatedBounds.NegationIsNoDenial`).

## Model

| member | source | states |
|---|---|---|
| TemperedModel.CompletePrefixFree | bench/repro_ppt_qwen35_9b_colab.py:57-60 | no completed sequence is a proper prefix of another, so a restart inside one always regenerates something |
| TemperedModel.AcceptanceTest | bench/repro_ppt_qwen35_9b_colab.py:133 | the test on the log of the draw accepts exactly the draws below min(1, exp(ratio)) |
| Generation.TemperedGenerationTotal | bench/repro_ppt_qwen35_9b_colab.py:61-76 | sampling at temperature 1/alpha from any unfinished prefix ends in exactly one completed sequence with total probability one |
| Generation.GenProbFromCaches | bench/repro_ppt_qwen35_9b_colab.py:80-90 | the probability of a regenerated suffix is a function of the two lists a record caches |
| Kernels.MetropolisStochastic | bench/repro_ppt_qwen35_9b_colab.py:128-135 | proposing, then accepting or staying, is a probability distribution when the proposal is |
| Kernels.MixtureStochastic | bench/repro_ppt_qwen35_9b_colab.py:125 | a uniformly drawn restart position keeps unit rows |
| Kernels.ReversibleInvariant | bench/repro_ppt_qwen35_9b_colab.py:122-135 | detailed balance and unit rows imply that one move leaves the target unchanged |
| MetropolisMove.ProposeDistribution | bench/repro_ppt_qwen35_9b_colab.py:125-128 | from every completed sequence the restart proposal is a probability distribution |
| MetropolisMove.RestartReversible | bench/repro_ppt_qwen35_9b_colab.py:124-135 | detailed balance for every restart position, with the acceptance computed from the cached normalisers; a restart past the end is a self-transition |
| MetropolisMove.MoveReversible | bench/repro_ppt_qwen35_9b_colab.py:123-135 | detailed balance of the whole restart move for the base model to the power alpha_k |
| MetropolisMove.MoveStochastic | bench/repro_ppt_qwen35_9b_colab.py:123-135 | the whole move is a probability distribution from every completed sequence |
| MetropolisMove.MoveInvariant | bench/repro_ppt_qwen35_9b_colab.py:123-135 | one move of chain k leaves its tempered target unchanged |
| ReplicaExchange.SwapChangesJoint | bench/repro_ppt_qwen35_9b_colab.py:137-140 | the swap's log-ratio is exactly the change of the joint log-probability, and swapping back negates it |
| ReplicaExchange.SwapReversible | bench/repro_ppt_qwen35_9b_colab.py:136-143 | detailed balance of a neighbour swap for the product of the targets |
| ReplicaExchange.AfterMoveKeepsJoint | bench/repro_ppt_qwen35_9b_colab.py:123-135 | moving one chain of the ladder preserves the joint target |
| ReplicaExchange.AfterSwapKeepsJoint | bench/repro_ppt_qwen35_9b_colab.py:136-143 | a swap attempt preserves the joint target |
| ReplicaExchange.RoundsKeepJoint | bench/repro_ppt_qwen35_9b_colab.py:122-143 | any number of rounds of restarts and swaps preserves the joint target |
| UniqueTarget.MovePositive | bench/repro_ppt_qwen35_9b_colab.py:123-135 | from every completed sequence one move can lead to every other |
| UniqueTarget.RoundReachesAll | bench/repro_ppt_qwen35_9b_colab.py:122-143 | after a round every ladder has some probability, whatever law it began with |
| UniqueTarget.KeptExactly | bench/repro_ppt_qwen35_9b_colab.py:122-143 | a non-negative law on ladders is left unchanged by a round if and only if it is a multiple of the product of the tempered targets |
| PowerSampler.PrefixFaithful | bench/repro_ppt_qwen35_9b_colab.py:33-38 | the prefix of a faithfully cached record is faithfully cached |
| PowerSampler.CandidateComplete | bench/repro_ppt_qwen35_9b_colab.py:125-128 | a restart of a completed sequence is open at the restart position and its candidate is completed |
| PowerSampler.SwapPairsValid | bench/repro_ppt_qwen35_9b_colab.py:136-143 | the swaps of a round permute the ladder's sequences and change nothing else but the swap counter |
| PowerSampler.RoundsValid | bench/repro_ppt_qwen35_9b_colab.py:121-143 | after any rounds every chain holds a completed sequence, and accepted, attempted and swaps are bounded |
| SamplerRule.MoveByRule | bench/repro_ppt_qwen35_9b_colab.py:123-135 | chain k leaves x for its candidate y, and counts it as accepted, if and only if u * target(x) * propose(x, y) < target(y) * propose(y, x); otherwise it stays; a restart past the end changes nothing, no other chain ever does |
| SamplerRule.MovesByRule | bench/repro_ppt_qwen35_9b_colab.py:123-135 | a pass of moves decides every chain by that rule on what it held before the pass, and counts tries, acceptances and generated tokens |
| SamplerRule.SwapByRule | bench/repro_ppt_qwen35_9b_colab.py:136-143 | neighbours change places, counted as a swap, if and only if u * joint(c) < joint(swapped c); otherwise nothing changes |
| SamplerRule.SwapsGoUp | bench/repro_ppt_qwen35_9b_colab.py:136-143 | a pass of swaps goes up the ladder: nothing above the pair has changed yet, and each attempt settles the lower position |
| SamplerRule.SwapsByRule | bench/repro_ppt_qwen35_9b_colab.py:136-143 | the attempts of a pass in order, each decided by that rule on the ladder the last one left |
| SamplerRule.RoundByRule | bench/repro_ppt_qwen35_9b_colab.py:122-143 | a round is a pass of moves by the rule and then a whole pass of swaps over what they leave: the ladder is a permutation of that, and the counters grow by what was tried, accepted and generated |
| SamplerRule.RunStarts | bench/repro_ppt_qwen35_9b_colab.py:117-121 | before the first round every chain holds its own first generation, all of it counted |
| PowerSampler.Sampler.Extend | bench/repro_ppt_qwen35_9b_colab.py:54-90 | a finished record comes back unchanged; otherwise the chunked scoring equals scoring from scratch |
| PowerSampler.Sampler.TryMove | bench/repro_ppt_qwen35_9b_colab.py:123-135 | one cached try equals the try without caches, which `SamplerRule.MoveByRule` decides |
| PowerSampler.Sampler.TrySwap | bench/repro_ppt_qwen35_9b_colab.py:136-143 | one cached swap equals the swap without caches, which `SamplerRule.SwapByRule` decides; swapped records stay faithful for their new power |
| PowerSampler.Sampler.Ppt | bench/repro_ppt_qwen35_9b_colab.py:113-148 | the whole run follows the run without caches, whose rounds `SamplerRule.RoundByRule` describes, with every record scored as if recomputed and every counter equal |
| LineReader.SplitSpells | bench/bench_ltx_video.py:424 | the lines and the rest hold no break and spell the stream |
| LineReader.SplitUnique | bench/bench_ltx_video.py:424 | no other lines and rest do |
| LineReader.SplitContinues | bench/bench_ltx_video.py:410-424 | keeping the rest as the start of the next read splits the whole stream |
| LineReader.CutIndependent | bench/bench_ltx_video.py:395-445 | without overflow, the lines handed on do not depend on the reads: all lines of the stream, then a non-blank tail |
| LineReader.PendingBounded | bench/bench_ltx_video.py:410-424 | after every read the buffer holds no break and at most 16 MiB |
| LineReader.NoByteDropped | bench/bench_ltx_video.py:411-434 | with or without overflow, no byte but breaks is lost |
| LineReader.OverflowAddsLine | bench/bench_ltx_video.py:411-423 | an overflow changes the lines: a line flushed in one piece comes out with an empty one after it |
| RecordPlacement.Placed | bench/bench_ltx_video.py:410-434 | every record is the stretch of the stream its place says; places follow one another without a gap but the breaks, and the buffer is all that follows |
| RecordPlacement.ArrivesExactly | bench/bench_ltx_video.py:410-434 | a line arrives as a record of its own if and only if a record starts with it and no overflow's flush takes a byte of it, unless the flush is the line and white space |
| RecordPlacement.ArrivesAtLineStart | bench/bench_ltx_video.py:424 | without overflow: if and only if nothing unfinished is in front of it |
| LineReader.ShortLinesFit | bench/bench_ltx_video.py:405-424 | reads of 64 KiB never overflow while every line leaves room for one |
| EventChannel.RetentionBounded | bench/bench_ltx_video.py:449-473 | both caps hold after any lines from any pipes, and the counter is the total retained length |
| EventChannel.EventsAreTrusted | bench/bench_ltx_video.py:474-494 | the events appended are the payloads of the correctly signed lines, in handling order |
| EventChannel.EmptyKeyTrustsNothing | bench/bench_ltx_video.py:54-58 | without a key no event is ever appended |
| EventChannel.InterleavingIrrelevant | bench/bench_ltx_video.py:756-774 | however the two readers interleave, one pipe's events are those of its own lines |
| EventDelivery.EmittedLineTrusted | bench/bench_ltx_video.py:61-70 | what a worker emits is one line and is trusted by a controller with the same key |
| EventDelivery.RecordWithEmission | bench/bench_ltx_video.py:474-485 | a record that holds an emitted line is trusted exactly when it starts with the line and has only white space after it |
| EventDelivery.EventArrivesExactly | bench/bench_ltx_video.py:410-434 | an event arrives if and only if a record starts with its line and no overflow swallows it; without overflow, if and only if what was written before it ends in a break |
| EventDelivery.EventsEndToEnd | bench/bench_ltx_video.py:395-494 | for any output, newlines or not, in any reads, overflow or not: the events appended are exactly those that arrive, in the order emitted; `PipeReading.StreamDelivers` is the form over the polls |
| EventDelivery.AllEventsArrive | bench/bench_ltx_video.py:395-494 | without overflow every emitted event is appended if and only if each was written at the start of a line |
| EventDelivery.GluedEventLost | bench/bench_ltx_video.py:424-434 | text without a newline takes the event after it with it |
| EventDelivery.SwallowedEventLost | bench/bench_ltx_video.py:411-423 | a flush takes a signed event on its own line with it |
| EventChannel.Channel.HandleLine | bench/bench_ltx_video.py:455-497 | one line: stamped and retained if it fits, and appended as an event exactly if trusted |
| EventChannel.Channel.Absorb | bench/bench_ltx_video.py:410-434 | one read: flush an oversized buffer as one record, split, hand on |
| EventChannel.Channel.ReadStream | bench/bench_ltx_video.py:378-446 | the reader hands on the records of its polls, one atomic step each; `PipeReading` says which these are |
| PipeReading.ReadsToTheEnd | bench/bench_ltx_video.py:397-445 | polls that end at the end of the stream or at the request to stop hand on exactly the records of the bytes read, tail included, and later polls add nothing |
| PipeReading.ReadsToAnError | bench/bench_ltx_video.py:398-407 | polls that end in an error of select or read hand on the same but for the unterminated tail |
| PipeReading.UnreadablePollsIrrelevant | bench/bench_ltx_video.py:402-403 | a poll with nothing to read changes nothing |
| PipeReading.NoByteUnread | bench/bench_ltx_video.py:397-445 | no byte but breaks is missing from the records except a tail of white space, or after an error the unterminated line; any other tail is the last record |
| PipeReading.RecordsOfBytesRead | bench/bench_ltx_video.py:410-445 | without overflow the records are the lines of the bytes read and, after a clean end, a rest that is not only white space |
| PipeReading.StreamDelivers | bench/bench_ltx_video.py:378-494 | whatever the polls return and however they end: the events appended are exactly the emitted events that arrive in the bytes read, in order |
| LogRetention.RStripExactly | bench/bench_ltx_video.py:466 | trailing line breaks are removed and nothing else |
| LogRetention.RecordSpells | bench/bench_ltx_video.py:465-467 | a record is the time, the pipe and the first 65536 characters of the line |
| LogRetention.KeptOrNot | bench/bench_ltx_video.py:468-473 | a record is kept, last, exactly if there are fewer than 20000 and it fits in the rest of 16 MiB |
| LogRetention.AllKeptExactly | bench/bench_ltx_video.py:468-473 | all records are kept if and only if there are at most 20000 and together they fit in 16 MiB; nothing else is |
| LogRetention.TrustedMeansSigned | bench/bench_ltx_video.py:474-486 | a line is trusted for exactly the payload of its envelope when it has the prefix and the signature of that payload under a non-empty key |
| LogRetention.EventsStamped | bench/bench_ltx_video.py:464-491 | each trusted line adds one event with its own clock reading and the worker's time, kept by the log or not; no other line does |
| MeasuredBar.Bar.Advance | bench/bench_ltx_video.py:210-234 | an item is one step event; exhaustion is a stage end if there was a step |
| MeasuredBar.Bar.ForLoop | bench/bench_ltx_video.py:207-234 | one loop emits its steps in order, and then one stage end exactly when it ran out of items |
| MeasuredBar.StepsAre | bench/bench_ltx_video.py:226-234 | one step event for every item, numbered from one |
| StepTiming.StageDurationSamples | bench/bench_ltx_video.py:515-532 | every stage gets exactly its gaps and its end sample |
| StepTiming.GapsTelescope | bench/bench_ltx_video.py:516-521 | the gaps of a contiguous stage add up to the time from its first to its last step |
| StepTiming.SamplesTelescope | bench/bench_ltx_video.py:515-532 | one sample per step up to the stage end, or one fewer without an end; non-negative on sorted events |
| StepTiming.AnnotateStepBoundaries | bench/bench_ltx_video.py:542-547 | in place, each event but the last gets its gap in the field its neighbour's stage selects |
| StepTiming.NotesCoverSpan | bench/bench_ltx_video.py:542-547 | gaps and transitions together are the whole first-to-last span |
| StepTiming.NotesAreGaps | bench/bench_ltx_video.py:535-547 | the durations noted on a stage's steps are exactly the gaps of its samples, and exactly the gaps to another stage are noted as transitions |
| Timeline.Project | bench/bench_ltx_video.py:911-941 | the steps sorted by the observed times, timed by worker stamps if all anchored events have one, and the last end of each stage |
| Timeline.ProjectedSteps | bench/bench_ltx_video.py:911-939 | steps are the step events in order of the controller's stamps, ties in the order handled, timed by that stamp or by the worker's nanoseconds since the start |
| Timeline.AnchoredExactly | bench/bench_ltx_video.py:922-934 | worker stamps are used exactly if the first ready event, all steps and stage ends and the first completion have one |
| Timeline.LastEndCounts | bench/bench_ltx_video.py:940 | a stage ends at the last of its end events |
| Timeline.ProjectedSorted | bench/bench_ltx_video.py:911-941 | the projected steps are in order of time exactly when worker stamps are unused or do not decrease along the sorted steps |
| Timeline.OnePipeSorted | bench/bench_ltx_video.py:911-941 | for steps from one pipe the condition is on the order of handling |
| Timeline.NotesNonNegative | bench/bench_ltx_video.py:542-547 | no gap or transition is negative exactly when the steps are in order of time |
| Timeline.RetimedNegative | bench/bench_ltx_video.py:930-938 | steps handled in the opposite of the order they were stamped in give a negative sample |
| ProcessGroup.WaitForProcessGroupExit | bench/bench_ltx_video.py:550-560 | at most patience + 1 probes, all but the last finding the group: true exactly if the last found none, false exactly after patience + 1 that found it, an exception exactly on a refusal |
| ProcessGroup.TerminateProcessGroup | bench/bench_ltx_video.py:563-611 | in every interleaving: nothing is signalled exactly if the first look finds the leader finished; KILL is sent exactly if TERM was delivered and the wait after it expired; each signal goes to an unreaped leader's group, none to a reused identity; cleanup failed exactly if the second wait expired; exactly when the answer is true, false or an exception |
| RunVerdict.Controller.Check | bench/bench_ltx_video.py:883-894 | a mismatch or an unreadable fingerprint is noted unless an error already is |
| RunVerdict.Controller.CheckAll | bench/bench_ltx_video.py:650-674 | exactly which error is noted: the first of an earlier one, the model's and the runtime's |
| RunVerdict.Controller.TerminateWorker | bench/bench_ltx_video.py:782-790 | the first call stops the group as above; the second touches nothing and reports success |
| RunVerdict.Controller.PollUntilDone | bench/bench_ltx_video.py:793-832 | the loop's ending is determined by its looks at the leader and the turns: finished if the last look says so, past the deadline or raising exactly if the turn after a failed last look is the first late or broken one |
| RunVerdict.Controller.Guarded | bench/bench_ltx_video.py:792-881 | however polling ends the group was stopped, nothing being signalled only if the leader had finished; and exactly which error is noted |
| RunVerdict.Controller.Verdict | bench/bench_ltx_video.py:985-1044 | the status branches, no return code for a leader never reaped, and that a failed run leaves and reports no artifact |
| RunVerdict.Controller.RunOnce | bench/bench_ltx_video.py:614-1050 | an exception escapes exactly when a probe of the loop raises or a signal or probe of the group is refused; a reported run is completed if and only if the fingerprints match before and after, the worker launched, a look found it finished before any late turn, return code and events are good, no reader survived and the group was seen gone; exactly which error is reported, and which runs leave an artifact |
| RunVerdict.OneEnding | bench/bench_ltx_video.py:793-832 | the loop ends in exactly one way, and with a finished leader only if every clock reading until then was in time |
| RunVerdict.FirstErrorCounts | bench/bench_ltx_video.py:650-674 | the model's fingerprint error goes before the runtime's, unreadable and changed told apart |
| Bytes.EncodedPrefixFree | bench/bench_ltx_video.py:1265 | UTF-8 is self-delimiting |
| Bytes.Utf8Ends | bench/bench_ltx_video.py:1264-1265 | an announced number of code points can be read back from a longer byte string |
| Digests.ContentUpdates | bench/bench_ltx_video.py:1182-1196 | the updates fed to the hash, payloads in chunks, are the framed records |
| Digests.ContentInjective | bench/bench_ltx_video.py:1176-1196 | while each file is read at its stat size, different directories hash different byte strings |
| Digests.MisreadExactly | bench/bench_ltx_video.py:1182-1196 | a directory whose first file not read at its stat size is e hashes like honest files if and only if the bytes of e beyond that size, with the files after it, do |
| Digests.GrowingFileCollides | bench/bench_ltx_video.py:1191-1195 | for instance a file that grows between stat and read stands for an extra file |
| Digests.SourceInjective | bench/bench_ltx_video.py:1253-1270 | prefixing code points instead of bytes loses nothing |
| Digests.StatInjective | bench/bench_ltx_video.py:1212-1219 | lists of colon-free names hash different byte strings |
| Digests.ColonNameCollides | bench/bench_ltx_video.py:1216-1218 | every name with three numerals between colons stands for two files |
| Digests.AmbiguousExactly | bench/bench_ltx_video.py:1199-1219 | a file can be mistaken for others exactly when its name spells out the records of all but the last of them |
| Digests.SharedExactly | bench/bench_ltx_video.py:1199-1219 | whatever the names, a list shares its bytes with another if and only if it has two files or more, or one whose name spells out records |
| RecordFormats.ContentRecord | bench/bench_ltx_video.py:1188-1195 | a content record spelled out |
| RecordFormats.SourceRecord | bench/bench_ltx_video.py:1263-1270 | a source record with a name of fewer code points than bytes spelled out |
| RecordFormats.StatRecord | bench/bench_ltx_video.py:1216-1218 | a stat record spelled out |
| Spans.Occurrences | evals/tool_result_grader.py:751-763 | all occurrences, overlapping ones included, in order |
| Spans.ComputeSalientSpans | evals/tool_result_grader.py:766-789 | collecting, sorting and merging in place computes the merged spans |
| Spans.MergeCovers | evals/tool_result_grader.py:781-789 | merged spans are separated and cover exactly the union of the windows |
| Spans.SpansAreNearAnchor | evals/tool_result_grader.py:1199-1207 | an offset lies in a salient span exactly when it is near an anchor |
| Spans.SpansWhenMentioned | evals/tool_result_grader.py:837-846 | there are spans exactly when some term matches |
| DenyMarkers.HasDenyMarker | evals/tool_result_grader.py:792-826 | true exactly when a marker starts inside a span and introduces no comparison |
| DenyMarkers.DeniesNearAnchor | evals/tool_result_grader.py:792-819 | a denial is a marker near an anchor that introduces no bound |
| NumberGrading.ConversionRoundTrip | evals/tool_result_grader.py:222-254 | temperature conversions undo each other, and which units convert |
| SoleReports.TemperatureScales | evals/tool_result_grader.py:222-227 | 0 and 100 degrees Celsius are 32 and 212 degrees Fahrenheit and the scales run evenly between them, both ways |
| SoleReports.OtherConversions | evals/tool_result_grader.py:230-254 | bare values, values in the fact's unit and plain degrees of a temperature keep their number; percentages and temperatures never convert |
| NumberGrading.NumberCoverage | evals/tool_result_grader.py:1045-1091 | covered exactly when some candidate grounds the fact |
| NumberGrading.RelationCoverage | evals/tool_result_grader.py:1217-1245 | the same for a relation fact, through spans |
| NumberGrading.CoverageAgrees | evals/tool_result_grader.py:1076-1090 | once an anchor is named the two coverage tests agree on every answer |
| NumberGrading.UnitFactConflict | evals/tool_result_grader.py:1094-1136 | true exactly when two anchored measurements round differently and one is out of tolerance |
| NumberGrading.WrongValuePresent | evals/tool_result_grader.py:1139-1196 | true exactly when some anchored candidate excludes the fact or reports it out of tolerance |
| ConflictRounding.ConflictIsWrong | evals/tool_result_grader.py:1125-1136 | a conflict is a wrong value on facts whose interval ends do not round outwards |
| ConflictRounding.ConflictIsWrongIff | evals/tool_result_grader.py:1094-1196 | and on every answer whose numbers stand in its text only on those, for an anchor without digits |
| ConflictRounding.UnsafeWitness | evals/tool_result_grader.py:1094-1196 | such as an answer that names the anchor twice, each time with a numeral and unit within tolerance |
| ConflictRounding.NineDecimalsSafe | evals/tool_result_grader.py:1125-1132 | facts with at most nine decimals are safe |
| NumberGrading.GradeNumeric | evals/tool_result_grader.py:1315-1365 | coverage and contradiction, by denial, conflict or wrong value, are independent, and contradiction decides the status first; `SoleReports` says what that means number by number |
| NumberGrading.PresentMeans | evals/tool_result_grader.py:1328-1356 | present: grounded by a non-comparison within tolerance, no denial near an anchor, and no anchored value or comparison disagrees |
| SoleReports.StatusExactly | evals/tool_result_grader.py:1315-1365 | whatever numbers the answer has: contradicted exactly by a denial, a conflict or a wrong value, else present exactly if covered |
| SoleReports.SoleNumberDecides | evals/tool_result_grader.py:1045-1245 | the status by an undenied answer with one number, in plain arithmetic: comparison or value, near an anchor or not, convertible or not, bare, temporal |
| SoleReports.NumberByNumber | evals/tool_result_grader.py:1045-1196 | numbers cover a fact one by one and contradict it one by one, and conflicts are between two |
| SoleReports.TwoNumbersConflict | evals/tool_result_grader.py:1116-1136 | two numbers conflict exactly if both are measurements that round apart and not both to a value within tolerance |
| SoleReports.NineDecimals | evals/tool_result_grader.py:1125 | rounding to the nearest billionth, of two equally near to the even one |
| SoleReports.ReportGraded | evals/tool_result_grader.py:1045-1196 | a report such as "temperature is 20 c", in any unit: present if it converts to a value within tolerance, contradicted if to another, missing if it does not convert |
| SoleReports.OtherScaleGraded | evals/tool_result_grader.py:222-254 | a temperature reported in the other scale, decided in that scale's own arithmetic |
| SoleReports.TwentyCelsiusPresent | evals/tool_result_grader.py:222-254 | "temperature is 20 c" reports 68 degrees Fahrenheit |
| SoleReports.NothingDenied | evals/tool_result_grader.py:68-109 | an answer with neither an "n" nor an "f" denies nothing |
| SoleReports.FlatDenialContradicts | evals/tool_result_grader.py:792-819 | an anchor said to be any of the markers contradicts its fact, whatever numbers follow |
| Comparatives.OppositeDenies | evals/tool_result_grader.py:909-922 | the negated comparisons of the table are the denials of the plain ones |
| Comparatives.NegationRead | evals/tool_result_grader.py:893-964 | read back from the characters of the text: after "no" or "not" a comparison is its denial exactly for six adjectives |
| SurfaceForms.TokenSpells | evals/tool_result_grader.py:893-923 | each word of the table is read from its own spelling only |
| SurfaceForms.OneWordPhrase | evals/tool_result_grader.py:893-923 | the comparisons of one word |
| SurfaceForms.TwoWordPhrase | evals/tool_result_grader.py:893-923 | those of two words |
| SurfaceForms.ThreeWordPhrase | evals/tool_result_grader.py:893-923 | those of three words |
| SurfaceForms.LongestDecides | evals/tool_result_grader.py:942-978 | of the comparisons that end at the number the longest decides |
| SurfaceForms.TemporalRead | evals/tool_result_grader.py:853-884 | which words in front of a number make it a time |
| SurfaceForms.AsOfRead | evals/tool_result_grader.py:876-883 | "as of" and "as at" do |
| NegatedBounds.NotHigherThanMisread | evals/tool_result_grader.py:981-1042 | an answer that bounds the fact by its own value is graded contradicted exactly if the negation is not one of the known ones, or something else denies the fact |
| NegatedBounds.NegationIsNoDenial | evals/tool_result_grader.py:792-826 | a marker that ends in the negation of a "... than" comparison is no denial |
| GroundingReport.GradeFact | evals/tool_result_grader.py:1304-1365 | one fact's evidence, for text and numeric facts |
| GroundingReport.MalformedUncovered | evals/tool_result_grader.py:1406-1423 | the fact standing in for a malformed entry is never covered |
| GroundingReport.ClampedUnlessTooLong | evals/tool_result_grader.py:364-421 | a fact is reported as clamped exactly if clamping changes it |
| GroundingReport.GradeAll | evals/tool_result_grader.py:1434-1450 | every fact's evidence, and which facts are listed as missing and as contradicted |
| GroundingReport.KeysWithExactly | evals/tool_result_grader.py:1446-1450 | a name is in a list exactly if a fact with that status has it |
| GroundingReport.KeysInOrder | evals/tool_result_grader.py:1446-1450 | facts are listed in the order given |
| GroundingReport.KeysPartition | evals/tool_result_grader.py:1446-1450 | every fact is missing, contradicted or present, once |
| GroundingReport.NothingNamed | evals/tool_result_grader.py:1446-1450 | both lists are empty exactly if every fact is covered and uncontradicted |
| GroundingReport.GradeAnswer | evals/tool_result_grader.py:1396-1491 | the report's fields and lists, with overflow, empty lists, truncation and clamping failing it |
| GroundingReport.OverallMeans | evals/tool_result_grader.py:1464-1485 | passing means 1 to 50 well-formed uncut facts, a whole answer, and every fact grounded by it; passing implies coverage |
| ReportMeaning.CoverageMeans | evals/tool_result_grader.py:1486-1491 | the coverage flag: 1 to 50 well-formed uncut facts, each covered by the answer up to its cap |
| ReportMeaning.ClampedKeepsPrefixes | evals/tool_result_grader.py:364-421 | clamping keeps the first characters of every text and changes nothing else |
| ReportMeaning.StringCovered | evals/tool_result_grader.py:822-834 | a text fact is covered exactly if its value or an alias stands in the answer, never by its key |
| ReportMeaning.StringContradicted | evals/tool_result_grader.py:294-309 | and contradicted exactly if a marker that introduces no bound stands near its key, value or an alias |
| ReportMeaning.NumericEvidence | evals/tool_result_grader.py:312-361 | a numeric fact is graded by its number, unit and tolerance, anchored at its key and aliases |
| ReportMeaning.ListsMean | evals/tool_result_grader.py:1443-1463 | the report names exactly the contradicted facts as contradicted, and as missing exactly those neither contradicted nor covered and what was not graded |
| ParallelCalls.CheckParallelCalls | evals/run_eval.py:772-818 | the loops compute the greedy assignment's count |
| ParallelCalls.AssignOneToOne | evals/run_eval.py:774-802 | the greedy assignment is one to one, between equal names, with scores of at least one half |
| ParallelCalls.MaximumExactly | evals/run_eval.py:774-802 | for all scores: the greedy count is maximum on every selection and order if and only if no expectation is tempted by a call that another needs |
| ParallelCalls.MaximumWithoutFuzzy | evals/run_eval.py:784-802 | in exact and containment modes: if and only if any two expectations accept the same calls or none in common |
| ParallelCalls.GreedyIsMaximum | evals/run_eval.py:774-802 | without temptation no one-to-one matching is larger |
| ParallelCalls.ExactIsMaximum | evals/run_eval.py:784-802 | in exact mode the count is the multiset intersection's size, and no matching has more |
| ParallelCalls.ContainsNotMaximum | evals/run_eval.py:786-802 | an expectation without arguments is tempted: it takes the only call the next one accepts, where a full matching exists |
| FuzzyArguments.FuzzyMatchArgs | evals/run_eval.py:664-693 | the loop computes the score, in whatever order the expected arguments stand |
| FuzzyArguments.CreditBounds | evals/run_eval.py:671-692 | which arguments have full credit and which none: overlap either way, shared words, empty and missing texts, other values |
| FuzzyArguments.FuzzyScoreBounds | evals/run_eval.py:664-693 | the score is between 0 and 1, and exactly when it is either |
| FuzzyArguments.OneTextAccepts | evals/run_eval.py:671-690 | one expected text accepts a call exactly by overlap or by half of its words |
| FuzzyArguments.FuzzyNotMaximum | evals/run_eval.py:774-802 | two expectations and two calls on which greedy matches one of two in the default mode |
| ToolCallDeltas.MergeDelta | evals/run_eval.py:557-572 | one fragment opens or updates its index's call |
| ToolCallDeltas.MergedByProjection | evals/run_eval.py:556-572 | each index holds its own fragments joined, with its last non-empty name and id |
| ToolCallDeltas.ArgumentsJoin | evals/run_eval.py:571-572 | arguments join in arrival order |
| ToolCallDeltas.NameIsLast | evals/run_eval.py:569-570 | the name is the last non-empty one |
| ToolCallDeltas.IdIsLast | evals/run_eval.py:559-567 | the id is the last non-empty one, and failing that made from the index unless the first was empty |
| ToolCallDeltas.SameProjectionsSameCalls | evals/run_eval.py:556-577 | streams with equal fragments per index give equal lists of calls |
| ToolCallDeltas.NeighboursCommute | evals/run_eval.py:556-572 | swapping neighbouring fragments of different indices changes nothing |
| ToolCallDeltas.SortedKeys | evals/run_eval.py:576 | the keys in increasing order |
| ToolCallDeltas.OrderUnique | evals/run_eval.py:576 | there is only one such order |
| ToolCallDeltas.StreamToolCalls | evals/run_eval.py:526-577 | a stream's calls, reassembled per index and listed by increasing index |
| LandingGate.CollectResults | bench/bench_spec_decode_mtp.py:659-690 | the nested loops collect exactly the generations that did not raise, one per cell |
| LandingGate.LosslessGateExact | bench/bench_spec_decode_mtp.py:288-304 | the lossless half passes exactly when every cell was generated under both conditions with equal hashes |
| LandingGate.GateExact | bench/bench_spec_decode_mtp.py:278-318 | everything the gate reports over every grid: pairs, mismatches, both halves with and without a requirement, and that it passes exactly if both halves do |
| LandingGate.SpeedGateComplete | bench/bench_spec_decode_mtp.py:296-304 | a speed requirement passes only on a complete grid |
| LandingGate.MtpOnlyFailsLossless | bench/bench_spec_decode_mtp.py:296-304 | without baseline runs the gate over a non-empty grid passes exactly if nothing is asked |
| VoiceActivity.MinimumNeverDecides | examples/mic_live.py:127-134 | silence is never longer than speech, so a minimum speech length up to the silence trigger never decides |
| VoiceActivity.TriggerMeans | examples/mic_live.py:127-134 | the test in terms of the last speech block before the silence |
| VoiceActivity.SpeechBlockOnce | examples/mic_live.py:113-151 | every speech block is in exactly one segment or in the residual buffer |
| VoiceActivity.LiveTranscriber.ProcessBlocks | examples/mic_live.py:104-156 | segments are contiguous runs in order that start with speech and end at a silent block that passes the test, without exceptions the first; each is one successful attempt, and the transcript is their texts of more than one character |
| VoiceActivity.LiveTranscriber.ProcessAudioStream | examples/mic_live.py:102-164 | the same with the tail, handed over exactly when longer than half a second; no speech is lost exactly then or when nothing is buffered |
| VoiceActivity.ShortTailLost | examples/mic_live.py:158-164 | what is buffered at the stop begins with speech, so some is lost exactly when there is a rest that is not handed over |
| MaskFolding.TokenAt | ltx_pipelines_mlx/iclora_utils.py:92 | row-major token i holds the value of its (frame, row, column), for masks and reference latents alike |
| MaskFolding.TokenIndexInjective | ltx_pipelines_mlx/iclora_utils.py:140-144 | different positions have different tokens |
| MaskFolding.RowMajor | ltx_pipelines_mlx/iclora_utils.py:140-144 | tokens run along the row, then the next row, then the next frame |
| MaskFolding.MeanFrame | ltx_pipelines_mlx/iclora_utils.py:85-87 | the mean of a run of frames, position by position |
| MaskFolding.Downsample | ltx_pipelines_mlx/iclora_utils.py:77-93 | first frame kept, then means of runs of t; exactly which frame counts are compatible |
| MaskFolding.MassConserved | ltx_pipelines_mlx/iclora_utils.py:85-88 | t times the latent sum is the pixel sum over all frames but the first |
| MaskFolding.FoldBounded | ltx_pipelines_mlx/iclora_utils.py:77-93 | bounds of the pixel values are bounds of the latent values |
| MaskFolding.VaeFramesFit | ltx_pipelines_mlx/iclora_utils.py:131-135 | the rounded count is the largest that fits exactly when at least nine frames are allowed |

## Left out

- Floating-point rounding, overflow and the precision of `logsumexp`: probabilities, times and mask values are real numbers.
- A uniform draw of exactly 0.0 in the sampler, for which `math.log` raises: draws are strictly between 0 and 1.
- Seeds, wall-clock timing, memory statistics and decoding in the sampler's summary; the model, tokenizer and `generate` are given by their probabilities.
- Regular expressions, JSON syntax, Unicode normalisation and HMAC: number candidates, a parse/print pair, a normaliser and a digest are parameters with stated laws. A signature is taken to be the worker's alone: no stretch of its output without a whole emitted line would be trusted.
- Null and empty tool-call ids are not distinguished, and `tool_calls` deltas arrive already parsed.
- EventChannel.Channel.HandleLine: a line is one atomic step; the unsynchronised interleaving of two reader threads inside one call is not modelled.
- RunVerdict.Controller.RunOnce: an exception can come from a probe or a refused signal; one raised anywhere else, such as by starting a thread, is not modelled. Sampling of memory and swap and the timing fields of the result are left out.
- EventDelivery.EventsEndToEnd, and with it `PipeReading.StreamDelivers`: a worker killed in the middle of an event's line counts as having written unsigned text there; one killed between a line and its newline is outside the claim.
- Spans: whole-word search is modelled by its matches, not by the regular expression engine; terms keep duplicates, which do not change the merged spans.
- GroundingReport.GradeAnswer: the evidence text of the report is not modelled.
- ConflictRounding.ConflictIsWrongIff: number extraction is a regular expression; the witness is a text whose numbers are all those read. Anchors with digits are read as numbers themselves and are outside the claim.
- ParallelCalls.CheckParallelCalls: arguments arrive parsed (invalid JSON as empty arguments), and the scores are parameters that `FuzzyArguments.ArgumentScoring` fills in.
- FuzzyArguments.FuzzyMatchArgs: `str.lower` and the class of word characters are parameters.
- MaskFolding.Downsample: the box resize and eight-bit quantisation of frames, and the batch axis, are abstracted; frames arrive at latent resolution.
- LandingGate.GateExact: pooled throughput statistics are a parameter of the gate, and the list of mismatches is a set.
- VoiceActivity: measuring the level of a block and writing audio files are outside the model.
- The tensor pipelines, HDR transforms, network plumbing, command lines, report printing and text-extraction heuristics of the repository.
