# Verified models of benchmark and tooling algorithms

The repository is an LLM serving system. This project models the parts of its benchmark drivers and
tools that are algorithms or protocols in their own right, and proves what they promise on every
input, every run and every interleaving. `dafny verify dfyconfig.toml` checks all of it.

**Span tracks** (`SpanContainer`, `SpanLayout`, `SpanProperties`, `SpanGreedy`, `StableSort`,
`PerfettoTracks`, `PerfettoTheorems`). The trace converter puts each span of each process on a numbered line: the line
the request used last, else the first line without a conflict, else a new one. A line is a sorted
list searched by bisection and compared with two neighbours. The neighbour test is compared with the naive scan
on every sorted line; with spans of positive length they agree, the lines are free of overlaps, and within
a room sorted by start the number of lines is the smallest possible. A zero-length span takes the
sticky line without a check. Two exact conditions are proved for whole layouts: no overlap at all
iff no instant was put onto an occupied one, and no overlap between spans of positive length iff
no placement was blinded by an instant that stands before a longer span still open. Concrete
traces show two longer spans overlapping, and an instant that breaks only the first property. The
order of the rooms and the line of every single span are stated from the spans alone, so the whole
layout is determined.

**Multi-turn load** (`MultiTurn`, `MultiTurnSafety`, `MultiTurnTheorems`, `MultiTurnOrder`). A sender thread,
asynchronous requests and a handler thread share two queues and two counters, with an optional
barrier between rounds. Every atomic action is a step; a run is any enabled list of steps, so the
theorems cover all interleavings, requests that fail and requests that are never answered.

**Serving queue** (`ServingTurn`, `ServingQueue`, `ServingSafety`, `ServingTheorems`). Conversations
go round a bounded queue; each fetched turn becomes a task behind an optional semaphore, and an
answered conversation is put back. Failures and the fetch time-out are steps too. A conversation
without prompts is queued like any other; its task raises an IndexError and spends a loop
iteration that was meant for a turn, and when that happens is characterised exactly.

**Line retrieval** (`Redirects`, `LineQueries`). Following redirects with ring detection while the
values are overwritten in place, and the query filter that cuts the list off.

**Answer extraction** (`Splitting`, `AnswerExtraction`, `FracNormalisation`, `FracMeaning`, `FracText`).
Boxed answers by brace matching, and the `\frac` rewriter, over a multi-character split. TeX's
reading of the two arguments, and of a whole text with nested fractions, is defined separately from the
rewriter; exactly when rewriting keeps it is proved for both. It is lost where an argument without
braces is a control sequence, other than an escaped closing brace in second place, and where braces
are added behind a `\frac` whose backslash is itself escaped.

**Smaller cores**: tile grids for images (`ImageTiling`), the dirty-flag vocabulary cache and reduced
logits (`Vocabulary`), streaming latencies (`StreamLatency`), checkpoint shards
(`CheckpointSharding`). `Bags`, `Arithmetic` and `Options` are shared helpers.

Times and ratios are integers or reals, so rounding is not modelled. Replies, texts, token counts,
clock readings and random draws are arbitrary inputs.

## Model

| member | source | states |
|---|---|---|
| `SpanContainer.BisectLeft` | scripts/convert_otel_2_perfetto.py:59-59 | the binary search returns the number of leading entries below the key |
| `SpanContainer.LowerBoundCuts` | scripts/convert_otel_2_perfetto.py:59-59 | on a sorted line an entry is below the key exactly when its index is below that number |
| `SpanContainer.SpanLayoutContainer.CheckOverlap` | scripts/convert_otel_2_perfetto.py:58-70 | the method computes the two-neighbour test of the stored list |
| `SpanContainer.SpanLayoutContainer.InsertSpan` | scripts/convert_otel_2_perfetto.py:72-73 | the list becomes the sorted insertion of the span and stays sorted |
| `SpanContainer.InsertedSorted` | scripts/convert_otel_2_perfetto.py:72-73 | sorted insertion keeps the list in tuple order |
| `SpanContainer.InsertedPermutes` | scripts/convert_otel_2_perfetto.py:72-73 | insertion adds exactly the new interval, with multiplicity |
| `SpanContainer.NeighbourTestExact` | scripts/convert_otel_2_perfetto.py:58-70 | on every sorted line the two-neighbour test is true iff some stored interval overlaps the query and is not hidden behind the neighbours, or a zero-length one sits at the start of a positive-length query |
| `SpanContainer.NothingHidden` | scripts/convert_otel_2_perfetto.py:58-70 | on a line without overlaps nothing is hidden, so there the test is the naive scan up to that false alarm |
| `SpanContainer.MissesLongIff` | scripts/convert_otel_2_perfetto.py:58-70 | on a sorted line whose positive-length spans do not overlap, the test is silent while one of them overlaps the query iff the entry before the start is an instant inside a longer span still open there and the next entry begins at the end or later |
| `SpanContainer.InsertedDisjoint` | scripts/convert_otel_2_perfetto.py:72-73 | the line stays free of overlaps, of all spans or of those with positive length, iff it was and the naive scan finds nothing in the way |
| `SpanLayout.FirstFree` | scripts/convert_otel_2_perfetto.py:111-114 | the first-fit scan returns the lowest-numbered line whose test is silent, or none when every line's test fires |
| `SpanLayout.OpenedWellFormed` | scripts/convert_otel_2_perfetto.py:116-120 | opening a line keeps lines numbered 1..n with one metadata record per track |
| `SpanLayout.FindLineCases` | scripts/convert_otel_2_perfetto.py:95-120 | the answer is the unchecked sticky line, an existing silent line, or line n+1 when all n lines conflict; numbering, metadata and sticky lines stay consistent |
| `SpanLayout.Place` | scripts/convert_otel_2_perfetto.py:242-254 | a placement keeps: lines numbered 1..n, one metadata record each, sticky lines exist, every line sorted and holding exactly the spans given its number |
| `SpanLayout.RunRooms` | scripts/convert_otel_2_perfetto.py:239-254 | the same over all rooms, and every span is laid out in order |
| `SpanProperties.ChosenLineFree` | scripts/convert_otel_2_perfetto.py:95-120 | the chosen line has a span in the way iff the zero-length branch was taken onto an occupied instant; it has a positive-length span in the way of another iff an instant hides it |
| `SpanProperties.PlaceKeepsCleanIff` | scripts/convert_otel_2_perfetto.py:96-102 | one placement keeps the layout free of overlaps iff it does not take the unchecked branch onto an occupied instant, and free of overlaps between positive-length spans iff it is not blinded by an instant |
| `SpanProperties.LayoutConflictFreeIff` | scripts/convert_otel_2_perfetto.py:239-254 | a whole layout shows no two overlapping spans, instants included, on one line iff no step took the unchecked branch onto an occupied instant |
| `SpanProperties.LongSpansConflictFreeIff` | scripts/convert_otel_2_perfetto.py:239-254 | a whole layout shows no two overlapping spans of positive length on one line iff no step was blinded by an instant |
| `SpanProperties.PositiveLayoutClean` | scripts/convert_otel_2_perfetto.py:95-120 | with positive-length spans, any rooms in any order: every line non-overlapping and the neighbour test equal to the naive scan on every query |
| `SpanProperties.SearchIsStickyThenLowest` | scripts/convert_otel_2_perfetto.py:95-120 | the search gives the sticky line if a full scan of it finds no overlap, else the lowest line that a full scan finds free, opened or not; and that line becomes sticky |
| `SpanProperties.OpensOnlyWhenFull` | scripts/convert_otel_2_perfetto.py:111-120 | a new line is opened only when every existing line of the process holds a span overlapping the new one |
| `SpanProperties.LineCountBounded` | scripts/convert_otel_2_perfetto.py:104-120 | for any rooms, the number of lines is at most one plus the most other spans overlapping some one span |
| `SpanProperties.LineCountReachesPeak` | scripts/convert_otel_2_perfetto.py:104-120 | with spans in start order, some instant is covered by as many spans as there are lines |
| `SpanProperties.CoverNeedsLines` | scripts/convert_otel_2_perfetto.py:230-254 | any overlap-free assignment uses at least as many lines as spans cover one instant |
| `SpanProperties.LayoutOptimal` | scripts/convert_otel_2_perfetto.py:95-120 | with spans in start order the line count is the peak number of live spans and no overlap-free assignment uses fewer |
| `SpanGreedy.StickyIsLast` | scripts/convert_otel_2_perfetto.py:95-120 | after the spans of a room a process has a sticky line iff it has a span there (or had one before), and it is the line of its last span |
| `SpanGreedy.LayoutIsGreedy` | scripts/convert_otel_2_perfetto.py:239-254 | for any rooms and spans: a span stays on the line of the span of its process before it in its room if it is an instant or the test there is silent; otherwise it takes the lowest line, opened or not, whose test against the earlier spans is silent |
| `SpanGreedy.GreedyDetermines` | scripts/convert_otel_2_perfetto.py:95-120 | that rule leaves exactly one line for each span, given the lines before it |
| `SpanGreedy.BlockedIffMeets` | scripts/convert_otel_2_perfetto.py:111-114 | with positive lengths the deciding test is the overlap with an earlier span of that line |
| `SpanGreedy.RunRoomsMeta` | scripts/convert_otel_2_perfetto.py:104-120 | the metadata records are the tracks in the order of their first spans |
| `StableSort.SortBySorts` | scripts/convert_otel_2_perfetto.py:231-238 | sorting by key gives an ascending, stable permutation |
| `StableSort.SortIndices` | scripts/convert_otel_2_perfetto.py:231-238 | the sorted list is the list at indices in the order of their keys and, among equal keys, in the original order |
| `PerfettoTracks.Tracks.FindLine` | scripts/convert_otel_2_perfetto.py:95-120 | the in-place method returns and stores what the line search of the model gives |
| `PerfettoTracks.Tracks.FirstFit` | scripts/convert_otel_2_perfetto.py:111-114 | the loop over the existing lines finds the first free one |
| `PerfettoTracks.Tracks.Generate` | scripts/convert_otel_2_perfetto.py:230-254 | the in-place pass produces the run of the model over the rooms so ordered, or fails without changing anything on an empty room |
| `PerfettoTheorems.OneRoomOptimal` | scripts/convert_otel_2_perfetto.py:230-254 | one room of positive-length spans in any order gets exactly the peak number of lines per process |
| `PerfettoTheorems.EverySpanLaidOut` | scripts/convert_otel_2_perfetto.py:230-254 | the pass fails iff some room has no spans; otherwise it lays out every span exactly once |
| `PerfettoTheorems.RoomsInOrder` | scripts/convert_otel_2_perfetto.py:231-238 | the rooms laid out are the rooms, each stably sorted by start, in the order of their earliest spans, and in their original order where these start together |
| `PerfettoTheorems.LayoutOfPositiveSpans` | scripts/convert_otel_2_perfetto.py:230-254 | the result shows no overlap, numbers lines 1..n with one record each, and meets the line bound |
| `PerfettoTheorems.ZeroLengthHidesConflict` | scripts/convert_otel_2_perfetto.py:96-102 | a three-span room where a zero-length span makes two longer ones overlap on line 1, so its placements are not all harmless to longer spans |
| `PerfettoTheorems.InstantAlone` | scripts/convert_otel_2_perfetto.py:96-102 | the same room without its last span breaks the first condition and meets the second |
| `MultiTurn.ReadyQueue.Append` | benchmark/hicache/bench_multiturn.py:257-259 | the request goes to the end and the others stay |
| `MultiTurn.ReadyQueue.Pop` | benchmark/hicache/bench_multiturn.py:261-272 | one request is taken out, the first under fifo; nothing on an empty queue; an error and no change under an unknown policy |
| `MultiTurn.PopIsStep` | benchmark/hicache/bench_multiturn.py:261-272 | what the queue can hand out and leave behind is exactly what a pop step of the protocol does, both ways |
| `MultiTurnSafety.NoCrash` | benchmark/hicache/bench_multiturn.py:437-441 | no step hits an empty sub-question list or an unknown client |
| `MultiTurnSafety.QuestionLeft` | benchmark/hicache/bench_multiturn.py:305-308 | a client that goes on to another round finds a sub-question |
| `MultiTurnSafety.PlacesStep` | benchmark/hicache/bench_multiturn.py:359-457 | every step keeps how often each client occurs over all places |
| `MultiTurnSafety.CountersStep` | benchmark/hicache/bench_multiturn.py:372-435 | every step keeps the equations between sent, completed, progress and queue sizes, and the parallel limit |
| `MultiTurnSafety.BarrierFull` | benchmark/hicache/bench_multiturn.py:450-455 | a full barrier list means every client has just completed the round |
| `MultiTurnSafety.LevelStep` | benchmark/hicache/bench_multiturn.py:437-457 | with the barrier, live requests stay on one round and whoever is ahead waits |
| `MultiTurnSafety.TranscriptStep` | benchmark/hicache/bench_multiturn.py:411-441 | each history is the alternation of questions and replies, two per round, question first |
| `MultiTurnSafety.PayloadsStep` | benchmark/hicache/bench_multiturn.py:439-457 | every unanswered request carries its client's whole history |
| `MultiTurnTheorems.RunInv` | benchmark/hicache/bench_multiturn.py:286-457 | all of these hold in every state of every run |
| `MultiTurnTheorems.BarrierSafety` | benchmark/hicache/bench_multiturn.py:450-457 | with the barrier, a request for round r is live only if every client has completed r rounds, failures included; no two clients are more than one round apart |
| `MultiTurnTheorems.ClientConservation` | benchmark/hicache/bench_multiturn.py:369-457 | in every state each client is in exactly one place, completed requests are the sum of rounds, and sent minus completed stays within the limit |
| `MultiTurnTheorems.FailuresHoldSlots` | benchmark/hicache/bench_multiturn.py:372-372 | failed requests keep their slots: with as many failures as slots the sender's test fails |
| `MultiTurnTheorems.SenderStopsForGood` | benchmark/hicache/bench_multiturn.py:369-382 | from then on no continuation of the run sends another request |
| `MultiTurnTheorems.WorkStep` | benchmark/hicache/bench_multiturn.py:369-457 | every step but a poll strictly reduces the remaining work, failing steps included |
| `MultiTurnTheorems.RunBounded` | benchmark/hicache/bench_multiturn.py:369-457 | every run has at most 16 * rounds + 8 steps per client besides polls |
| `MultiTurnTheorems.NoDeadlock` | benchmark/hicache/bench_multiturn.py:369-457 | a run that is not quiet can take a step that reduces work and does not fail, at once or after one poll |
| `MultiTurnTheorems.QuietMeansDone` | benchmark/hicache/bench_multiturn.py:402-457 | a quiet state has exactly clients * rounds completions iff no request failed or was lost, and then everyone is finished |
| `MultiTurnTheorems.FailureFreeRunCompletes` | benchmark/hicache/bench_multiturn.py:402-457 | every failure-free run that falls quiet has clients * rounds completions, any interleaving, barrier and policy |
| `MultiTurnTheorems.FullProgressMeansSent` | benchmark/hicache/bench_multiturn.py:381-382 | the exit test of the sender loop holds only when nothing is ready, in flight or at the barrier and each client has used all its rounds |
| `MultiTurnTheorems.SenderLeavesIff` | benchmark/hicache/bench_multiturn.py:372-382 | once quiet, the sender's loop can be left iff progress is full and failures leave a slot free, that is iff every client failed at most in its last round, none was lost, and fewer failed than may run in parallel |
| `MultiTurnOrder.EachQuestionOnce` | benchmark/hicache/bench_multiturn.py:437-441 | in every state of every run the sub-questions left are a prefix of the list, and the others were asked, after the first questions, exactly as often as they stand in it |
| `MultiTurnOrder.ReadyStep` | benchmark/hicache/bench_multiturn.py:443-457 | every step leaves the ready queue alone, pops from it, or appends to it as the queue's own methods do |
| `MultiTurnOrder.MadeInOrder` | benchmark/hicache/bench_multiturn.py:443-457 | over every run requests go to the ready queue in the order they are made, those held back by the barrier last and in the order they came |
| `MultiTurnOrder.ReadyInOrder` | benchmark/hicache/bench_multiturn.py:257-272 | over every run requests leave the ready queue under fifo in the order they were put in, and under any policy none is lost or doubled |
| `MultiTurnOrder.HandledInOrder` | benchmark/hicache/bench_multiturn.py:402-411 | over every run responses are handled in the order they are delivered |
| `ServingTurn.RequestFuncInput.StartTurn` | benchmark/hicache/bench_serving.py:97-114 | the request carries the conversation with the new prompt and the lengths so far; error when there is no such turn |
| `ServingTurn.RequestFuncInput.FinishTurn` | benchmark/hicache/bench_serving.py:170-188 | the real output length and the reply are recorded, and the conversation is to be put back iff turns are left |
| `ServingSafety.CarriedIsTurnRequest` | benchmark/hicache/bench_serving.py:97-114 | the request for turn k is the original prompts and replies of all earlier turns with their real lengths |
| `ServingSafety.AccountsAnswered` | benchmark/hicache/bench_serving.py:170-188 | an answer keeps prompts, requests, position and messages accounted for |
| `ServingSafety.PlacesStep` | benchmark/hicache/bench_serving.py:261-281 | every step keeps each conversation in exactly one place |
| `ServingSafety.RaisesIff` | benchmark/hicache/bench_serving.py:97-99 | a step raises an IndexError iff it starts a conversation without prompts |
| `ServingTheorems.RunInv` | benchmark/hicache/bench_serving.py:412-491 | conservation, accounting and counters hold in every state of every run, conversations without prompts included |
| `ServingTheorems.TurnsInOrder` | benchmark/hicache/bench_serving.py:97-188 | turns are sent at most once and in order; turn k carries 2k+1 alternating messages, user first, and the real length of all earlier turns plus its input |
| `ServingTheorems.PutNeverBlocks` | benchmark/hicache/bench_serving.py:419-419 | the queue never exceeds its size, putting back always finds room, and the semaphore limit holds |
| `ServingTheorems.FetchedInQueueOrder` | benchmark/hicache/bench_serving.py:184-188 | from any state the next fetches take its queue in order, whatever is put back meanwhile |
| `ServingTheorems.FirstTurnsFirst` | benchmark/hicache/bench_serving.py:458-466 | the opening fetches of every run are conversations 0, 1, 2, ..., before any second turn |
| `ServingTheorems.NoStarvation` | benchmark/hicache/bench_serving.py:266-275 | without failures an empty queue before the last fetch means some conversation is under way |
| `ServingTheorems.TimedOutShort` | benchmark/hicache/bench_serving.py:266-275 | without failures the fetch times out only while some conversation is under way, and a loop that timed out never reaches its last iteration |
| `ServingTheorems.EarlyFailureStarves` | benchmark/hicache/bench_serving.py:189-191 | a conversation that fails before its last turn keeps the loop from its last iteration, apart from iterations spent on conversations without prompts |
| `ServingTheorems.EveryTurnFetchedIff` | benchmark/hicache/bench_serving.py:412-491 | a settled run fetched every turn iff no conversation failed before its last turn and no IndexError was raised |
| `ServingTheorems.SettledMeansDone` | benchmark/hicache/bench_serving.py:458-491 | a settled state without failures has answered every turn iff no IndexError was raised; then with one loop iteration each, and only conversations without prompts are left in the queue |
| `ServingTheorems.FailureFreeRunCompletes` | benchmark/hicache/bench_serving.py:458-491 | a settled run without failures has answered every turn iff no conversation without prompts stands among as many as there are turns; each that does costs one turn |
| `ServingTheorems.RaiseReachableIff` | benchmark/hicache/bench_serving.py:97-99 | some run raises an IndexError for conversation c iff c has no prompts and its position is below the number of turns |
| `ServingTheorems.EmptyConversations` | benchmark/hicache/bench_serving.py:97-99 | of conversations with one, no and one prompt the second costs a turn; of one and none it is never fetched |
| `ServingTheorems.WorkStep` | benchmark/hicache/bench_serving.py:261-281 | every step strictly reduces the remaining work |
| `ServingTheorems.RunBounded` | benchmark/hicache/bench_serving.py:261-281 | every run has at most 8 steps per turn, 5 per conversation and one more |
| `ServingTheorems.NoDeadlock` | benchmark/hicache/bench_serving.py:394-410 | a run that is neither settled nor timed out can go on without a failure or time-out |
| `ServingTheorems.FlattenShape` | benchmark/hicache/bench_serving.py:416-419 | flattening for shared prefixes keeps the number of requests, one turn each |
| `ServingTheorems.FlattenInOrder` | benchmark/hicache/bench_serving.py:416-419 | prompt j of conversation i becomes the one prompt of the request after all earlier ones |
| `Redirects.StopExists` | benchmark/line_retrieval/gen_data.py:66-74 | every search ends, at an unredirected line or at the first line met twice |
| `Redirects.RingIff` | benchmark/line_retrieval/gen_data.py:71-74 | the search ends on a redirected line iff the chain never reaches an unredirected one |
| `Redirects.LandingIsFixed` | benchmark/line_retrieval/gen_data.py:66-75 | the line a search ends on is where its own search ends |
| `Redirects.LinkIsChain` | benchmark/line_retrieval/gen_data.py:66-76 | off a ring the recorded link is the redirect chain and ends where the value comes from |
| `Redirects.ChainUnique` | benchmark/line_retrieval/gen_data.py:66-69 | a line has at most one redirect chain |
| `Redirects.RingHasNoChain` | benchmark/line_retrieval/gen_data.py:71-74 | a line on a ring has none |
| `Redirects.FollowRedirects` | benchmark/line_retrieval/gen_data.py:63-74 | the loop terminates at that line, with the chain, or with no link iff the line is on a ring |
| `Redirects.ResolveAll` | benchmark/line_retrieval/gen_data.py:57-76 | despite overwriting in place every value is the original value of the line its search ends on; rings and links are exact |
| `LineQueries.GroupByNumHoops` | benchmark/line_retrieval/gen_data.py:78-83 | groups are increasing and hold every ring-free line exactly under its chain length plus one |
| `LineQueries.BuildGroups` | benchmark/line_retrieval/gen_data.py:57-83 | values, links, rings and groups together |
| `LineQueries.TruncatedChain` | benchmark/line_retrieval/bench_sglang.py:52-52 | a chain can be followed in the cut list iff it can in the full list and all its lines are left |
| `LineQueries.KeptIffResolvable` | benchmark/line_retrieval/bench_sglang.py:41-46 | the filter keeps a ring-free query before the cut iff it can be resolved from the lines that are left |
| `LineQueries.TruncationSafe` | benchmark/line_retrieval/bench_sglang.py:41-63 | resolving a kept query in the cut list takes the same chain to the same line |
| `LineQueries.MakeQuery` | benchmark/line_retrieval/bench_sglang.py:41-63 | an error iff no query qualifies; otherwise the answerable query with as many smaller answerable ones as the percentage of their number rounded down, at most one less than it; with the label that is found from the body, and four parts that join to the cut body |
| `LineQueries.SplitBody` | benchmark/line_retrieval/bench_sglang.py:54-62 | four parts that join to the body, the first three a quarter each |
| `Splitting.Find` | benchmark/reasoning_benchmark/answer_extraction.py:184-184 | the first occurrence, or -1 iff there is none |
| `Splitting.SplitThenJoin` | benchmark/reasoning_benchmark/answer_extraction.py:9-9 | joining the pieces of a split gives the text back |
| `Splitting.JoinThenSplit` | benchmark/reasoning_benchmark/answer_extraction.py:184-184 | splitting a join gives the pieces back when none contains the separator and it does not overlap itself |
| `AnswerExtraction.ClosingBraceIff` | benchmark/reasoning_benchmark/answer_extraction.py:185-191 | the scan stops at i iff i is a closing brace after a balanced text |
| `AnswerExtraction.ExtractBoxedAnswers` | benchmark/reasoning_benchmark/answer_extraction.py:182-197 | on any text the nested loops give, in order, the answer of every piece whose box closes and of no other |
| `AnswerExtraction.BoxedRoundTrip` | benchmark/reasoning_benchmark/answer_extraction.py:182-197 | extracting from a text of balanced boxes gives back exactly the contents iff no box is followed by a percent sign; such a box keeps its brace |
| `AnswerExtraction.PieceAnswerIff` | benchmark/reasoning_benchmark/answer_extraction.py:185-196 | on any text a piece gives what stands before its closing brace, and nothing if there is none |
| `AnswerExtraction.AnswersBalanced` | benchmark/reasoning_benchmark/answer_extraction.py:182-197 | every answer of any text comes from a piece whose box closes at some i; it is balanced iff no percent sign follows there, and otherwise a balanced text with the brace kept |
| `AnswerExtraction.AnswersComplete` | benchmark/reasoning_benchmark/answer_extraction.py:182-197 | there is an increasing list of exactly the pieces whose box closes, and the answers are theirs one by one |
| `AnswerExtraction.AnswersConcat` | benchmark/reasoning_benchmark/answer_extraction.py:182-197 | the answers of two lists of pieces are the answers of one followed by those of the other |
| `FracNormalisation.FixFracs` | benchmark/reasoning_benchmark/answer_extraction.py:8-37 | the loop computes the rewritten text, or returns its input when a piece is too short |
| `FracNormalisation.GivesUpIff` | benchmark/reasoning_benchmark/answer_extraction.py:13-21 | the rewriter gives up iff behind some `\frac` there is no brace and the text ends or comes to the next `\frac` within two characters |
| `FracNormalisation.FixedPair` | benchmark/reasoning_benchmark/answer_extraction.py:22-35 | behind the first `\frac` a character gets braces, the next one too unless it is a brace, and the rest is rewritten as a text of its own |
| `FracNormalisation.FixedBrace` | benchmark/reasoning_benchmark/answer_extraction.py:15-16 | behind the first `\frac` a brace is left alone, and the rest is rewritten as a text of its own |
| `FracNormalisation.SplitFixed` | benchmark/reasoning_benchmark/answer_extraction.py:13-35 | rewriting creates no new `\frac`: splitting the result gives the rewritten pieces, all braced |
| `FracNormalisation.FixIdempotent` | benchmark/reasoning_benchmark/answer_extraction.py:8-37 | rewriting twice is rewriting once, on all strings |
| `FracNormalisation.FixBraces` | benchmark/reasoning_benchmark/answer_extraction.py:8-37 | every `\frac` of the result is followed by a brace iff the rewriter did not give up; it changes the text iff it did not give up and some `\frac` lacked one |
| `FracNormalisation.FixAddsOnlyBraces` | benchmark/reasoning_benchmark/answer_extraction.py:24-35 | apart from braces the result is the input |
| `FracMeaning.MeaningKeptIff` | benchmark/reasoning_benchmark/answer_extraction.py:18-35 | text after a `\frac` that TeX can read keeps numerator, denominator and rest iff it was braced, or neither argument is a control sequence except an escaped closing brace as the second |
| `FracMeaning.ControlSequenceBroken` | benchmark/reasoning_benchmark/answer_extraction.py:22-29 | `\frac\pi2` is read as pi over two and rewritten to a text whose numerator group never closes |
| `FracMeaning.EscapedBraceKept` | benchmark/reasoning_benchmark/answer_extraction.py:22-29 | `\frac1\}` and what it is rewritten to are read the same |
| `FracText.TextKeptIff` | benchmark/reasoning_benchmark/answer_extraction.py:8-37 | what TeX reads of a whole text, nested fractions included, is kept iff the rewriter gave up or every piece was braced or stands behind an unescaped `\frac` with such a head |
| `FracText.FractionOfTexts` | benchmark/reasoning_benchmark/answer_extraction.py:8-37 | the reading of a `\frac` of two readable braced texts is made of their readings, at any depth |
| `ImageTiling.TargetsAreAllGrids` | benchmark/mmmu/internvl_utils.py:47-53 | the candidates are all positive pairs whose product is within the bounds |
| `ImageTiling.TargetRatios` | benchmark/mmmu/internvl_utils.py:47-54 | the nested loops and the sort give the list of all such pairs in ascending order of product |
| `ImageTiling.FindClosestAspectRatio` | benchmark/mmmu/internvl_utils.py:24-37 | a closest ratio; among ties the last one passing the area test, else the first; (1, 1) for no candidates |
| `ImageTiling.LargeForIff` | benchmark/mmmu/internvl_utils.py:34-35 | the area test holds iff the image has more than half the pixels of the grid |
| `ImageTiling.DistanceIff` | benchmark/mmmu/internvl_utils.py:28-30 | a grid is within d of the aspect ratio iff its columns are within d times its rows of the exact number |
| `ImageTiling.ClosestUnique` | benchmark/mmmu/internvl_utils.py:24-37 | that choice is unique |
| `ImageTiling.BestGrid` | benchmark/mmmu/internvl_utils.py:47-59 | the tile count is within the bounds, no permitted grid is closer, and no tied grid with more tiles passes the area test |
| `ImageTiling.CropBoxes` | benchmark/mmmu/internvl_utils.py:61-79 | the loop builds one box per tile |
| `ImageTiling.OneTilePerPixel` | benchmark/mmmu/internvl_utils.py:69-75 | every pixel of the resized image is in exactly one box |
| `ImageTiling.TilesInBounds` | benchmark/mmmu/internvl_utils.py:69-75 | every box is a full tile inside the image |
| `ImageTiling.DynamicPreprocess` | benchmark/mmmu/internvl_utils.py:40-83 | an error iff the height or the tile size is zero; else the image is cut by the best permitted grid, with a box count within the bounds whenever some grid is and one box otherwise; a thumbnail iff asked for and there is more than one box |
| `Vocabulary.ListsUnique` | README_Dyna.md:240-240 | a strictly increasing list is determined by its members |
| `Vocabulary.DynamicVocabularyManager.Add` | README_Dyna.md:216-228 | the ids ever added grow by the new ones and the cache stays trustworthy |
| `Vocabulary.DynamicVocabularyManager.GetActiveVocab` | README_Dyna.md:230-244 | cached or rebuilt, the result lists the base and every id ever added in strictly increasing order |
| `Vocabulary.ReducedIffInside` | README_Dyna.md:293-301 | the reduced logits exist iff every active id is in the vocabulary, and are then the full logits of the active ids |
| `Vocabulary.ReducedMaxIsBestActive` | README_Dyna.md:293-301 | mapping back is injective, and an index maximises the reduced logits iff its token is best among the active ones |
| `Vocabulary.WinnerSurvives` | README_Dyna.md:293-301 | an active strict winner over the whole vocabulary is what any reduced maximiser maps to |
| `StreamLatency.MeterGenerate` | python/sglang/bench_serving.py:562-587 | the chunk loop computes the metered latencies |
| `StreamLatency.LatencyAccounting` | python/sglang/bench_serving.py:562-587 | for every stream, latencies and time skipped by falling counts add up to the last counted time minus the first, and likewise for token counts |
| `StreamLatency.LatencyConserved` | python/sglang/bench_serving.py:562-587 | with counts that never fall nothing is skipped |
| `StreamLatency.LatencyOfEachChunk` | python/sglang/bench_serving.py:562-587 | for every stream the clock and count kept are those of the last counted chunk, and each latency is the time between two counted chunks over the tokens between them |
| `StreamLatency.MeterCompletions` | python/sglang/bench_serving.py:254-272 | the chunk loop computes the metered latencies and texts |
| `StreamLatency.TextsInStep` | python/sglang/bench_serving.py:254-272 | texts and latencies stay in step and span the first text chunk to the last |
| `StreamLatency.TextLatencies` | python/sglang/bench_serving.py:254-272 | each latency is the time between one chunk with text and the next, and each recorded text that of the later one |
| `StreamLatency.RetokenizeItl` | python/sglang/bench_serving.py:1678-1686 | the loop spreads each latency over its chunk's tokens, or fails on a chunk without tokens |
| `StreamLatency.RespreadConserves` | python/sglang/bench_serving.py:1678-1686 | it succeeds iff every chunk has a token, keeps the total and gives one entry per token |
| `StreamLatency.RespreadInOrder` | python/sglang/bench_serving.py:1678-1686 | token j of chunk k gets an equal share of that chunk's latency, chunks in order |
| `CheckpointSharding.ShardsConcatenate` | examples/checkpoint_engine/update.py:69-70 | the shards of all ranks in order are the whole list |
| `CheckpointSharding.PerRankLeast` | examples/checkpoint_engine/update.py:69-69 | the number per rank is the least that leaves no item over |
| `CheckpointSharding.ItemOnOneRank` | examples/checkpoint_engine/update.py:69-70 | each item stands, at its offset, in the shard of exactly one rank, which exists |
| `CheckpointSharding.GroupByFile` | examples/checkpoint_engine/update.py:80-85 | a file is listed iff it holds a name, with exactly its names in the order of the index |
| `CheckpointSharding.SplitTensors` | examples/checkpoint_engine/update.py:79-91 | a rank reads exactly the names of its shard, each from its file |
| `CheckpointSharding.OnePosterPerRank` | examples/checkpoint_engine/update.py:101-113 | each rank's socket is posted by exactly one poster, its group's source |

## Left out

- HTTP, server-sent events, JSON, tokenizers, datasets, torch, argument parsing and reports: outside the algorithms; their results are arbitrary inputs.
- Floating-point rounding: ratios and times are exact.
- The tree building, events and link records of the trace converter: they only copy fields.
- The order of equal-product ratios: Python takes it from set iteration, so any order is allowed.
- The two threads of the multi-turn generator are steps of a state machine rather than methods, because what matters is their interleaving; the sleeps and the performance metrics are not modelled.
- The handler's exit on an empty response queue: it can read the full progress bar before the last response is queued, so totals are stated for quiet states.
- The warm-up request and the profiler of the serving benchmark.
- `\frac` directly followed by letters: the readers take the command before the letters, as the rewriter does, because the spaces between them are gone by then.
- The percent-sign case of the boxed extractor is modelled as coded; whether it is intended is not judged.
- The other string clean-ups of the answer extraction, which depend on the regular-expression engine.
- The few-shot examples appended to the generated lines, and random generation of the lines.
- The chat path of the streaming benchmark, which never records text chunks although the metrics index them.
- Tensor contents: `CheckpointSharding.SplitTensors` records the file a tensor is read from.
- `UserGenerator.push` of benchmark/hicache/bench_mix.py and the routers, kernels and runtime of the serving system itself.
