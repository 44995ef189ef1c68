# A verified model of the feed handler's core

This project models five connected parts of the repository and proves what they promise.

**The dual-feed sequencer** (`crates/nf-arbitrator`). Module `Arbiter` is the sequencer as a function on an abstract
state: watermark, gap lifecycle, session and end-of-session states, counters, intents, the staging window as a map from
numbers to payloads, and the trace the sink sees. Module `Sequencer` holds the sequencer as the source keeps it, a class
with the presence array, the 64 KiB arena and scalar fields updated in place; every method is proved against the
function through `View()`, whose trace expands span calls to single messages. All four ways of ingesting are there: the
normative one, the indexed one with memo and spans, the batched steady scans and the 8/16-entry group ladder. On top of
the function stand the laws of whole runs: the window invariant (`ArbiterInvariant`), the event grammar
(`EventGrammar`, `Reports`, `Endings`), the closed form of every step (`Effects`) and the counters (`Ledger`), exactly-once
emission and confluence (`Confluence`), sessions one after the other (`Sessions`), the recovery intents (`Intents`,
`Asking`) and what frames that turn invalid part way do to all of these (`InvalidFrames`).

**MoldUDP64 framing and slicing** (`crates/nf-protocol`). Modules `Mold`, `Itch`, `Parsing`, `SpecSlicer` and `SinkFold`
hold the block walk, the payload check, eager parsing, the windowed speculative slicer and the batched fold of message
lengths; `Wire` and `WordValues` tie them to the octets and numbers they stand for. `Retransmit` adds the server's packing of ground-truth ranges and what ingesting its answer does.

**CRC32C algebra** (`crates/nf-testkit/src/crcfold.rs`). Polynomials over GF(2) are numbers with carry-less products
(`Gf2`), the reflected bit step and multiplication by y are inverse in the ring modulo VM (`CrcRing`), and everything
else is Horner reasoning: the constants (`CrcConstants`), Barrett reduction (`CrcBarrett`), byte scans (`Crc32c`), span
subtraction (`AffineSpan`), multi-stream folding (`FoldStreams`) and the composed tail (`SpanTail`), down to the eight
registers of the portable kernel (`Lanes`); `CrcCheck` reaches the published check value. The polynomial is the one of section 12.1 of RFC 3720.

**The signature monoid** (`lobstate.rs`), module `Signature`: chunked and reordered folds against sequential application.

**The second producer's drain** (`dual.rs`), modules `LaneTerritory`, `PassGrid`, `LeafRing` and `DualDrain`: the lane projection,
the pass boundaries against the chunk grid, the leaf ring as a class, and the drain as a machine whose steps (gate, slot write, length store, the three stores of a
crossing, the cursor store) interleave with the consumer's retires in every order.

## Reading the contracts

`Inv` is the sequencer's invariant; `Valid()` of the class adds that the two arrays represent the staged map for the
window at the watermark and that the two session words belong to the session. `Arbiter.Run` folds a list of operations;
`Steady.FoldIngest` folds the frames of a batch. `Expand` turns a trace with span calls into one with single messages.
A kernel is any function from the gathered numbers and the watermark to a boolean; `Sound` asks only that it accepts
nothing without the five relations, so the vector kernels are covered by what `crates/nf-protocol/src/packet.rs:35-59`
says of them. An entry is `WellFormed` when it is what its publisher promises: exact triples, an exact memo, session
words that are the frame's, and an eligibility bit that implies the publisher's session and full validity.

## Where the code differs from its own documentation

- `docs/05-sequencer.md:75` sends EOS-PERSIST to ENDED when the gap closes; `crates/nf-arbitrator/src/gap.rs:49-53` goes to Contig,
  and the model follows the code: `Endings.PersistRun` is such a run, `PersistCloses` and `EndedByEosFrame` say it of all;
  `PersistWithoutGap` says what becomes of a persist state entered without an open gap.
- `docs/05-sequencer.md:176` validates a frame before applying any of it; the fused walk hands over the valid prefix of an
  invalid frame (`crates/nf-protocol/src/packet.rs:129-131`). `InvalidFrames.FrameAtomicExactly` says for every data frame, contiguous,
  ahead or anchoring, exactly when an invalid one is without effect; `AtomicExactly` and `AheadStops` detail the two
  branches, and `PrefixEmittedTwice` shows a prefix emitted again by the intact copy. Exactly-once emission is therefore
  stated for valid frames.
- Recovery intents can ask backwards after a frame that turns invalid ahead of the watermark (`InvalidFrames.BackwardRun`) and
  after an invalid first frame that anchors past an outstanding request (`InvalidFrames.AnchorBackwardRun`). `Intents.ForwardData`
  says exactly which frames keep what makes intents point forward, `IntentExactly` in exactly which states reached by
  frames of one session a call asks backward, and `AllForwardExactly` when a run has no such intent.
- `docs/05-sequencer.md:160-162` has a session boundary flush the old session before the new one is anchored. The old watermark
  is not reset, so until the first data frame an end of session reports it and a recovery call is measured against it
  (`Sessions.EosAtBoundary`, `BeatAtBoundary`); from the first data frame on nothing of the old session is left
  (`BoundaryIsFresh`).
- `crates/nf-testkit/src/soa.rs:57-69` calls the scalar kernel's wrap guard unconditional; it wraps its own sum, so 64-bit counts whose
  sum wraps pass it (`Ladder.WrappingGroupAccepted`). `AcceptedExactly` says it is right exactly when the sum does not wrap,
  which the 16-bit counts of frames guarantee.
- `crates/nf-testkit/src/dual.rs:571-579` promises that a cursor at a boundary implies its arrival. That fails inside a crossing when two
  consecutive boundaries share a projection; `LawExactly` says for which pass lengths and bases this can happen. It also
  fails at the arm when the drain starts at or past the first boundary; `LawFromTheArm` has both.
- The same comment promises exact run windows. A drain that starts at or past the first boundary publishes its first
  record in a window it ends beyond; `WindowsExactly` says this is the only case.
- `crates/nf-testkit/src/fakeserver.rs:194` saturates a request below the first number; such a request is answered under shifted
  numbers (`ServedShifted`).

## Model

| member | source | states |
|---|---|---|
| Sequencer.Sequencer.constructor | crates/nf-arbitrator/src/lib.rs:80-103 | an empty sequencer: nothing staged, both arrays zeroed, state Init, in front of a sink that has already seen some trace |
| Sequencer.Sequencer.Reanchor | crates/nf-arbitrator/src/lib.rs:122-144 | the re-anchored sequencer is the new one seen by the same sink, although the arena keeps its bytes |
| Sequencer.ReanchorUnobservable | crates/nf-arbitrator/src/lib.rs:105-144 | a used sequencer re-anchored with a dirty arena and a new one answer every run of frames, intent calls and stops with the same trace, state, counters and intents |
| Sequencer.Sequencer.StageMsg | crates/nf-arbitrator/src/window.rs:15-42 | for every number: refused unless its 64-bit offset from the watermark is 1 to 1024; admitted, the payload cut to 64 bytes is staged under the window's number that shares its slot, and every other staged message keeps its mark and its bytes |
| WindowSlots.GuardExceedsClamp | crates/nf-arbitrator/src/window.rs:23-25 | an admitted number takes the slot of exactly one number of the window: its own inside the caller's clamp, the watermark's at offset 1024 |
| WindowSlots.GuardOffsets | crates/nf-arbitrator/src/window.rs:23-25 | stage_msg's own wrapping guard admits exactly the offsets 1 to 1024 |
| WindowSlots.SlotInjective | crates/nf-arbitrator/src/window.rs:9-10 | two numbers of one window with the same slot are the same number |
| WindowSlots.SlotOnto | crates/nf-arbitrator/src/window.rs:9-10 | every slot is that of some number of the window |
| Sequencer.Sequencer.ClearSlots | crates/nf-arbitrator/src/window.rs:47-88 | both linear chunks with their early exits: exactly the staged messages at or above the new watermark remain, and the arrays represent them for the new window |
| Sequencer.Sequencer.DrainRun | crates/nf-arbitrator/src/window.rs:94-138 | emits the staged run from the watermark in order, with the bytes that were staged, and leaves the rest; the arena is never read at an unmarked slot |
| Sequencer.Sequencer.GapEvidence | crates/nf-arbitrator/src/gap.rs:11-36 | the new state and trace are those of the gap-evidence function |
| Sequencer.Sequencer.CheckGapClose | crates/nf-arbitrator/src/gap.rs:40-59 | the new state and trace are those of the gap-close function |
| Sequencer.Sequencer.SessionDispatch | crates/nf-arbitrator/src/session.rs:14-61 | adoption, boundary (flush, forget evidence, new era, back to Init) or nothing, as the dispatch function says |
| Sequencer.Sequencer.Heartbeat | crates/nf-arbitrator/src/session.rs:67-101 | the heartbeat ladder over the five live states |
| Sequencer.Sequencer.Eos | crates/nf-arbitrator/src/session.rs:105-159 | the end-of-session ladder over the six states |
| Sequencer.Sequencer.Seal | crates/nf-arbitrator/src/session.rs:165-178 | dead once and for all, with one event |
| Sequencer.Sequencer.Ask | crates/nf-arbitrator/src/intent.rs:15-80 | the intent returned and the state left are those of the recovery-intent function, which answer the call as Asking.Answers says, and the window invariant is kept |
| Sequencer.Sequencer.EmitWalk | crates/nf-protocol/src/packet.rs:133-171 | the fused walk in the contiguous branch delivers exactly what framing, skipping, validating and emitting in two phases delivers, with the same first error |
| Sequencer.Sequencer.StageWalk | crates/nf-protocol/src/packet.rs:133-171 | the fused walk in the gap branch stages exactly the delivered messages that fit the window, drops and counts the others, and reports the same first error |
| Spans.FusedIsTwoPhase | crates/nf-protocol/src/packet.rs:122-171 | for every frame, skip and count, the single fused pass equals the block walk of the whole frame followed by delivery in order up to the first error |
| Sequencer.Sequencer.DataFrame | crates/nf-arbitrator/src/lib.rs:283-477 | a data frame in every state, from the end-of-session check to the retirement of the pending intent |
| Sequencer.Sequencer.Ingest | crates/nf-arbitrator/src/lib.rs:189-477 | one frame on the arrays does what the sequencer function does on the staged map, for every frame of any length, and keeps the slot representation, the compare words and the invariant |
| Sequencer.Sequencer.Replay | crates/nf-arbitrator/src/lib.rs:189-857 | a whole run of frames, intent calls and stops on the arrays equals the run of the sequencer function, intent by intent |
| ArbiterInvariant.InvIngest | crates/nf-arbitrator/src/lib.rs:189-477 | every frame, well formed or not, keeps: staged numbers strictly inside the window and valid, chained down to the evidence mark, an open gap's evidence above the watermark |
| ArbiterInvariant.InvClose | crates/nf-arbitrator/src/gap.rs:40-59 | when a gap closes the staging window is empty |
| ArbiterInvariant.InvStageAll | crates/nf-arbitrator/src/lib.rs:352-470 | staging a frame keeps the chain and holds every message of it that fits the window |
| ArbiterInvariant.Reachable | crates/nf-arbitrator/src/lib.rs:352-470 | in every reachable state: Contig means no gap and nothing staged, an open gap has evidence above the watermark, staging implies a gap |
| Effects.DataExactly | crates/nf-arbitrator/src/lib.rs:283-477 | every data frame free of errors, in every state, field by field in closed form: not taken, contiguous or ahead |
| Effects.ContiguousExactly | crates/nf-arbitrator/src/lib.rs:325-394 | at or below the watermark: the new messages and the staged run behind them are emitted, the watermark is the first missing number, the rest stays staged, a gap whose evidence is reached closes, a request that is reached is retired |
| Effects.AheadExactly | crates/nf-arbitrator/src/lib.rs:396-472 | ahead: a gap opens unless one is open, its evidence covers the frame's start and past the window its end, what is below w + 1024 is staged with its bytes, the rest counted as dropped |
| Effects.HeartbeatExactly | crates/nf-arbitrator/src/session.rs:67-101 | a heartbeat in every state, field by field |
| Ledger.EveryRunBalances | crates/nf-arbitrator/src/counters.rs:46-86 | after every run: messages emitted, gaps opened and closed are those in the trace, every violation has one kind, and packets and bytes per feed, heartbeats, ends of session, sessions, flushed windows, intents and ignored frames are what the operations add up to |
| Ledger.CountedByKind | crates/nf-arbitrator/src/counters.rs:25-44 | every error counts once, under its own kind |
| EventGrammar.TiedRun | crates/nf-arbitrator/src/gap.rs:11-59 | in every reachable state the trace is grammatical and the gap fields are those of its last opener |
| EventGrammar.GapsAlternate | crates/nf-arbitrator/src/gap.rs:11-36 | between two gap openings there is a re-anchor or a session boundary |
| EventGrammar.ReAnchorMatchesOpener | crates/nf-arbitrator/src/gap.rs:40-59 | every re-anchor closes the gap opened last, under that gap's generation, at or past its evidence |
| EventGrammar.ProofEra | crates/nf-arbitrator/src/lib.rs:325-349 | the proof era of every emitted message counts the gap openings and session boundaries before it (modulo 2^64) |
| EventGrammar.NothingAfterTheEnd | crates/nf-arbitrator/src/session.rs:105-178 | after an end of session only a boundary or a death, after a death nothing |
| Reports.EventsNameTheWatermark | crates/nf-arbitrator/src/gap.rs:11-59 | every gap opening, re-anchor, end of session and death in a run's trace names the watermark of the step that wrote it |
| Confluence.ExactlyOnce | crates/nf-arbitrator/src/lib.rs:293-470 | for every run of one session whose data frames are valid and agree with a ground truth, in any order, overlap and feed, with heartbeats, short frames and recovery calls anywhere, drops beyond the window included, the emission is exactly the ground truth from the anchor to the watermark, once each, in order |
| Confluence.LeastMissing | crates/nf-arbitrator/src/lib.rs:293-470 | if in such a run no data frame ahead of the watermark reached past the window at its turn, the watermark is the least number at or above the anchor that was not received |
| Confluence.Confluent | crates/nf-arbitrator/src/lib.rs:293-470 | two such runs that never reach past the window, with the same anchor and the same received numbers, end with the same watermark, the same emission and the same staged messages, whatever the order, overlap and feeds and wherever their heartbeats and calls stand |
| Confluence.DropsExactly | crates/nf-arbitrator/src/lib.rs:408-445 | in every such run the drop counter is zero if and only if no data frame ahead of the watermark ended at or beyond the window at its turn |
| Sessions.EverySessionOnce | crates/nf-arbitrator/src/session.rs:30-60 | the emission of a run over any number of sessions is, session by session, that session's ground truth from its own first data frame to the watermark it would reach alone |
| Sessions.ExactlyOnceBehind | crates/nf-arbitrator/src/session.rs:30-60 | after any run at all, the trace behind a boundary is the new session's ground truth from its own anchor to the watermark, and watermark, window and state are those of a new sequencer given this session alone |
| Sessions.BoundaryIsFresh | crates/nf-arbitrator/src/session.rs:30-60 | from any live state of another session, any operations of the new one, valid or not, do what they do to a new sequencer, but for eras, counters and the trace before: the old session's evidence, staged messages, heartbeat and request have no effect |
| Sessions.CallsAreFresh | crates/nf-arbitrator/src/session.rs:30-60 | and every recovery call behind the boundary gets the new sequencer's answer |
| Sessions.EosAtBoundary | crates/nf-arbitrator/src/session.rs:105-135 | what stays until the first data frame is the old watermark: an end of session at the boundary reports it |
| Sessions.BeatAtBoundary | crates/nf-arbitrator/src/intent.rs:40-58 | and a call that a heartbeat at the boundary causes is measured against it and asks from it |
| Intents.IntentsPointForward | crates/nf-arbitrator/src/intent.rs:15-80 | in every single-session run whose frames are harmless at their turn, valid or not, an intent asks from the watermark for 1 to 65535 messages |
| Intents.ForwardData | crates/nf-arbitrator/src/lib.rs:301-477 | a data frame keeps what makes intents point forward if and only if it is not applied, has no error, or what it delivered before its error neither anchors past an outstanding request nor stages a message beyond the staged maximum |
| Intents.ValidIsHarmless | crates/nf-protocol/src/packet.rs:133-171 | a frame without framing or payload errors is harmless |
| Intents.BackwardExactly | crates/nf-arbitrator/src/intent.rs:27-77 | in any state whose outstanding request ends at most 65535 past the watermark, an intent does not point forward if and only if nothing is outstanding, something is staged and stalled and the staged maximum is not above the watermark, or the outstanding request ends at or below it and either so does a target beyond that request, or no target lies beyond it and a repeat is due |
| Intents.IntentExactly | crates/nf-arbitrator/src/intent.rs:27-77 | that equivalence after every single-session run of any frames, calls and stops |
| Intents.AllForwardExactly | crates/nf-arbitrator/src/intent.rs:15-80 | of every single-session run of any frames: all the intents it returns ask from the watermark for 1 to 65535 messages if and only if no call meets a state that asks backward |
| Intents.InvalidFrameAsksBackwards | crates/nf-arbitrator/src/lib.rs:436-445 | every frame of the session ahead of a contiguous state, inside the window, that delivers a message before its error, with nothing outstanding and the staged maximum at or below the watermark, makes the next stalled call ask backwards |
| InvalidFrames.BackwardRun | crates/nf-arbitrator/src/lib.rs:430-445 | a run of real frames that does it: message 1, a frame from 5 on whose second message is invalid, and a call 250 microseconds later that asks from 2 up to but not including 0 |
| InvalidFrames.AnchorBackwardRun | crates/nf-arbitrator/src/lib.rs:301-350 | a run of real frames that does it with nothing staged: a heartbeat at 10, a call that asks for 0 to 10, a first data frame at 20 whose only message is invalid, and a repeat that asks from 20 up to but not including 10 |
| InvalidFrames.AtomicExactly | crates/nf-arbitrator/src/lib.rs:325-350 | the contiguous branch applies a frame in full or emits nothing if and only if the walk has no error or the first unskipped block is missing or invalid; otherwise a prefix is emitted and the watermark stays |
| InvalidFrames.AheadStops | crates/nf-arbitrator/src/lib.rs:352-447 | an invalid frame ahead leaves watermark and staged maximum, changes the window if and only if it delivers a message that fits it and is not staged yet with the same bytes, opens a gap if and only if none is open, and is without effect but for counters if and only if it lies inside an open gap and brings nothing new |
| InvalidFrames.FrameAtomicExactly | crates/nf-arbitrator/src/lib.rs:283-477 | every data frame in every reachable state: not taken, it only counts; free of errors, it is applied whole; invalid, it counts one violation, keeps the watermark (its first number at the anchor), and changes nothing else if and only if the sequencer is anchored and the frame has nothing deliverable past the duplicates or, ahead, lies inside an open gap and brings nothing new |
| InvalidFrames.PrefixEmittedTwice | crates/nf-protocol/src/packet.rs:129-131 | a run of real frames in which an invalid frame emits its first message without moving the watermark and the intact copy emits it again |
| Endings.EndedByEosFrame | crates/nf-arbitrator/src/session.rs:105-159 | every end of session in a run's trace was written by the step that ingested an end-of-session frame |
| Endings.PersistCloses | crates/nf-arbitrator/src/gap.rs:40-59 | a gap that closes in the persist state, by whatever frame but an end of session, leaves the contiguous or the initial state, not the ended one |
| Endings.PersistRun | crates/nf-arbitrator/src/gap.rs:40-59 | a run of real frames that does it: 1, 3, an end of session announced at 4, and 2; everything announced is emitted, the state is contiguous and the trace has no end of session |
| Endings.PersistWithoutGap | crates/nf-arbitrator/src/session.rs:147-158 | entered without an open gap, the persist state survives every frame of the session but an end of session, however far the watermark moves, unless a data frame that is taken or a heartbeat lies ahead of the watermark: that opens a gap and leaves the gap state |
| Endings.EosExactly | crates/nf-arbitrator/src/session.rs:105-159 | an end-of-session frame in every live state: it ends a session without data frames or whose watermark is at or past the announced number, with one event naming both, and otherwise leaves it to persist; a repeat only counts |
| Endings.EndedExactly | crates/nf-arbitrator/src/session.rs:105-159 | a single-session run reports an end if and only if one of its frames is an end of session that came before the first data frame or at a watermark not below its number |
| Intents.RepeatsAreSpaced | crates/nf-arbitrator/src/intent.rs:40-77 | in every run at all, an intent that does not widen the outstanding one comes at least 250 microseconds after the intent before it |
| Asking.AskExactly | crates/nf-arbitrator/src/intent.rs:15-80 | every call in every state: it is answered if and only if there is news (a staged maximum 512 or more ahead of the watermark, something staged and no progress for 250000 ns, or a heartbeat ahead and 250000 ns old, beyond what is outstanding) or the outstanding request is due; what it asks for, and the state it leaves |
| Asking.RunClocks | crates/nf-arbitrator/src/lib.rs:301-394 | in every single-session run the progress clock is the time of the step that last moved the watermark, and the kept heartbeat is the last that came before the first data frame or ahead of the watermark |
| Asking.BacklogAnswered | crates/nf-arbitrator/src/intent.rs:28-38 | in a run of harmless frames with nothing outstanding, a message staged 512 or more ahead is asked for at once |
| Asking.StalledAnswered | crates/nf-arbitrator/src/intent.rs:28-38 | in such a run whatever is staged is asked for once the watermark has not moved for 250000 ns |
| Asking.BeatAnswered | crates/nf-arbitrator/src/intent.rs:40-43 | in such a run a heartbeat still ahead 250000 ns after it came is asked for |
| Spans.SpanStandsFor | crates/nf-arbitrator/src/types.rs:104-148 | one span call over the bytes from the first unskipped block to the last stands for exactly the messages of those blocks, counts them, and its body ends with the last |
| Spans.DeliverValid | crates/nf-protocol/src/packet.rs:12-33 | with every block valid the walk delivers every message from the skipped prefix on, without an error |
| Entries.MemoDecides | crates/nf-protocol/src/packet.rs:12-33 | an exact memo covers every block if and only if every block is valid |
| Entries.FullMemoDelivers | crates/nf-arbitrator/src/lib.rs:687-700 | a memo that covers every block proves the delivery of every unskipped message |
| Entries.WordsIdentifySession | crates/nf-arbitrator/src/lib.rs:36-50 | two sessions are equal if and only if both overlapping little-endian words are |
| Sequencer.Sequencer.TemplateMatch | crates/nf-arbitrator/src/lib.rs:548-581 | when the live template matches the frame's two words, session dispatch would change nothing |
| Sequencer.Sequencer.DispatchByTemplate | crates/nf-arbitrator/src/lib.rs:548-581 | the two-word compare stands in for the full session dispatch on every frame |
| Sequencer.Sequencer.EmitIndexed | crates/nf-arbitrator/src/lib.rs:676-723 | with or without a memo, as one span or message by message, the expanded trace, the count and the first error are those of the fused walk; a full memo makes one span call for a sink that takes them, and a sink that does not gets none |
| Sequencer.Sequencer.IngestIndexed | crates/nf-arbitrator/src/lib.rs:524-846 | on frames whose triples are exactly their walk and whose memo is exact, the indexed ingest has the state, counters and expanded trace of the normative one |
| Sequencer.Sequencer.IngestAuto | crates/nf-arbitrator/src/lib.rs:492-507 | the router, with and without an index, is the normative ingest |
| Steady.SteadyDup | crates/nf-arbitrator/src/lib.rs:1196-1207 | in the steady state a frame wholly below the watermark only counts |
| Steady.SteadyEmit | crates/nf-arbitrator/src/lib.rs:1208-1239 | in the steady state a fully valid frame at the watermark emits its messages, moves the watermark past it and touches the progress clock, nothing else |
| Steady.CommitStep | crates/nf-arbitrator/src/lib.rs:1429-1436 | deferring an entry's counters and committing them later changes nothing |
| Steady.FoldIsRun | crates/nf-arbitrator/src/lib.rs:885-898 | a batch is a run of frames: every law of runs holds of batches |
| Batch.RecEmitter.Push | crates/nf-arbitrator/src/lib.rs:1293-1302 | appends one span call to the buffer |
| Batch.RecEmitter.Flush | crates/nf-arbitrator/src/lib.rs:1309-1314 | hands over the buffered span calls in order and empties the buffer |
| Batch.EntrySpan | crates/nf-arbitrator/src/lib.rs:1213-1227 | the body derived from the frame's bounds, as one span call, stands for exactly the entry's messages |
| Batch.EmitEntry | crates/nf-arbitrator/src/lib.rs:1225-1235 | buffered or direct, flushed when full, the eventual expanded trace grows by exactly the entry's messages, and a sink that takes no spans gets them one by one |
| Batch.SteadyStep | crates/nf-arbitrator/src/lib.rs:1172-1239 | a step that is not cold does to watermark, deferred counters, trace and progress what the normative ingest does; a cold one leaves everything alone |
| Steady.ColdExactly | crates/nf-arbitrator/src/lib.rs:1187-1220 | an entry is handed back if and only if it has no index or its frame is not, by its own bytes, of the live session and either wholly below the watermark or at it, with a memo and free of errors |
| Batch.SteadyScan | crates/nf-arbitrator/src/lib.rs:1385-1438 | the scalar scan equals frame-by-frame ingest of the entries it consumed, and it stops exactly at the first entry that is cold at its watermark, which it does not apply |
| Ladder.Ladder8Scalar | crates/nf-testkit/src/soa.rs:70-96 | on any 64-bit inputs the scalar kernel accepts what its wrapping relations say, and on advances below 2^64 exactly the groups with anchor, pair equality, short duplicates, chain and no wrap |
| Ladder.AcceptedExactly | crates/nf-testkit/src/soa.rs:57-69 | a group has the relations if and only if the kernel accepts it and the advance itself does not wrap |
| Ladder.WrappingGroupAccepted | crates/nf-testkit/src/soa.rs:57-69 | a group of 64-bit counts that the kernel accepts although the watermark would wrap |
| Ladder.ScalarIsSound | crates/nf-testkit/src/soa.rs:57-69 | on the 16-bit counts of frames a kernel that accepts no more than the scalar one accepts only groups with the relations |
| Ladder.PairsScan | crates/nf-testkit/src/soa.rs:28-35 | the scalar scan would run through every entry of an eligible group of pairs |
| Ladder.RelationsArePairs | crates/nf-testkit/src/soa.rs:18-35 | the relations over the gathered numbers make the group four pairs from the watermark on |
| Ladder.PairTallyAtOnce | crates/nf-arbitrator/src/lib.rs:1632-1650 | the counters folded at once for a group are those of its entries one by one |
| Ladder.PairsRun | crates/nf-arbitrator/src/lib.rs:1632-1673 | a group of pairs, ingested frame by frame, is one step: even counts advance the watermark, even messages are emitted, odd entries count as duplicates |
| Batch.GateProves | crates/nf-arbitrator/src/lib.rs:1612-1631 | the first entry's session words and the eligibility bytes prove every entry of the group valid under the live session and the feeds alternating |
| Batch.LadderGroupApply | crates/nf-arbitrator/src/lib.rs:1584-1674 | for any kernel that accepts only groups with the relations, an applied 8-group equals eight frames ingested one by one; a refused one changes nothing |
| Batch.TwoGroups | crates/nf-arbitrator/src/lib.rs:1447-1458 | two accepted groups, the second anchored where the first leaves the watermark, are one group of sixteen |
| Batch.LadderGroup16Apply | crates/nf-arbitrator/src/lib.rs:1462-1575 | an applied 16-group equals sixteen frames ingested one by one; a refused one changes nothing |
| Batch.SteadyScanLadder | crates/nf-arbitrator/src/lib.rs:1702-1825 | every mix of 16-wide, 8-wide and scalar steps equals frame-by-frame ingest of the entries consumed, and stops exactly where the scalar scan would |
| Sequencer.Sequencer.CheckSteady | crates/nf-arbitrator/src/lib.rs:872-878 | answers exactly whether the session is live, the state contiguous, nothing staged, no gap open and no intent outstanding |
| Steady.TailInert | crates/nf-arbitrator/src/lib.rs:864-878 | the tail of a contiguous frame only moves the watermark and touches the clock, whatever the frame, if and only if nothing is staged, no gap is open and no intent is outstanding |
| Sequencer.Sequencer.IngestEntries | crates/nf-arbitrator/src/lib.rs:944-981 | a batch leaves the counters, watermark, progress clock, whole state and expanded trace of ingesting its frames one by one, cold frames anywhere in the batch included |
| Sequencer.Sequencer.IngestEntriesLadder | crates/nf-arbitrator/src/lib.rs:995-1062 | the same with the group ladder, for every sound kernel or none |
| Itch.Validate | crates/nf-protocol/src/itch5.rs:52-67 | a payload is valid if and only if its length is that of its type, and then it is 1 to 50 bytes |
| Itch.ValidIsPublished | docs/03-itch5.md:111-139 | a payload is valid if and only if its first octet is one of the 22 published types, by number, and its length that type's; the error names what is wrong; a valid payload has 12 to 50 bytes |
| Mold.WalkFrom | crates/nf-protocol/src/moldudp64.rs:209-231 | at most count blocks, each inside the frame behind the position; without an error exactly count |
| Wire.HeaderFields | crates/nf-protocol/src/moldudp64.rs:147-161 | session, number and count of every frame are its bytes 0 to 9, 10 to 17 and 18 to 19, the numbers by position, most significant byte first |
| Wire.BeHead | crates/nf-protocol/src/moldudp64.rs:156-159 | the big-endian value gives the first byte the highest power of 256 |
| Wire.BlockLengths | crates/nf-protocol/src/moldudp64.rs:208-219 | each block starts two bytes behind the one before and is as long as those two bytes say, most significant first |
| Mold.Delivered | crates/nf-protocol/src/packet.rs:133-171 | delivered messages are consecutive from the first unskipped block, valid and the block's bytes; without an error every block was delivered |
| Parsing.Parse | crates/nf-protocol/src/moldudp64.rs:167-231 | the verdict of eager validation in its order of precedence, for every byte string |
| Wire.ParseExactly | crates/nf-protocol/src/moldudp64.rs:167-231 | the verdict on every byte string from its bytes alone: a heartbeat is a bare header with count 0, an end of session one with count 65535, a data packet a header and exactly as many length-prefixed messages as it counts with nothing behind them; otherwise the error is the trailing byte count when so many messages are followed by bytes, and an overrun when there are not so many |
| Wire.ParsedAreCarried | crates/nf-protocol/src/moldudp64.rs:94-114 | a packet written from messages hands out those messages, numbered from the header's number |
| Parsing.CheckBlocks | crates/nf-protocol/src/moldudp64.rs:207-225 | consuming the body block by block finds the block walk's framing error |
| Parsing.MessageBlocks.Next | crates/nf-protocol/src/moldudp64.rs:94-114 | the iterator of a validated packet hands out the packet's messages in order, then none |
| Parsing.StrictAgreesWithFused | crates/nf-protocol/src/packet.rs:173-187 | strict two-phase validation and the fused walk accept the same data frames and hand over the same messages |
| SpecSlicer.SpecSliceWalk | crates/nf-protocol/src/moldudp64.rs:367-394 | from any start offset the even/odd table walk yields the plain walk's blocks of the window and where the next header is, and stops only at the 16-entry cap, where no whole header is left in the window, or at a truncated block |
| SpecSlicer.SpecSlice512 | crates/nf-protocol/src/moldudp64.rs:421-460 | one 64-byte window from any start offset, by the direct or the table path, yields the plain walk's blocks and stops only at the cap, where no whole header is left in the window, or at a truncated block |
| SpecSlicer.SpecSliceIter.Refill | crates/nf-protocol/src/moldudp64.rs:490-523 | a refill makes progress and keeps what remains to be yielded |
| SpecSlicer.SpecSliceIter.Next | crates/nf-protocol/src/moldudp64.rs:526-543 | yields the first of the remaining plain walk, or nothing when it is over |
| SpecSlicer.SliceAll | crates/nf-protocol/src/moldudp64.rs:462-545 | for every byte string, the windows together yield exactly the plain length-prefix walk |
| SpecSlicer.WalkTiles | scripts/r23b_affine_kernel_derive.py:403-415 | the plain walk's blocks are back to back: each starts two bytes behind the end of the one before |
| SpecSlicer.WalkStops | scripts/r23b_affine_kernel_derive.py:403-415 | the plain walk stops only where no complete block follows |
| SinkFold.BatchTerm | crates/nf-protocol/src/moldudp64.rs:604-612 | unrolling the rotation: the batch term of each length is its length turned by the turns still to come |
| SinkFold.FoldBatch | crates/nf-protocol/src/moldudp64.rs:604-612 | the batch fold is the sequential rotate-and-xor fold |
| SinkFold.SpecSliceIngest | crates/nf-protocol/src/moldudp64.rs:569-621 | for every byte string and accumulator, the count and the sink of the batched driver are the sequential fold's, through every split and a truncated tail |
| WordValues.XorValue | crates/nf-protocol/src/moldudp64.rs:575-610 | exclusive or of the fold's bit-string words is exclusive or of their numbers |
| WordValues.RotateValue | crates/nf-protocol/src/moldudp64.rs:575-610 | a rotation multiplies the number by 2^s within 64 bits and brings the bits pushed out back at the bottom |
| WordValues.WidenValue | crates/nf-protocol/src/moldudp64.rs:575-610 | a widened length is its number |
| WordValues.FoldValue | crates/nf-protocol/src/moldudp64.rs:575-610 | the sequential fold on 64-bit numbers: times 128 modulo 2^64 plus the top seven bits, exclusive or with the length, length by length |
| WordValues.IngestValue | crates/nf-protocol/src/moldudp64.rs:567-620 | what the driver accumulates from any payload is that update over the lengths of the walk's blocks |
| Retransmit.PackResponsePackets | crates/nf-testkit/src/fakeserver.rs:176-239 | the packets of a request parse as data packets of the session and carry as many messages as the request and the truth allow, message i being the truth's i-th from the first one asked for, under the i-th number asked for; none exceeds 1400 bytes unless it holds a single message |
| Retransmit.EveryNumberOnce | crates/nf-testkit/src/fakeserver.rs:189-212 | from the first number on, an answer carries a number if and only if it was asked for and the truth has its message, and then once, with that message |
| Retransmit.FillPacket | crates/nf-testkit/src/fakeserver.rs:203-231 | one packet takes the longest prefix of what is left that the request and 1400 bytes allow, or a single larger block; it never reaches the end-of-session count |
| Retransmit.PacketParses | crates/nf-protocol/src/moldudp64.rs:167-231 | encoding then parsing a packet gives back session, number, count and messages |
| Retransmit.ServedByIndex | crates/nf-testkit/src/fakeserver.rs:194-201 | a request at or above the first number gets, under each number, the ground truth's message of that number |
| Retransmit.ServedShifted | crates/nf-testkit/src/fakeserver.rs:194-201 | a request below it gets the ground truth from its first message on, under numbers shifted by the difference |
| Retransmit.Heals | crates/nf-arbitrator/src/lib.rs:325-394 | fed in order to a live sequencer at or past the requested number, the packets leave the watermark at or past the end of the served range |
| Retransmit.AnswerHeals | crates/nf-arbitrator/src/lib.rs:325-394 | the answer to a request within the truth carries a sequencer waiting at the requested number to the end of the request |
| Retransmit.LoopCloses | crates/nf-arbitrator/src/intent.rs:60-77 | the recovery loop closes: what a forward intent asks for, answered from a truth that has it and fed back, carries the watermark to the intent's end |
| Wire.TruthIsCarried | crates/nf-testkit/src/fakeserver.rs:194-214 | the messages of a ground truth file are those it was written from, whatever unfinished block it ends with |
| CrcRing.RedUnique | scripts/r23b_affine_kernel_derive.py:116-121 | the ring reduction is the only remainder below 2^32 |
| CrcRing.RedQuotient | scripts/r23b_affine_kernel_derive.py:116-121 | every field is a multiple of the modulus plus its reduction |
| CrcRing.BitStepInverse | scripts/r15_tail_derive.py:96-112 | the reflected bit step and multiplication by y undo each other |
| CrcRing.BitStepsMul | scripts/r15_tail_derive.py:96-115 | n reflected bit steps are multiplication by y^-n |
| CrcRing.InvAdd | scripts/r15_tail_derive.py:96-115 | inverse powers add |
| CrcRing.InvPow | scripts/r15_tail_derive.py:96-115 | y^n times y^-n is one |
| CrcConstants.Anchors | crates/nf-testkit/src/crcfold.rs:172-196 | the literals VR0, VH64 and RKLO are the powers y^-128, y^-64 and a representative of y^-128 |
| CrcConstants.GTable | crates/nf-testkit/src/crcfold.rs:136-236 | every entry of the shipped table, G[0] to G[128], is the inverse power of its byte count |
| CrcConstants.BarrettQuotient | crates/nf-testkit/src/crcfold.rs:189-196 | VMU is the quotient the reduction needs |
| CrcBarrett.BarrettExact | crates/nf-testkit/src/crcfold.rs:462-492 | for every field below 2^95, VMU, shifts 32, 56, 32 and one correction give the remainder modulo VM |
| AffineSpan.ClmulReduceModVm | crates/nf-testkit/src/crcfold.rs:464-492 | the software kernel returns the ring product of any two 32-bit operands |
| AffineSpan.ClmulLoop | crates/nf-testkit/src/crcfold.rs:497-509 | the shift-and-xor loop is the carry-less product |
| AffineSpan.AffineSpanConst | crates/nf-testkit/src/crcfold.rs:385-399 | the table product for a span length is G of that length |
| AffineSpan.ComposeTables | crates/nf-testkit/src/crcfold.rs:312-345 | G at 16k bytes times G at r bytes is G at 16k + r bytes |
| AffineSpan.SubtractRaw | crates/nf-testkit/src/crcfold.rs:511-538 | raw register: the suffix's is the whole's minus the prefix's times G of the suffix length |
| AffineSpan.SubtractFull | crates/nf-testkit/src/crcfold.rs:511-538 | the same law for finalised CRCs |
| AffineSpan.SpanAffineSub | crates/nf-testkit/src/crcfold.rs:511-538 | the kernel computes the subtraction |
| AffineSpan.SubtractLane | crates/nf-testkit/src/crcfold.rs:578-623 | the law holds per lane for bodies of whole 64-byte blocks |
| AffineSpan.SpanAffineSub8 | crates/nf-testkit/src/crcfold.rs:578-623 | the 8-lane kernel computes the subtraction in every lane |
| Crc32c.RunAppend | scripts/r23b_affine_kernel_derive.py:228-237 | scanning a concatenation is scanning its parts in turn |
| Crc32c.RunClosed | scripts/r15_tail_derive.py:36-50 | a byte scan is one reduction of start state plus little-endian data, times G of the length |
| Crc32c.RunAffine | scripts/r15_tail_derive.py:36-50 | the start state enters a scan only through its product with G of the length |
| CrcCheck.RawCheck | crates/nf-testkit/src/crcfold.rs:3115-3122 | the raw scan of 123456789 from zero is 0x58E3FA20 |
| CrcCheck.FullCheck | crates/nf-testkit/src/crcfold.rs:3124-3143 | its finalised CRC32C is 0xE3069283 |
| Lanes.SpanScalar | crates/nf-testkit/src/sink.rs:626-693 | the portable eight-lane kernel computes the byte-serial register of every lane's stream |
| Lanes.ByteInLane | crates/nf-testkit/src/sink.rs:657-690 | every byte of the body is scanned by exactly the lane and at exactly the place of the layout: word k of a 64-byte block by lane k, what is behind the last block by lane 0, and no lane scans more |
| FoldStreams.ShippedPairs | crates/nf-testkit/src/crcfold.rs:93-170 | every shipped fold pair is the pair of powers of its stream count |
| FoldStreams.SequentialPair | crates/nf-testkit/src/crcfold.rs:72-92 | RKHI and RKLO are a pair for one block even though RKLO is not reduced |
| FoldStreams.FoldStepClass | crates/nf-testkit/src/crcfold.rs:2185-2205 | one fold step multiplies the class by K^n and adds the unit |
| FoldStreams.FoldPairs | crates/nf-testkit/src/crcfold.rs:2217-2250 | the sequential fold lies in the Horner class of its units |
| FoldStreams.FoldPairs2 | crates/nf-testkit/src/crcfold.rs:2318-2400 | the dual-stream fold lies in the same class, for every number of units |
| FoldStreams.FoldWordStreams | crates/nf-testkit/src/crcfold.rs:1624-1821 | the tri- and octo-stream folds lie in the same class, for every number of units |
| FoldStreams.MergedIsHorner | crates/nf-testkit/src/crcfold.rs:1600-1622 | the streams, each advanced by its lag and added, are the single-stream class |
| SpanTail.VendClass | crates/nf-testkit/src/crcfold.rs:2424-2441 | the vector ending reduces a 128-bit state to its class times y^-128 |
| SpanTail.RunUnits | scripts/r15_tail_derive.py:140-176 | the class of a lane's units times y^-128 is the byte-serial register of its bytes |
| SpanTail.FoldedLane | crates/nf-testkit/src/crcfold.rs:2424-2441 | ending a folded lane gives the register of the lane's first 16 wp bytes |
| SpanTail.ATLaw | scripts/r15_tail_derive.py:118-121 | the data constant AT[t] moves a word to t bytes before the end of the field |
| SpanTail.Lane0Tail | crates/nf-testkit/src/crcfold.rs:2500-2596 | lane 0's composed tail field ends in the register of the scan continued over the unpaired word and the tail |
| SpanTail.SpanFold | crates/nf-testkit/src/crcfold.rs:2500-2630 | for every body of at least 192 bytes and each stream shape, the folded kernel returns the scalar kernel's eight registers |
| Signature.FoldDescribes | crates/nf-testkit/src/lobstate.rs:395-403 | a fold holds the wrapping sums, the largest tag, and the payload of a token with that tag |
| Signature.FoldFirst | crates/nf-testkit/src/lobstate.rs:395-403 | on ties the fold keeps the payload of the earliest token with the largest tag |
| Signature.AnyMergeOrder | crates/nf-testkit/src/lobstate.rs:395-403 | for pairwise distinct nonzero tags, any partition combined in any order gives the whole stream's signature |
| Signature.SigFoldScalar | crates/nf-testkit/src/lobstate.rs:473-485 | the scalar fold is the fold of the stream |
| Signature.SigFold8 | crates/nf-testkit/src/lobstate.rs:512-588 | the eight-lane strided fold with its tree sums, lane keys and scalar tail describes the stream |
| Signature.SigFold | crates/nf-testkit/src/lobstate.rs:492-501 | either path gives the stream's signature when tags are distinct |
| Signature.ApplyFold | crates/nf-testkit/src/lobstate.rs:417-430 | applying a signature is applying its tokens one by one when tags increase along the stream |
| Signature.SeqApplyShape | crates/nf-testkit/src/lobstate.rs:417-430 | token-by-token application adds the sums modulo 2^64 and leaves the price of the last token that sets one |
| Signature.ApplyFoldExactly | crates/nf-testkit/src/lobstate.rs:417-430 | for every stream: applying its signature is applying its tokens one by one if and only if the last token that sets a price sets the price of the largest tag |
| Signature.ChunkSignatures | crates/nf-testkit/src/lobstate.rs:595-612 | the chunk signatures are the signatures of the chunks, for every chunk size |
| Signature.PassStates | crates/nf-testkit/src/lobstate.rs:619-635 | the states at every chunk boundary are those of sequential application, for every chunk size |
| Signature.OutOfOrderDiffers | crates/nf-testkit/src/lobstate.rs:417-430 | a witness of the failing side with distinct tags |
| LaneTerritory.LaneEndLaw | crates/nf-testkit/src/dual.rs:135-146 | the projection ends the lane's territory below the position: none of the lane's positions lies between them, and the one before it is the lane's |
| LaneTerritory.CursorLaw | crates/nf-testkit/src/dual.rs:121-146 | a cursor inside the lane has passed the projection if and only if it has passed the position |
| LaneTerritory.LaneEndShared | crates/nf-testkit/src/dual.rs:135-146 | two positions share a projection if and only if no position of the lane lies between them |
| LaneTerritory.StartLaw | crates/nf-testkit/src/hydra.rs:4935-4945 | the drain's start is the lane's first position at or past the fold position |
| LeafRing.SharedLeafRing.MayPush | crates/nf-testkit/src/dual.rs:892-895 | the push gate opens if and only if the unread leaves leave the headroom free |
| LeafRing.SharedLeafRing.Push | crates/nf-testkit/src/dual.rs:192-213 | a push behind the gate appends to the unread leaves and disturbs none |
| LeafRing.SharedLeafRing.ReadLeaf | crates/nf-testkit/src/dual.rs:235-247 | a read between the retire cursor and the length returns that leaf |
| LeafRing.SharedLeafRing.Retire | crates/nf-testkit/src/dual.rs:229-233 | retiring drops a prefix of the unread leaves |
| LeafRing.SharedLeafRing.RunSegments | crates/nf-testkit/src/dual.rs:259-281 | the at most two array segments of a window concatenate to the window's leaves, across the wrap |
| DualDrain.NoUnreadLeafOverwritten | crates/nf-testkit/src/dual.rs:885-897 | in every interleaving of the drain's steps with retires, every leaf between the retire cursor and the length is the leaf pushed |
| DualDrain.LeavesAreRecords | crates/nf-testkit/src/dual.rs:856-912 | in every interleaving leaf i of the ring, until retired, carries length and value of the i-th record taken, and ends where that record does, chunk skips included, as computed from the steps alone |
| DualDrain.FinishPublishes | crates/nf-testkit/src/dual.rs:977-979 | a drain call that ends has pushed a leaf per record and publishes the cursor behind the last |
| DualDrain.GateExactly | crates/nf-testkit/src/dual.rs:892-895 | a taken record passes the gate if and only if at most 7168 leaves are unread, so at most 7169 ever are |
| DualDrain.ArrivalsLabelled | crates/nf-testkit/src/dual.rs:941-941 | the m-th published arrival carries the m-th armed pass and the script's count |
| DualDrain.WindowsExactly | crates/nf-testkit/src/dual.rs:898-971 | in every interleaving the arrival windows are consecutive and each is exactly the leaves ending after its pass's start boundary and at or before its end, if and only if the drain starts before the first boundary |
| DualDrain.ArrivalReads | crates/nf-testkit/src/dual.rs:579-621 | an arrival is absent until its publication, and read within a lap of 2048 it is that pass's arrival |
| DualDrain.LawExactly | crates/nf-testkit/src/dual.rs:928-979 | for every arm: in every settled state of every interleaving a published cursor at or past a boundary's projection implies that boundary's arrival, if and only if passes are longer than a chunk, or exactly a chunk from a base that is not chunk-aligned |
| DualDrain.LawFromTheArm | crates/nf-testkit/src/dual.rs:1020-1040 | for every arm: the law holds in every state of every interleaving, the armed one included, if and only if passes are spaced that way and the drain starts before the first boundary |
| DualDrain.SpacedIsDistinct | crates/nf-testkit/src/dual.rs:135-146 | that condition on the arm's numbers holds if and only if every two consecutive boundaries have distinct projections |
| PassGrid.ShortStepMisses | crates/nf-testkit/src/dual.rs:135-146 | passes shorter than a chunk have, arbitrarily far out, two consecutive boundaries without a position of lane 1 between them |
| DualDrain.LawByState | crates/nf-testkit/src/dual.rs:928-979 | once a record has been drained the law holds between records whatever the pass length, and inside a crossing it fails exactly while the cursor stands on the projection of the next boundary too |
| DualDrain.ArrivalBeforeCursor | crates/nf-testkit/src/dual.rs:853-859 | under that condition the law holds in every settled state of every interleaving, that is from the first drained record on at the latest |

## Left out

- Vector instructions (AVX-512, GFNI, carry-less multiply), pointer loads, prefetching and inlining: lanes, windows and products are modelled by their values.
- The literal tables KH, AT and the block powers beyond 128 bytes: modelled by their recurrences; the whole table G[0..128], the constants VR0, VH64, RKHI, RKLO and VMU and the merge and multi-stream pairs are proved to follow them.
- The end of the span tables: the tables stop at span lengths below 2048 bytes, the model's recurrences do not.
- The per-lane hash that combines eight lane registers into one word (`span_lane_combine`): a plain hash of the registers.
- Sequence numbers within 1024 of 2^64, where `w + 1024` and `last + 1` would overflow: the model's watermark is unbounded there; counters are unbounded as well.
- Buffers of 4 GiB and more, whose slicer offsets would not fit 32 bits.
- `ingest_batch` and `steady_scan` as iterators: they share `steady_step` and differ from the slice forms `IngestEntries` and `SteadyScan` only in how the next entry is fetched.
- The packed span emitter: pointer differences folded into words; the span calls it packs are those of `RecEmitter`.
- `SequencerMutation` modes, `replay_apply` and `replay_from_gen`: test and replay hooks that bypass the invariants on purpose.
- Recovery sockets, the fake server's thread and its fault injection, the transports' rendering of frames: only the packing of answers is modelled.
- In the dual drain: the spin, park and exit latch, the poison path and its zombie drain, the shutdown sweep, and memory ordering beyond steps in program order.
- How P0 consumes arrival windows (merge and hash): the windows are proved exact, the merge is not modelled.
- Telemetry counters that never influence a decision.
- ITCH field overlays, histograms, polynomial hashes, order-book composition other than the signature: the same kind of argument, easier.
