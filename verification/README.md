# aisense: terminals, boards and shared notes

A model of the parts of aisense that carry state, interleavings or arithmetic of their own:

- **The terminal pipeline** (aisense-pty). `Ring.dfy` is the history buffer, `Batching.dfy` the
  visibility-aware, rate-limited batcher, both as classes with the fields of the original.
  `Pipeline.dfy` is the protocol around them: the reader thread (ring, then channel, then `done`),
  the broadcast channel that overwrites its oldest chunk when full, the pump task and the calls of
  the interface, as one state machine over all interleavings.
- **The transcript converter** (aisense-core, transcript.rs). `Utf8.dfy` is the decoder of RFC 3629,
  section 4, with its three outcomes (a character, a maximal ill-formed prefix, an unfinished one).
  `PlainText.dfy` holds the two stacked machines and the export loop, `Overlay.dfy` says what page
  the cursor machine draws, `ControlSequences.dfy` that the escape machine removes the control
  sequences of ECMA-48, section 5.4, without a trace, and `Printing.dfy` what comes out in the
  plainest cases, character by character.
- **The board** (aisense-core, board/rules.rs; aisense-store, board.rs). `Dependencies.dfy` is the
  depth-first search that keeps the dependency graph acyclic, `CardWrites.dfy` the guarded UPDATE
  and its WIP limits, `RacingWriters.dfy` any number of writers over the two statements of an
  update, `ColumnReplacement.dfy` the transaction that replaces a board's columns.
- **Diagnostics** (aisense-core, diagnostics.rs). `Calendar.dfy`, `Crc32.dfy` and `Zip.dfy` are the
  hand-written date algorithm, checksum and archive (PKWARE APPNOTE, sections 4.3.7, 4.3.12 and
  4.3.16), with the archive reader of the original's own round-trip check.
- **The local protocol** (aisense-ipc). `Framing.dfy` is the bounded line reader over an arbitrarily
  filled buffer, `Connection.dfy` the hello and request/reply loop above it.
- **Smaller cores.** `Notes.dfy` and `SharedNotes.dfy` (optimistic locking and the line diff),
  `RuntimeCache.dfy` (detection results keyed by what they depend on), `Handles.dfy` (validation,
  suggestion and the free handle of a copy).

`Prelude.dfy` holds what several modules share. Every class method is proved against a function of
its old state, and the promises are proved of those functions, over whole runs or over every
interleaving. Code that runs alone is a class or a method with the loops of the original; what runs
concurrently is a step relation on values, one step per lock section, channel operation or SQL
statement.

## Where the code does not keep the promise

Each of these is proved by the lemmas it names: an input or a run on which the promise fails, and the
condition under which it is kept.

- The ring forgets how the output was cut into reads, for every stream whose lines fit in 64 KiB,
  exactly if its byte limit is at least 64 KiB less a byte (`Ring.IndependentIffLimitHoldsAnEntry`).
  A stream leaves no trace of its cuts in any such ring exactly if every line fits
  (`Ring.IndependentIffEveryLineFits`); a longer line shows them in every ring that evicts nothing of
  the stream, however it is cut in two (`Ring.LongLineKeepsATrace`), the default ring among them
  (`Ring.DefaultRingKeepsATrace`). Below that byte limit, two cuts of one line differ
  (`Ring.SmallByteLimitKeepsATrace`).
- `sink.raw` is complete at exit if and only if the channel overwrote nothing
  (`Pipeline.ExitComesLast`), and whatever the channel's capacity there is a run in which it does
  (`Pipeline.OverrunsLoseOutput`).
- The converter knows control sequences, operating system commands, character-set designations and
  two-character escapes; the other strings of ECMA-48, section 5.6 (device control, start of string,
  privacy message, application command) are printed as text (`ControlSequences.OtherStringsArePrinted`).
- A dependency is checked and written in two separate calls, so racing checks can close a cycle
  (`Dependencies.RacingChecksCloseACycle`). Any number of them do exactly when the new edges close a
  ring, each one's target leading by old edges to the card of the next
  (`Dependencies.RacingAddsAreSafeIff`), or, in the order they are written, when one of them would no
  longer pass its check (`Dependencies.RecheckedAddsAreSafeIff`). Several dependencies of one card
  checked against one list of edges are safe (`Dependencies.SeveralAdmissibleStayAcyclic`).
- A card is created without a WIP guard in the INSERT (`CardWrites.UnguardedInsertCanOverflow`), a
  column's cards are moved without any (`CardWrites.UnguardedMoveCanOverflow`), and a writer may
  still hold limits that were lowered since (`RacingWriters.OldLimitsCanOverflow`): a column can be
  overfilled. Over any interleaving the limits hold throughout exactly if each creation, each column
  move, each new limit and each write under older limits fits at its own instant; all other updates
  keep them by themselves, together with the foreign key of the assignee
  (`RacingWriters.LimitsHoldThroughout`).
- Replacing columns runs its moves before its inserts and the foreign key is immediate, so cards
  cannot be moved to a column the same call creates (`ColumnReplacement.MovingToANewColumnAborts`;
  `ColumnReplacement.ReplacementConservesCards` says when it commits).
- Deleting a note takes no lock, so a replacement that has already been checked brings it back
  (`SharedNotes.DeletionCanBeUndone`, `SharedNotes.DeletionSticksIff`).
- An overview of the runtimes can show the detection of an older catalog when an overview begun
  before a swap finishes after it (`RuntimeCache.AnOldOverviewEndangers`,
  `RuntimeCache.FreshIffNotEndangered`).
- The DOS date names the right day exactly in the years 1980 to 2107 (`Calendar.DosDateRoundTrips`);
  the last instant of 1979 and the first of 2108 are stamped 1 January 1980
  (`Calendar.NextDoorYearsAreMisdated`).
- A valid handle need not be its own suggestion: the fixed points of `suggest` are the handles with
  single inner hyphens and none at the end (`Handles.SuggestionIsIdempotent`; `Handles.UntidyHandles`
  has two that are not).

## Model

| member | source | states |
|---|---|---|
| Ring.RingBuffer.constructor | crates/aisense-pty/src/ring.rs:33-41 | Limits are at least 1 and the history starts empty. |
| Ring.RingBuffer.Push | crates/aisense-pty/src/ring.rs:44-68 | The new state is the specification's push; bytes, limits and entry shape stay right and the content stays a suffix of the stream since the last clear. |
| Ring.RingBuffer.Evict | crates/aisense-pty/src/ring.rs:98-109 | Drops entries from the front until both limits hold, counting each and keeping `bytes` equal to the retained length. |
| Ring.RingBuffer.Snapshot | crates/aisense-pty/src/ring.rs:71-77 | Returns the retained bytes: a suffix of what was pushed since the last clear, as long as `bytes` and within the limit. |
| Ring.RingBuffer.Clear | crates/aisense-pty/src/ring.rs:93-96 | Forgets the content and keeps the drop counter. |
| Ring.LineEndIsFirstNewline | crates/aisense-pty/src/ring.rs:49-52 | The cut of a push falls right after the first newline, or at the end when there is none. |
| Ring.AbsorbedShape | crates/aisense-pty/src/ring.rs:44-66 | Absorbing a read loses and reorders no byte, and every entry stays non-empty, within 64 KiB, with a newline only at its end. |
| Ring.EvictedIsMaximal | crates/aisense-pty/src/ring.rs:98-109 | What is kept meets both limits and no longer run of last entries does. |
| Ring.PushedKeepsASuffix | crates/aisense-pty/src/ring.rs:44-77 | After any push the content is a suffix of the old content plus the new bytes, within both limits. |
| Ring.AnySegmentationKeepsTheLastLines | crates/aisense-pty/src/ring.rs:44-109 | However a stream is cut, entries and drop counter are those of its last whole lines that fit the limits. |
| Ring.SegmentationIndependence | crates/aisense-pty/src/ring.rs:44-68 | Two segmentations of one stream leave equal rings when every line fits an entry and the byte limit is at least 65535. |
| Ring.NothingLeaves | crates/aisense-pty/src/ring.rs:44-109 | A ring whose limits hold all that is pushed, however it is cut, keeps every byte and drops nothing. |
| Ring.LongLineKeepsATrace | crates/aisense-pty/src/ring.rs:10-15 | Every stream with a line longer than an entry has two cuts that leave different rings, in any ring that evicts nothing of it however it is cut in two. |
| Ring.DefaultRingKeepsATrace | crates/aisense-pty/src/ring.rs:10-15 | Such a stream for the ring of 10,000 lines and 8 MiB: 65,537 bytes without a newline. |
| Ring.IndependentIffEveryLineFits | crates/aisense-pty/src/ring.rs:10-66 | The streams that keep no trace of their cuts, whatever the limits from 65535 bytes on: those whose lines all fit an entry. |
| Ring.SmallByteLimitKeepsATrace | crates/aisense-pty/src/ring.rs:98-109 | With any smaller byte limit and any line limit, an unfinished line can be evicted between reads: two segmentations, two rings. |
| Ring.IndependentIffLimitHoldsAnEntry | crates/aisense-pty/src/ring.rs:44-109 | The limits under which no stream of fitting lines keeps a trace of its cuts: a byte limit of at least 65535, and no others. |
| Batching.Batcher.SetVisible | crates/aisense-pty/src/batch.rs:41-51 | Hiding discards exactly the pending bytes; showing changes nothing else. |
| Batching.Batcher.Push | crates/aisense-pty/src/batch.rs:63-69 | A visible batcher appends the chunk, a hidden one counts and ignores it. |
| Batching.Batcher.Poll | crates/aisense-pty/src/batch.rs:72-83 | Releases exactly when something is pending and the window has passed, and then everything pending. |
| Batching.Batcher.TimeUntilReady | crates/aisense-pty/src/batch.rs:86-94 | Zero exactly when a poll would release. |
| Batching.Batcher.Drain | crates/aisense-pty/src/batch.rs:98-103 | Releases what is pending whatever the window says, and nothing when nothing is. |
| Batching.Batcher.Flush | crates/aisense-pty/src/batch.rs:105-108 | Takes all that is pending and starts a new window. |
| Batching.WaitIsExact | crates/aisense-pty/src/batch.rs:86-94 | A later poll releases if and only if the promised wait has passed. |
| Batching.Conservation | crates/aisense-pty/src/batch.rs:41-108 | Over any run, emitted plus pending bytes are the accepted pushes minus what each hide discarded, in order. |
| Batching.HiddenIsSilent | crates/aisense-pty/src/batch.rs:40-69 | A run that never shows the panel emits nothing. |
| Batching.PollsAreSpaced | crates/aisense-pty/src/batch.rs:72-83 | Any two lots released by polls are a whole window apart. |
| Batching.RateLimit | crates/aisense-pty/src/batch.rs:72-83 | In any span T of any run, polls release at most T / window + 1 lots. |
| Pipeline.StepKeepsFlow | crates/aisense-pty/src/session.rs:423-451 | Sink, hand, channel and reader together hold the stream, in order, minus what the channel overwrote; every step keeps this. |
| Pipeline.StepKeepsRing | crates/aisense-pty/src/session.rs:428-431 | The ring stays a suffix of everything read, in every step. |
| Pipeline.StepKeepsInv | crates/aisense-pty/src/manager.rs:260-342 | Every step of reader, pump and interface keeps the pipeline's whole invariant. |
| Pipeline.RunKeepsInv | crates/aisense-pty/src/manager.rs:253-342 | Every interleaving keeps it. |
| Pipeline.ExitedIsComplete | crates/aisense-pty/src/manager.rs:318-326 | From the invariant: once the exit was told, nothing is missing or follows it. |
| Pipeline.ExitComesLast | crates/aisense-pty/src/manager.rs:253-326 | In every interleaving, exit is told once and last; by then raw output is the whole stream exactly if the channel overwrote nothing, and so are the data of a panel never hidden. |
| Pipeline.OverrunsLoseOutput | crates/aisense-pty/src/manager.rs:281-287 | For every capacity and every limit, a run that ends with the exit told and output missing. |
| Pipeline.ViewHasNoGap | crates/aisense-pty/src/manager.rs:148-160 | From the invariant: snapshot and later data of a shown panel join without a gap. |
| Pipeline.ShowLeavesNoGap | crates/aisense-pty/src/manager.rs:148-160 | In every interleaving without overrun, the data after `show` go on from a point its snapshot covers; only bytes read into the ring before can repeat. |
| Pipeline.ShowAnswersTheHistory | crates/aisense-pty/src/manager.rs:154-160 | At any moment of any run `show` answers all that was read since the last clear, if the limits hold it, and else the last whole lines of it. |
| Pipeline.SnapshotStays | crates/aisense-pty/src/manager.rs:154-160 | That answer stays the panel's snapshot, and what is delivered adds up, until the panel is hidden or shown anew. |
| Pipeline.ReadyDataIsEmitted | crates/aisense-pty/src/manager.rs:334-342 | A poll hands over everything pending exactly once a window has passed since the last lot. |
| Pipeline.HiddenPanelGetsNothing | crates/aisense-pty/src/manager.rs:328-342 | From a hidden panel with nothing in flight on, no run sends it data until it is shown. |
| Pipeline.EveryByteReachesThePanel | crates/aisense-pty/src/manager.rs:148-160 | Each byte from the snapshot's start on is on the panel at exit, at the position this says. |
| Utf8.FirstOfEncoded | crates/aisense-core/src/transcript.rs:255-283 | The first step on an encoded character followed by anything returns that character and its length. |
| Utf8.WholeIsEncoded | crates/aisense-core/src/transcript.rs:255-283 | A character is accepted only from its one encoding (no overlong form, no surrogate). |
| Utf8.IncompleteIsProperPrefix | crates/aisense-core/src/transcript.rs:270-281 | Input is held back exactly when it is a proper prefix of some encoding. |
| Utf8.IllIsMaximal | crates/aisense-core/src/transcript.rs:270-281 | What one replacement character stands for is a maximal ill-formed prefix. |
| Utf8.DecodeConcat | crates/aisense-core/src/transcript.rs:255-283 | Decoding a concatenation is decoding the first part, then the second behind the bytes carried over. |
| Utf8.DecodeEncoded | crates/aisense-core/src/transcript.rs:255-283 | Decoding an encoded text gives the text and carries nothing. |
| Utf8.FromUtf8Meaning | crates/aisense-core/src/transcript.rs:258-281 | The three answers of the validator: all valid, or the longest valid part and the error's length or its absence. |
| Utf8.ValidIffEncoded | crates/aisense-core/src/transcript.rs:258-264 | The validator accepts exactly the encodings of sequences of scalar values. |
| Transcript.PlainText.Feed | crates/aisense-core/src/transcript.rs:255-283 | The decode loop ends, and leaves the state of decoding the carried bytes and the chunk as one. |
| Transcript.PlainText.Chars | crates/aisense-core/src/transcript.rs:285-289 | Draws the characters one after the other. |
| Transcript.PlainText.Char | crates/aisense-core/src/transcript.rs:291-344 | One step of the escape and cursor machine, in every escape state. |
| Transcript.PlainText.Put | crates/aisense-core/src/transcript.rs:346-353 | Overwrites at the cursor or extends the line, and moves on. |
| Transcript.TrimEnd | crates/aisense-core/src/transcript.rs:355-360 | All whitespace at the end of a line is cut, and nothing else. |
| Transcript.PlainText.EndLine | crates/aisense-core/src/transcript.rs:355-360 | Adds the line without trailing whitespace and starts a new one. |
| Transcript.PlainText.TakeLines | crates/aisense-core/src/transcript.rs:363-365 | Takes the finished lines; putting them back in front restores the state. |
| Transcript.PlainText.Finish | crates/aisense-core/src/transcript.rs:368-377 | Gives the finished lines and the last one, with unfinished bytes replaced. |
| Transcript.SplitIndependence | crates/aisense-core/src/transcript.rs:254-283 | For any bytes and any cut, feeding the pieces leaves the state of one feed, and at most 3 bytes are ever carried. |
| Transcript.CarryIsStable | crates/aisense-core/src/transcript.rs:255-283 | The bytes carried over decode to nothing by themselves. |
| Transcript.TakenLinesComposeWithFeed | crates/aisense-core/src/transcript.rs:363-365 | Taking lines early commutes with feeding more. |
| Transcript.DoneIsInertForAll | crates/aisense-core/src/transcript.rs:291-360 | What is finished never influences what is drawn next. |
| Transcript.ExportTranscript | crates/aisense-core/src/transcript.rs:209-219 | The exported pieces together are the conversion of the whole log. |
| Transcript.EncodedTextIsDrawn | crates/aisense-core/src/transcript.rs:255-289 | Encoded text cut anywhere, even inside a character, is drawn as the text. |
| Transcript.OnlyTextSurvives | crates/aisense-core/src/transcript.rs:291-377 | On all bytes, the cursor stays within the line and no control character but newline and tab is printed. |
| Overlay.LastLongEnoughShows | crates/aisense-core/src/transcript.rs:346-353 | In each column of an overlay shows the last segment that reaches it. |
| Overlay.NothingShowsBeyondTheLongest | crates/aisense-core/src/transcript.rs:346-353 | And no column beyond the longest segment shows anything. |
| Overlay.LineIsDrawn | crates/aisense-core/src/transcript.rs:291-360 | Without escapes and backspaces the machine's line is the overlay of its segments between carriage returns. |
| Overlay.MachinePrintsThePage | crates/aisense-core/src/transcript.rs:291-377 | Such a text is printed as its lines, each the trimmed overlay of its segments. |
| Overlay.EncodedPageIsPrinted | crates/aisense-core/src/transcript.rs:380-385 | The same from the encoded bytes to the exported text. |
| Printing.OrdinaryTextIsItself | crates/aisense-core/src/transcript.rs:254-385 | Lines of characters that are no controls, without a space at their end, are exported as they are. |
| Printing.SpaceAtTheEndIsCut | crates/aisense-core/src/transcript.rs:355-360 | A space or tab at the end of a line makes no difference to the export. |
| Printing.ControlPrintsNothing | crates/aisense-core/src/transcript.rs:340-342 | Nor does any control character without a meaning of its own, wherever it stands. |
| Printing.CarriageReturnOverprints | crates/aisense-core/src/transcript.rs:324-353 | Of two parts of a line around a carriage return, the second is printed over the first. |
| Printing.BackspaceOverprints | crates/aisense-core/src/transcript.rs:326-353 | A character, a backspace and another character print the second in place of the first. |
| Printing.BackspaceStopsAtTheMargin | crates/aisense-core/src/transcript.rs:338 | At the start of a line a backspace makes no difference. |
| Printing.BrokenBytesAreReplaced | crates/aisense-core/src/transcript.rs:255-283 | Any log is exported like its text with one replacement character for each ill-formed piece and for an unfinished end. |
| ControlSequences.SequenceIsSkipped | crates/aisense-core/src/transcript.rs:291-329 | One whole sequence of any known kind changes nothing but a carriage return still to take effect. |
| ControlSequences.SequencesLeaveNoTrace | crates/aisense-core/src/transcript.rs:291-344 | Drawing characters and sequences in any order ends in the state of drawing the characters alone. |
| ControlSequences.DecorationVanishes | crates/aisense-core/src/transcript.rs:254-385 | Decorated output, cut into reads anywhere, exports as its text alone; without backspaces, as the page that text prints. |
| ControlSequences.OtherStringsArePrinted | crates/aisense-core/src/transcript.rs:292-300 | The text of a device control, start, privacy or application string is exported like any other text. |
| Dependencies.DependencyPath | crates/aisense-core/src/board/rules.rs:130-156 | Terminates; a returned path is a real one, and there is one returned if and only if one exists. |
| Dependencies.CheckDependency | crates/aisense-core/src/board/rules.rs:159-176 | Accepts exactly when the edge closes no cycle, and otherwise shows the genuine cycle. |
| Dependencies.AdmissibleIffStaysAcyclic | crates/aisense-core/src/board/rules.rs:158-176 | On an acyclic graph, an edge is admissible if and only if the graph stays acyclic with it. |
| Dependencies.SeveralAdmissibleStayAcyclic | crates/aisense-core/src/board/service.rs:1289-1295 | Several dependencies of one card checked against one list of edges keep the graph acyclic together. |
| Dependencies.EveryRunStaysAcyclic | crates/aisense-core/src/board/rules.rs:158-176 | Every run of checked adds and of removals keeps the graph acyclic. |
| Dependencies.EveryRunFromNothingStaysAcyclic | crates/aisense-core/src/board/rules.rs:158-176 | So every graph built from the empty one is acyclic. |
| Dependencies.LastOpDecides | crates/aisense-core/src/board/rules.rs:158-176 | Edge by edge, what one more checked add or removal does to the graph of a run. |
| Dependencies.RacingChecksCloseACycle | crates/aisense-core/src/board/service.rs:1085-1089 | Two checks against one graph can both pass and their writes close a cycle. |
| Dependencies.RacingAddsAreSafeIff | crates/aisense-core/src/board/service.rs:1085-1089 | Any set of edges written over an acyclic graph, whatever their checks had seen, keeps it acyclic exactly if the edges close no ring through it. |
| Dependencies.RecheckedAddsAreSafeIff | crates/aisense-core/src/board/rules.rs:158-176 | In whatever order edges are written, they keep the graph acyclic exactly if each would still pass its check with the earlier ones in place. |
| CardWrites.Store.Update | crates/aisense-store/src/board.rs:372-409 | The statement writes the whole row exactly when version, claim and both counts of the table allow it and the assignee exists; else nothing changes. |
| CardWrites.Store.UpdateCard | crates/aisense-store/src/board.rs:369-429 | `Written` means the row is in the table as given, any other answer that nothing changed; undisturbed, each of the five answers has its exact reason. |
| CardWrites.GuardAgreesWithCheckWip | crates/aisense-core/src/board/rules.rs:97-126 | The guard of the statement and the service's WIP rule decide alike. |
| CardWrites.GuardedWriteKeepsLimits | crates/aisense-store/src/board.rs:377-383 | One statement that carries what it owes to the row it finds keeps every column's total and per-agent limits. |
| CardWrites.WriteKeepsLimitsIff | crates/aisense-store/src/board.rs:279-317 | A live row created or written keeps all limits exactly when the WIP rule holds at that instant. |
| CardWrites.UnguardedInsertCanOverflow | crates/aisense-store/src/board.rs:279-317 | Two creations that were both checked first can overfill a column. |
| CardWrites.MoveKeepsLimitsIff | crates/aisense-store/src/board.rs:238-250 | Moving a column's cards keeps all limits exactly when the cards of both columns together fit the destination's. |
| CardWrites.UnguardedMoveCanOverflow | crates/aisense-store/src/board.rs:238-250 | Two columns within their limits whose cards together exceed the destination's. |
| RacingWriters.StepKeepsInv | crates/aisense-store/src/board.rs:369-429 | Every statement keeps versions growing, assignees existing and each waiting writer's knowledge right. |
| RacingWriters.RunKeepsInv | crates/aisense-store/src/board.rs:369-429 | So does every interleaving. |
| RacingWriters.StepKeepsLimitsIff | crates/aisense-core/src/board/service.rs:660-693 | A writer that owes limits to the row it read keeps them on the row it finds while they are in force; under older limits, and for creations, column moves and new limits, exactly if it fits. |
| RacingWriters.LimitsHoldThroughout | crates/aisense-store/src/board.rs:369-412 | In every interleaving, total and per-agent limits hold after every step exactly if each creation, column move, new limit and write under older limits fits at its instant. |
| RacingWriters.OldLimitsCanOverflow | crates/aisense-core/src/board/service.rs:681-692 | A run in which a limit lowered between read and write is exceeded by the write. |
| RacingWriters.EachVersionIsWrittenOnce | crates/aisense-store/src/board.rs:369-412 | No version of a card is written twice, by update, creation or column move: racing claims of one read have at most one winner. |
| RacingWriters.RowsAreTheLastWritten | crates/aisense-store/src/board.rs:369-412 | In every interleaving each card has the whole row last accepted for it, but for column moves and assignees who are gone. |
| RacingWriters.WipFullTellsTheTruth | crates/aisense-store/src/board.rs:413-428 | In every interleaving, agent deletions included, a `WipFull` answer read later is true of the instant of the UPDATE. |
| RacingWriters.DeletedAgentFalsifiesWipFull | crates/aisense-core/src/board/service.rs:1176-1190 | Why claims are made only of cards read as unassigned: the exact condition under which any other caller of the store would get a false `WipFull` from a deletion. |
| ColumnReplacement.Database.ReplaceColumns | crates/aisense-store/src/board.rs:230-277 | Statement by statement, the transaction's outcome; a failure leaves both tables as they were. |
| ColumnReplacement.ReplacementConservesCards | crates/aisense-store/src/board.rs:230-277 | Commits exactly if move targets exist and no card is left behind; then the board's columns are the list, no card is lost and each is where its moves lead. |
| ColumnReplacement.RenamingNeverCollides | crates/aisense-store/src/board.rs:251-256 | The rename to temporary slugs keeps slugs unique after any subset of its rows. |
| ColumnReplacement.SlugsNeverCollide | crates/aisense-store/src/board.rs:251-259 | The inserts and updates meet no duplicate slug, even when columns swap theirs. |
| ColumnReplacement.UpsertsKeepSlugsUnique | crates/aisense-store/src/board.rs:108-138 | Whatever the list, no two columns of a board end up with one slug. |
| ColumnReplacement.DuplicateSlugsAbort | crates/aisense-store/src/board.rs:257-259 | A list with one slug twice aborts. |
| ColumnReplacement.UpsertsKeepTheBoard | crates/aisense-store/src/board.rs:108-138 | A known column stays on its board and is not lost, whatever the list. |
| ColumnReplacement.MovesCompose | crates/aisense-store/src/board.rs:238-250 | The moves succeed exactly when every target exists for the cards that reach it, and compose in order. |
| ColumnReplacement.MovingToANewColumnAborts | crates/aisense-store/src/board.rs:238-259 | Moving a card to a column that does not exist yet aborts, even if the same call would create it. |
| Calendar.CivilIsTheDate | crates/aisense-core/src/diagnostics.rs:343-355 | For every day number, negative too, the result is a Gregorian date with that day number. |
| Calendar.CalendarBijection | crates/aisense-core/src/diagnostics.rs:343-355 | Dates and day numbers determine each other, both ways round. |
| Calendar.NextDayIsTomorrow | crates/aisense-core/src/diagnostics.rs:343-355 | Consecutive days are calendar successors, and day 0 is 1 January 1970. |
| Calendar.DayNumberCounts | crates/aisense-core/src/diagnostics.rs:343-355 | The reference day number is 0 at the epoch and grows by one with the calendar's next day. |
| Calendar.YearOfEraIsRight | crates/aisense-core/src/diagnostics.rs:346-349 | The year found is the one the day falls in, and its 366th day exists only before a leap February. |
| Calendar.DosDateRoundTrips | crates/aisense-core/src/diagnostics.rs:357-367 | Both halves fit 16 bits, and the date decodes to the same day if and only if its year is 1980 to 2107. |
| Calendar.NextDoorYearsAreMisdated | crates/aisense-core/src/diagnostics.rs:357-367 | The last instant of 1979 and the first of 2108 are both stamped 1 January 1980. |
| Calendar.DosTimeRoundTrips | crates/aisense-core/src/diagnostics.rs:357-367 | The time decodes to the time of day rounded down to two seconds. |
| Calendar.FieldsDoNotOverlap | crates/aisense-core/src/diagnostics.rs:364-365 | The fields or-ed together and cut to 16 bits are their sum. |
| Calendar.PackedFits | crates/aisense-core/src/diagnostics.rs:364-366 | With fields in range, the cast loses nothing. |
| Crc32.MakeTable | crates/aisense-core/src/diagnostics.rs:322-336 | All 256 entries are the eight-step remainders of their index. |
| Crc32.TableEntry | crates/aisense-core/src/diagnostics.rs:325-333 | The inner loop is eight reflected shift-and-xor steps. |
| Crc32.TableCrc | crates/aisense-core/src/diagnostics.rs:337-339 | For every byte sequence, the table fold is CRC-32 computed bit by bit. |
| Crc32.ByteAtOnce | crates/aisense-core/src/diagnostics.rs:337-339 | Eight single-bit steps equal one lookup by the low byte and a shift. |
| Crc32.ChangedByteIsDetected | crates/aisense-core/src/diagnostics.rs:321-340 | Changing any one byte changes the checksum. |
| Crc32.PublishedChecksums | crates/aisense-core/src/diagnostics.rs:321-340 | The checksums of nothing and of "a" are the published ones. |
| Zip.ToZip | crates/aisense-core/src/diagnostics.rs:198-255 | The two growing buffers and the end record make the archive's specified layout. |
| Zip.LocalLayout | crates/aisense-core/src/diagnostics.rs:205-222 | Every field of a local header is where the format has it and says what the file is. |
| Zip.CentralLayout | crates/aisense-core/src/diagnostics.rs:223-241 | Every field of a directory record, likewise. |
| Zip.EndLayout | crates/aisense-core/src/diagnostics.rs:242-254 | Every field of the end record, likewise. |
| Zip.RecordsBeginWithPK | crates/aisense-core/src/diagnostics.rs:205-248 | Fields are little-endian; the three kinds of record begin with their letters. |
| Zip.EveryFileIsStamped | crates/aisense-core/src/diagnostics.rs:198-241 | Both headers of every file decode to the archive's date and its time of day to two seconds. |
| Zip.LocalIsFound | crates/aisense-core/src/diagnostics.rs:393-395 | At a local header's offset the reader finds the whole content. |
| Zip.CentralIsFound | crates/aisense-core/src/diagnostics.rs:387-392 | A directory record reads back as the file's checksum, size, name and offset. |
| Zip.EndIsFound | crates/aisense-core/src/diagnostics.rs:381-384 | The end record is found at its place with count and directory offset. |
| Zip.EntriesAreFound | crates/aisense-core/src/diagnostics.rs:386-399 | The directory walk yields every file in order, each offset pointing at its local header. |
| Zip.ZipRoundTrip | crates/aisense-core/src/diagnostics.rs:376-401 | Reading an archive back gives the same names and contents in order, checksums matching, when counts and sizes fit their fields. |
| Zip.RoundTripNeedsTheFields | crates/aisense-core/src/diagnostics.rs:198-255 | An archive that reads back as its files has counts and sizes that fit the fields. |
| Zip.EndFieldsReadBackIff | crates/aisense-core/src/diagnostics.rs:242-254 | File count and directory offset read back as they were exactly if both fit their fields. |
| Framing.BufferedReader.FillBuf | crates/aisense-ipc/src/frame.rs:25-27 | Reads only when nothing is buffered; the bytes left do not change, and empty means the end. |
| Framing.BufferedReader.Consume | crates/aisense-ipc/src/frame.rs:33-48 | Drops exactly the bytes consumed. |
| Framing.ReadFrame | crates/aisense-ipc/src/frame.rs:19-52 | The outcome and the bytes left depend on the stream alone, however the buffer is filled, and at most `max` bytes are held. |
| Framing.AtEnd | crates/aisense-ipc/src/frame.rs:26-29 | At the end of the stream an unfinished line is a frame as it stands, and nothing is the end; a broken stream is an error. |
| Framing.BeyondBuffer | crates/aisense-ipc/src/frame.rs:42-45 | A line longer than the maximum is refused before its end is seen. |
| Framing.CarriageReturnIsDropped | crates/aisense-ipc/src/frame.rs:36-38 | One carriage return before the newline is not part of the frame. |
| Framing.FirstWritten | crates/aisense-ipc/src/frame.rs:19-63 | A written body is read back as itself, with the rest left, exactly if it fits and has no newline and no final carriage return. |
| Framing.RoundTripIffTransmissible | crates/aisense-ipc/src/frame.rs:19-63 | A sequence of bodies comes back as sent if and only if each of them is such a body. |
| Connection.ServeConnection | crates/aisense-ipc/src/transport.rs:33-94 | The connection's sends, hello checks and handled operations are those of the specification, for any buffering. |
| Connection.Converse | crates/aisense-ipc/src/transport.rs:65-93 | The same for the loop of an accepted connection. |
| Connection.OneReplyPerFrame | crates/aisense-ipc/src/transport.rs:65-93 | The k-th reply is the handler's answer after the operations of the earlier frames, or names the second hello or the malformed frame. |
| Connection.OneReplyEachInOrder | crates/aisense-ipc/src/transport.rs:65-93 | The replies sent are exactly one per non-blank frame, in order, up to the first failed write. |
| Connection.EveryOperationIsHandledOnce | crates/aisense-ipc/src/transport.rs:75-89 | The handler gets each frame's operation once and in order, up to and with the first whose reply is not taken. |
| Connection.HandledOnlyAfterHello | crates/aisense-ipc/src/transport.rs:35-64 | No operation is handled before this connection's own hello was accepted and the welcome sent. |
| Connection.ServedReplies | crates/aisense-ipc/src/transport.rs:33-94 | All the replies of a connection: the welcome and then one per frame that is due, or the single reply to a refused hello, another first frame or an oversized one; cut off where the peer stops taking them. |
| Connection.ServedOperations | crates/aisense-ipc/src/transport.rs:33-94 | All it handles: the operations of the frames after an accepted hello, and otherwise nothing. |
| Connection.FramesOfALine | crates/aisense-ipc/src/transport.rs:65-72 | Byte by byte, which line is a frame: all but those of spaces, tabs, form feeds and carriage returns. |
| Connection.FramesAtTheEnd | crates/aisense-ipc/src/transport.rs:65-72 | An unfinished last line is a frame unless it is blank or the stream broke. |
| Connection.FramesEndTooLarge | crates/aisense-ipc/src/transport.rs:65-74 | A line that is too long ends the frames, with a reply of its own. |
| Notes.ContentHash | crates/aisense-core/src/notes.rs:185-192 | The loop computes the 64-bit hash with its wrap-around, written as sixteen hexadecimal digits. |
| Notes.HashTextIsTheHash | crates/aisense-core/src/notes.rs:185-192 | Two contents have the same hash text exactly if their 64-bit hashes agree. |
| Notes.ChangedByteChangesTheHash | crates/aisense-core/src/notes.rs:185-192 | Changing any one byte of a content changes its hash. |
| Notes.PublishedHashes | crates/aisense-core/src/notes.rs:185-192 | The hashes of nothing and of "a" are the published ones of 64-bit FNV-1a. |
| Notes.LinesRebuild | crates/aisense-core/src/notes.rs:470-471 | The lines with their ends are the whole content, the unterminated last one included. |
| Notes.LineDiff | crates/aisense-core/src/notes.rs:469-497 | The diff is the specified one: common head, removed, added, common tail. |
| Notes.DiffRebuildsBoth | crates/aisense-core/src/notes.rs:467-497 | Same and removed lines rebuild the old text, same and added lines the new one. |
| Notes.DiffIsTight | crates/aisense-core/src/notes.rs:472-478 | The change shown begins and ends with lines that differ, whenever both sides have some. |
| SharedNotes.TeamNotes.Append | crates/aisense-core/src/notes.rs:318-338 | Adds the text and exactly one final newline if the note exists and has room, and else changes nothing. |
| SharedNotes.Trimmed | crates/aisense-core/src/notes.rs:322-323 | Only newlines and carriage returns are cut from an appended text, and only from its end. |
| SharedNotes.TeamNotes.Write | crates/aisense-core/src/notes.rs:342-383 | Installs the content exactly when the hash named is the note's, or there is neither; answers stale exactly when another hash was named; a failure changes nothing. |
| SharedNotes.TeamNotes.Delete | crates/aisense-core/src/notes.rs:402-408 | Removes the one note, or says why not. |
| SharedNotes.StaleAnswerRebuildsBoth | crates/aisense-core/src/notes.rs:350-359 | A stale answer names the disk's hash, and its diff rebuilds the disk's and the writer's lines. |
| SharedNotes.StepKeepsInv | crates/aisense-core/src/notes.rs:318-408 | Checks, effects and deletions keep replay, limits and what the lock holder knows. |
| SharedNotes.NoUpdateIsLost | crates/aisense-core/src/notes.rs:318-383 | In every interleaving the notes are the replay of the successful operations, each justified where it stands, within size and count limits. |
| SharedNotes.AppendsSurvive | crates/aisense-core/src/notes.rs:318-338 | An appended block stays in place until the note is replaced or deleted. |
| SharedNotes.ReplacingMeansHavingRead | crates/aisense-core/src/notes.rs:340-359 | A replacement that follows an append names the hash of a content with that block in it. |
| SharedNotes.DeletionSticksIff | crates/aisense-core/src/notes.rs:402-408 | A deleted note stays away until written anew exactly if no replacement of it was past its checks. |
| SharedNotes.DeletionCanBeUndone | crates/aisense-core/src/notes.rs:349-408 | A run from no notes at all in which a deletion is undone by a replacement that was past its checks. |
| RuntimeCache.RuntimeRegistry.SetCatalog | crates/aisense-core/src/adapter/detect.rs:301-307 | Installs the catalog and drops exactly the entries it no longer lists with their key; the rest still agree with detection. |
| RuntimeCache.RuntimeRegistry.Overview | crates/aisense-core/src/adapter/detect.rs:311-369 | Undisturbed, shows the detector's answer for every adapter, for a detector that looks at command and detection alone, and detects exactly those without an entry or with either of the two changed. |
| RuntimeCache.CacheAlwaysAgrees | crates/aisense-core/src/adapter/detect.rs:301-349 | In every interleaving each cached status is the detector's answer for its own key. |
| RuntimeCache.FreshIffNotEndangered | crates/aisense-core/src/adapter/detect.rs:309-369 | With no swap during it, an overview is fresh in every interleaving if and only if no older one in flight will overwrite an entry it takes from the cache. |
| RuntimeCache.RefreshIsAlwaysFresh | crates/aisense-core/src/adapter/detect.rs:309-369 | A refresh is always answered afresh, and any overview is when none outlived a swap. |
| RuntimeCache.AnOldOverviewEndangers | crates/aisense-core/src/adapter/detect.rs:311-369 | A run that reaches such an endangered state. |
| RuntimeCache.NewAdapterIsNotChecked | crates/aisense-core/src/adapter/detect.rs:341-349 | An adapter that came with a swap during an overview is shown as not checked yet. |
| Handles.ParseAcceptsHandles | crates/aisense-core/src/agent/handle.rs:53-76 | Accepts exactly `^[a-z][a-z0-9-]{1,31}$` minus the reserved names, unchanged. |
| Handles.FirstInvalidIsFirst | crates/aisense-core/src/agent/handle.rs:68-70 | A refusal for a character names the first one that is not allowed. |
| Handles.RefusalsAreExact | crates/aisense-core/src/agent/handle.rs:53-76 | Each refusal is given exactly for its reason, in the order of the checks. |
| Handles.FreeHandle | crates/aisense-core/src/agent/ops.rs:75-87 | Stops within one try more than there are siblings, at the first candidate nobody has, which is a valid handle. |
| Handles.CandidateIsAHandle | crates/aisense-core/src/agent/ops.rs:78-84 | Every numbered candidate of a valid base is a valid handle. |
| Handles.CandidatesDiffer | crates/aisense-core/src/agent/ops.rs:77-84 | Candidates with different numbers differ, whatever was cut from the base. |
| Handles.CandidateKeepsTheBase | crates/aisense-core/src/agent/ops.rs:78-84 | A candidate is as much of the base as leaves room, but for hyphens before the cut, and then the number. |
| Handles.DecimalIsCanonical | crates/aisense-core/src/agent/ops.rs:79 | The number is written without a zero in front. |
| Handles.Suggest | crates/aisense-core/src/agent/handle.rs:82-98 | The loop and the trimming compute the specified suggestion. |
| Handles.SuggestionsAreTidy | crates/aisense-core/src/agent/handle.rs:82-98 | A suggestion is a valid handle with single hyphens and none at the end. |
| Handles.SuggestionIsIdempotent | crates/aisense-core/src/agent/handle.rs:78-98 | Suggesting a suggestion gives it back; the fixed points are exactly the tidy handles. |
| Handles.NameBecomesHandle | crates/aisense-core/src/agent/handle.rs:82-98 | A name of words is suggested as those words, without accents and with one hyphen for each gap. |
| Handles.RevisorSenior | crates/aisense-core/src/agent/handle.rs:78-98 | The example of the documentation. |
| Handles.UntidyHandles | crates/aisense-core/src/agent/handle.rs:78-98 | Two valid handles that are not their own suggestion. |

## Left out

- Processes, PTY and ConPTY creation, signals, threads, `wait_quiet` and the tokio runtime: only the order of their effects is modelled.
- The session log between the ring and the channel, `session_range` and log rotation: the export starts from the chunks read back.
- Pipeline and RacingWriters are step relations on values, not classes, because several tasks interleave; the sequential classes are `Batcher`, `RingBuffer` and `Store`.
- The channel's capacity (512 chunks) and the ring's limits are parameters of the pipeline; only the pump's receiver is modelled, and `Closed` does not occur because the session keeps a sender.
- The pump's wait times: a poll may come at any moment, which allows more interleavings than the timers do.
- Poisoned locks and panics, including a detector that panics.
- The manager's map of sessions and double starts.
- Regular-expression redaction, session summaries, and the file writing of the export.
- The SQL engine, row decoding and JSON columns: each statement is one atomic step over maps; of the foreign keys, the assignee's is checked by updates and creations, the column's by moves and deletions of columns, the team's not at all.
- The rest of board/service.rs: what writers do is assumed only as each lemma says (version = expected + 1; a guard that carries the destination's limits; claims only of cards read as unassigned).
- Agent and card ids are never used twice. The statements of a column replacement count as steps of their own: the limits are asked for between them too, although other connections only see the committed result.
- `dependency_path` builds an adjacency map first; the model looks successors up in the edge list, in the same order.
- Zip.RoundTripNeedsTheFields: does not bound the local part's total length, because the reader follows wrapped offsets into file contents, which may hold a directory of their own; `Zip.EndFieldsReadBackIff` says when the stored offset itself is right.
- The checksum is stored in the archive as a number rather than a 32-bit word.
- The deflate formats and ZIP64: the original stores files uncompressed, below the 16- and 32-bit limits that the round trip names.
- JSON encoding of frames: parsing a hello or a request, and the handler, are parameters of the connection.
- Writers of notes in other processes, note titles, sections, search and listing.
- `fs::write` and rename errors of notes, adapter discovery on PATH, and catalog parsing.
- Unicode lower-casing before a suggestion is a parameter; `copy_name`, colours and ordering of agents are easy members.
- Counters (`dropped`, `suppressed`) are unbounded where the original has 64 bits.
