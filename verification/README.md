# Proofs about execd's session engine

execd keeps persistent bash sessions behind a PTY. A reader thread appends what the shell
prints to a bounded buffer; commands wait in that buffer for delimiters; every checked command
is framed as `EXITCODESTART<seq>:<code>EXITCODEEND`. This project models that engine, the
registry of named sessions above it, the server's decoders, and the benchmark's trace validator
and replayer, and proves what they are there for.

`dafny verify dfyconfig.toml` checks everything. A text (a Rust `String`) is the sequence of its
UTF-8 bytes.

| file | content |
|---|---|
| `Text.dfy`, `Utf8.dfy` | occurrences of one byte string in another; UTF-8 after section 4 of RFC 3629, the lossy reading `Lossy` as a specification |
| `Decoders.dfy` | the three decoders as loops, the tail of a split character |
| `Search.dfy` | the earliest of several patterns, and resuming a search at a remembered offset |
| `Reader.dfy`, `ReaderObject.dfy` | the shared buffer: every operation as a function on a log with history, and the class whose methods update the fields in place |
| `Expect.dfy` | `expect_blocking` over a schedule of waits, against a full rescan at every wake-up; trailing peeks |
| `Framing.dfy`, `Markers.dfy` | printing and parsing exit framings, dropping stale ones, scrubbing |
| `Protocol.dfy`, `Session.dfy`, `SessionRuns.dfy` | what the shell prints, how an exit code is read out of it, and the session as a state machine over all interleavings |
| `Progress.dfy` | a run followed through a whole history to its result |
| `Endings.dfy` | what a returned code needs, deadlines, and the end of a session |
| `Hazards.dfy` | reachable histories in which a session goes wrong |
| `Output.dfy` | escape stripping, truncation, `decode_read` |
| `Registry.dfy` | many clients creating, looking up and closing named sessions |
| `Trace.dfy`, `Validator.dfy`, `Replayer.dfy` | the grammar of a session's events, the validator, the replay |

The main results:

* `Session.ExitCodeIsItsOwn`: over every interleaving of output, reads, runs, timeouts and their
  recovery, late framings, closes and interrupts, a code returned for submission `k` is the one
  the shell printed in framing `k`, unless unread text was dropped while it was being read and
  something printed a suffix of its own.
* `Progress.RunReturnsInTheEnd`: whatever the reads and rounds were, a run that loses no text
  returns its code once its framing and a prompt have arrived.
* `Reader.ChunkingIndependence` and `Reader.ConservationAndBound`: text does not depend on how
  the bytes were cut into reads or when the collector ran, and no byte is lost uncounted.
* `Expect.IncrementalIsRescan`, `Search.StaleSearch` and `Expect.RebasedIsRescan`: when the
  incremental search is the full rescan, exactly which drains spoil it, and the change that
  would make it so always.
* `Session.InterruptsDoNotDisturb`: interrupts can be erased from a history if and only if none
  of their trailing peeks starts inside a character.
* `Endings.CodeNeedsPrompt`: in every history, behind each code returned stand the suffix in front
  of which exactly that code parses and, behind it, a prompt, both consumed.
* `Endings.TimedOutReturnsNothing` and `Session.RecoveryForgets`: a command whose deadline passes
  returns nothing in any continuation, and the command after it starts clean.
* `SessionRuns.RoundsAreLoop`: the rounds from which these histories are made are the loop of
  `expect_blocking`, wait by wait.
* `Registry.RegistryLinearizes`, `Registry.RegistryAnswers` and `Registry.NoSessionLeaks`: under
  any interleaving the answers are those of one order of the calls, they are what a registry of
  live sessions owes its callers, and no session is lost.
* `Validator.AcceptsExactly` and `Replayer.AcceptedReplaysSafely`.

## Promises the code does not keep

* `peek_from` slices a string at `consumed` plus a remembered length
  (`crates/execd-core/src/session.rs:192-196`, `923`). `Expect.PeekLegalExactly`: the slice panics
  exactly when a continuation byte stands there. The panic poisons the reader's mutex:
  whoever takes the lock from then on panics, the reader thread included, and a run that waits
  without a deadline hangs, since nobody is left to wake it. Nothing is read or returned any
  more (`Session.PoisonStays`).
  `Hazards.PeekCanPoison` is a reachable history, for every cap. It cannot happen while the
  cursor has not moved (`Session.UnmovedTrailIsLegal`) or while all output is ASCII
  (`Session.AsciiPeeksAreLegal`).
* The same length is added to the current `consumed`, not to the one at the match.
  `Expect.TrailingOfPeek`: the result is the text behind the match if and only if the cursor has
  not moved since, or nothing stands there; `Hazards.PeekCanSkip` is a reachable history.
* `expect_blocking` remembers `search_from` as an offset in `buf` and does not rebase it when
  `gc` drains the front during a wait (`crates/execd-core/src/session.rs:325-331`, `204-227`).
  `Expect.StaleWaitMisses` is a whole call that keeps waiting for text already in the buffer.
  `Search.StaleSearch` says exactly which drains are harmless, `Expect.ScanAgreesExactly` the same
  at one wake-up, and `Expect.RebasedIsRescan` that rebasing repairs every call.
* A front drop between the match of a marker and the match of its suffix can let a command
  report a number that another process printed: `Hazards.FrontDropTakesAnotherCode`, in any
  session that waits for a suffix, and `Hazards.CodeCanBeWrong`, from the start of a session whose
  output is clean. `Session.ExitCodeIsItsOwn` says exactly when: a code was read
  from its framing's digits if and only if `dropped_total` did not change in between, and it can
  be read from elsewhere only if `EXITCODEEND` was printed outside the framing, after it.
* `strip_control_chars` pushes every byte as a character
  (`crates/execd-core/src/output.rs:71`): `Output.StripKeepsPlainText` shows that plain text
  survives if and only if it is ASCII. It makes a single pass: `Output.OnePassIsEnough` says that
  no ESC is left if and only if every ESC of the input begins a sequence, and
  `Output.StripCanLeaveAnEscape` is a text in which a whole sequence is left.
* `validate_trace.py` documents one leading header but tests line numbers
  (`benchmarks/scripts/validate_trace.py:4-6`, `53-56`). `Validator.DocumentedRule`: the two rules
  agree on every trace whose first line exists and is not blank, and never accept together on any
  other; `Validator.HeaderRuleFails` shows a failure in each direction.

## Model

| member | source | states |
|---|---|---|
| Utf8.LossyIdentity | crates/execd-core/src/output.rs:7-18 | decoding changes nothing exactly when the bytes are well-formed UTF-8 |
| Utf8.LossyLength | crates/execd-core/src/output.rs:9-18 | decoded length is kept bytes plus four per invalid byte, and kept plus invalid bytes are all bytes |
| Utf8.LossyIsUtf8 | crates/execd-core/src/output.rs:9-18 | whatever the bytes, the decoded text is well-formed |
| Utf8.EscapeShows | crates/execd-core/src/output.rs:13-15 | an escape is `\x` and two lower-case hexadecimal digits, whose value is the byte, whatever follows |
| Utf8.LossyCanBeUndone | crates/execd-core/src/output.rs:7-18 | turning every `\xNN` back into its byte inverts decoding on all bytes without a backslash |
| Utf8.MatchOnBoundaries | crates/execd-core/src/session.rs:312-316 | a non-empty text found inside a text begins and ends on character boundaries |
| Decoders.DecodeChunks | crates/execd-core/src/output.rs:9-18 | the engine's decoder keeps characters and escapes every other byte alone, on every byte string; without backslashes in the input, unescaping gives the input back |
| Decoders.DecodeRetry | crates/execd-server/src/main.rs:180-202 | the server's decoder yields the same text as the engine's, can be undone the same way, and its loop ends |
| Decoders.DecodeIgnore | crates/execd-server/src/main.rs:205-224 | yields the same reading with the escapes left out |
| Decoders.BadRun | crates/execd-core/src/output.rs:13-15 | giving up several bytes at once is escaping them one by one |
| Decoders.BadLenIsMaximal | crates/execd-server/src/main.rs:180-224 | the bytes given up together are the longest beginning of a character at the front: a prefix begins some character if and only if it is no longer |
| Decoders.IncompleteTailLen | crates/execd-core/src/output.rs:22-46 | the shortest of at most three last bytes that are a lead byte and too few continuation bytes, 0 if none |
| Decoders.TailOfText | crates/execd-core/src/output.rs:20-46 | behind well-formed text exactly the beginning of a character is held back, and nothing if there is none |
| Decoders.TailCut | crates/execd-core/src/output.rs:22-46 | no character straddles the split in front of the held-back bytes, whatever is read next |
| Decoders.TailOfStream | crates/execd-core/src/session.rs:157-161 | the bytes held back depend on the stream, not on the reads it came in |
| Search.FindFirst | crates/execd-core/src/session.rs:269-274 | the first occurrence, or none anywhere |
| Search.FindEarliest | crates/execd-core/src/session.rs:262-286 | the loop over patterns computes the position-by-position reference search |
| Search.EarliestIsEarliest | crates/execd-core/src/session.rs:261-286 | the result is an occurrence, no pattern occurs earlier, and none of lower index occurs there |
| Search.EarliestUnique | crates/execd-core/src/session.rs:261-286 | that promise has one answer |
| Search.NothingBehind | crates/execd-core/src/session.rs:325-331 | after a failed search nothing can start before the next search offset, whatever is appended |
| Search.StaleSearch | crates/execd-core/src/session.rs:304-331 | after a drain, and wherever the cursor is then, resuming at the old offset finds what a search of all unread text finds, for every continuation, if and only if no skipped byte can still grow into a match |
| Reader.GcEffect | crates/execd-core/src/session.rs:204-227 | the collector keeps a character-aligned suffix within the cap, counts every unread byte it loses, loses one exactly when unread text alone is over the cap, and then leaves half a cap less at most 3 |
| Reader.AppendSizes | crates/execd-core/src/session.rs:152-167 | exact sizes after an append: buffer within the cap, at most 3 bytes pending, drops if and only if unread text exceeds the cap |
| Reader.DropsExactly | crates/execd-core/src/session.rs:148-167 | in numbers of the output cap: an append drops unread text if and only if it is longer than twice the output cap (65536 if that is more, 2^64 - 1 if the product is not below 2^64) |
| Reader.NothingDropped | crates/execd-core/src/session.rs:137-227 | over every run `dropped_total` stays as it was if and only if the unread text was never longer than that at any append |
| Reader.DecodeMore | crates/execd-core/src/session.rs:157-164 | decoding a chunk after the held-back bytes continues the decode of the whole stream |
| Reader.MarkEofSound | crates/execd-core/src/session.rs:169-179 | the flush completes the decode of the accepted stream and keeps the invariant |
| Reader.ApplySound | crates/execd-core/src/session.rs:152-227 | every operation keeps the reader's invariant |
| Reader.ChunkingIndependence | crates/execd-core/src/session.rs:152-179 | in every run, what left the buffer followed by the buffer is the decode of the accepted bytes short of the pending ones, and of all of them after EOF |
| Reader.SameBytesSameText | crates/execd-core/src/session.rs:152-179 | two runs that accept the same bytes hold the same text, whatever the chunks, caps and consumption |
| Reader.ConservationAndBound | crates/execd-core/src/session.rs:198-227 | decoded length is consumed plus `dropped_total` plus unread; the buffer is bounded (12 more after EOF); `consumed` is in range and between characters |
| Reader.RunContinues | crates/execd-core/src/session.rs:152-227 | text only grows at its end, the cursor only moves forward, by what is consumed or dropped |
| ReaderObject.ReaderShared.constructor | crates/execd-core/src/session.rs:137-150 | an empty reader satisfies the invariant; a length is within its cap if and only if it is at most 65536, or at most twice the output cap and the largest `usize` |
| ReaderObject.ReaderShared.CollectGarbage | crates/execd-core/src/session.rs:204-227 | the in-place collector is the specified one |
| ReaderObject.ReaderShared.Append | crates/execd-core/src/session.rs:152-167 | the in-place append is the specified one, history included, keeps the invariant, and drops unread text if and only if there is more of it than the cap |
| ReaderObject.ReaderShared.MarkEof | crates/execd-core/src/session.rs:169-179 | likewise for the flush at end of file |
| ReaderObject.ReaderShared.NotifyClose | crates/execd-core/src/session.rs:181-185 | likewise; only the flag changes |
| ReaderObject.ReaderShared.DiscardThroughEnd | crates/execd-core/src/session.rs:199-202 | all text present counts as consumed, none as dropped |
| ReaderObject.ReaderShared.PeekFrom | crates/execd-core/src/session.rs:192-196 | the decoded text from `skip` bytes behind the cursor on; off a character boundary no text, and the lock is poisoned |
| ReaderObject.ReaderShared.Search | crates/execd-core/src/session.rs:304-312 | one round's search, and that its match may be sliced and consumed |
| ReaderObject.ReaderShared.ExpectBlocking | crates/execd-core/src/session.rs:291-346 | over every schedule of waits the loop reports `before` and the match as they stand in the text and advances exactly past them, or not at all for a peek; if the waits are safe it finds the earliest match in all unread text |
| Expect.MatchIsLegal | crates/execd-core/src/session.rs:304-316 | every slice and advance lies in the buffer and between characters, for every pattern list, empty patterns included |
| Expect.IncrementalIsRescan | crates/execd-core/src/session.rs:291-346 | in every call whose waits are safe in the sense of `Search.StaleSearch` the incremental search and a rescan at each wake-up end in the same state with the same outcome |
| Expect.DrainFreeIsSafe | crates/execd-core/src/session.rs:325-343 | waits in which nothing is drained are safe |
| Expect.ScanAgreesExactly | crates/execd-core/src/session.rs:304-308 | at one wake-up, the search from the remembered offset finds what a search from the cursor finds if and only if nothing occurs in between |
| Expect.RebasedIsRescan | crates/execd-core/src/session.rs:304-331 | with the remembered offset reduced by what was drained, the loop is the full rescan in every call, whatever is drained |
| Expect.ExpectReports | crates/execd-core/src/session.rs:309-322 | over every schedule, drained or not, the outcome describes the text and the cursor |
| Expect.ExpectFindsEarliest | crates/execd-core/src/session.rs:261-346 | with safe waits: earliest position, lowest index, no pattern inside `before`; otherwise no match in the unread text |
| Expect.TrailingOfPeek | crates/execd-core/src/session.rs:917-924 | an interrupt's trailing peek yields the text behind its match, without a panic, if and only if the cursor has not moved or nothing stands there |
| Expect.PeekLegalExactly | crates/execd-core/src/session.rs:192-196 | the peek does not panic if and only if it starts at or behind the end of the text, or at a byte that is no continuation byte |
| Expect.UnmovedPeekIsLegal | crates/execd-core/src/session.rs:917-924 | it never panics while the cursor stands where it stood at the match |
| Expect.StaleWaitMisses | crates/execd-core/src/session.rs:325-331 | a concrete call, after reads of at most 8192 bytes, that a rescan would end with a match and the code leaves waiting |
| Framing.MarkerOfBody | crates/execd-core/src/output.rs:126-145 | parsing inverts printing: any number below 2^64, any digits, any following text give that number and the exact length |
| Framing.BodyOfMarker | crates/execd-core/src/output.rs:124-145 | only digits, a colon, digits and the suffix parse, and the number is theirs |
| Framing.MarkerSeqLen | crates/execd-core/src/output.rs:126-145 | the byte scanner is that parser |
| Framing.PrefixUnbordered | crates/execd-core/src/output.rs:80-95 | two occurrences of the prefix never overlap |
| Framing.BodyHasNoPrefix | crates/execd-core/src/output.rs:80-95 | no prefix starts inside the digits or the suffix of a framing |
| Markers.StaleCutIs | crates/execd-core/src/output.rs:97-122 | the cut is behind the last well-formed framing numbered below `seq`, or nowhere if there is none |
| Markers.NoStaleLeft | crates/execd-core/src/output.rs:97-122 | no older framing is left |
| Markers.DropStaleTwice | crates/execd-core/src/output.rs:97-122 | dropping for `q`, then for a later `q'`, is dropping for `q'`; so dropping is idempotent |
| Markers.DropStaleFramings | crates/execd-core/src/output.rs:100-122 | the scanning loop takes exactly that suffix |
| Markers.ScrubMarkers | crates/execd-core/src/output.rs:80-95 | exactly the bytes that belong to no well-formed framing are kept |
| Markers.ScrubInvertsInterleaving | crates/execd-core/src/output.rs:77-95 | texts without the prefix, interleaved with framings, come back concatenated |
| Protocol.MarkerOfFrame | crates/execd-core/src/session.rs:709-714 | the marker of `k` stands at the start of framing `j` if and only if `j == k` |
| Protocol.MarkerMeansFrame | crates/execd-core/src/session.rs:706-721 | in output that does not print it by itself, the marker of `k` stands only where framing `k` was printed |
| Protocol.DecodedOccurrence | crates/execd-core/src/session.rs:160-164 | lossy decoding creates no marker: each one in the text stands in the bytes, at a clean cut |
| Protocol.CodeOfDigits | crates/execd-core/src/session.rs:829-834 | a printed code reads back as itself exactly when it is an `i32` |
| Protocol.ParseCodeIs | crates/execd-core/src/session.rs:829-834 | text parses as a code if and only if it is Unicode white space, an optional sign, digits and white space of a value in `i32`, and then as that value |
| Protocol.CodeBeforeSuffix | crates/execd-core/src/session.rs:809-834 | whatever suffix is matched behind a marker, text before it that parses is that framing's code |
| Protocol.NoSuffixBehind | crates/execd-core/src/session.rs:809-822 | in front of text without a suffix, none can be matched once the cursor has passed the last framing |
| Session.ExitCodeRead | crates/execd-core/src/session.rs:720-754 | between the marker of `k` and any later suffix only the code of framing `k` parses |
| Session.NextKeeps | crates/execd-core/src/session.rs:702-884 | every action keeps the session's invariant, poisoned or not |
| Session.ExitCodeIsItsOwn | crates/execd-core/src/session.rs:702-884 | in every interleaving, a code returned for `k` was read from the digits of the one framing printed for `k`, and is its code, if and only if nothing was dropped between marker and suffix; otherwise it was read behind that framing, which takes a suffix printed since |
| Session.NumbersAreFresh | crates/execd-core/src/session.rs:708-709 | in every reachable state codes have come back in the order of their runs, at most one per number, and framings carry increasing numbers that were handed out |
| Session.RunAllContinues | crates/execd-core/src/session.rs:291-346 | in every history text only grows at its end and the cursor only moves forward |
| Session.RecoveryForgets | crates/execd-core/src/session.rs:855-883 | over every interleaving, when the recovery of a timed-out command is over it has returned nothing, nothing is unread, and every marker read by then stays behind the cursor for good |
| Session.RecoveryEnds | crates/execd-core/src/session.rs:873-883 | from any recovering session the deadline of the expect and the end of the sleep lead to the end of the recovery, prompt or not |
| Endings.CodeNeedsPrompt | crates/execd-core/src/session.rs:808-853 | over every history from the start of a session, for each code returned there are a suffix behind the offset where it was read, such that exactly this code parses in between, and behind the suffix a prompt, all of it consumed |
| Endings.TimedOutReturnsNothing | crates/execd-core/src/session.rs:719-848 | a run whose deadline passes while the marker, suffix or prompt it waits for stands nowhere in the unread text changes nothing but its phase and never returns a code, in any continuation |
| Endings.UnwrittenReturnsNothing | crates/execd-core/src/session.rs:708-715 | a command that could not be written uses up its number and never returns a code |
| Endings.NoRunAfterEnd | crates/execd-core/src/session.rs:729-954 | once a round has found the reader closed, or ended without what it waits for, nothing is returned and no run starts, in any continuation |
| Endings.NoRunAfterClose | crates/execd-core/src/session.rs:567-571 | nor after a close, or after an interrupt that found the end of the shell |
| Session.InterruptsDoNotDisturb | crates/execd-core/src/session.rs:503-564 | erasing every round and every trailing peek of every interrupt from a history without EOF or close leaves buffer, run, lock and results unchanged if and only if no trailing peek starts inside a character |
| Session.PoisonStays | crates/execd-core/src/session.rs:152-202 | once the lock is poisoned nothing is read or returned any more, and only trailing peeks poison it |
| Session.UnmovedTrailIsLegal | crates/execd-core/src/session.rs:917-924 | over every continuation, an interrupt's trailing peek is legal if the cursor stands where it stood at the match |
| Session.AsciiPeeksAreLegal | crates/execd-core/src/session.rs:192-196 | no peek panics while everything printed is ASCII |
| SessionRuns.RunReturnsItsCode | crates/execd-core/src/session.rs:702-853 | the undisturbed run: whatever precedes its framing becomes the output, and exactly the printed code is returned, even if every deadline has passed by the time of its round |
| Progress.HistorySettles | crates/execd-core/src/session.rs:304-331 | along every history in which the run's waits drain nothing, the offset its expect remembers may be resumed from |
| Progress.HistoryOnTheWay | crates/execd-core/src/session.rs:702-853 | through such a history, if nothing unread is dropped, the run stands at its own marker, digits or prompt, or has returned its own code |
| Progress.RunReturnsInTheEnd | crates/execd-core/src/session.rs:702-853 | whatever the reads and rounds were, once framing and prompt have arrived the run has returned its code or does so within three more rounds |
| SessionRuns.RoundIsLoop | crates/execd-core/src/session.rs:291-346 | one round is `expect_blocking` up to its first wait or its deadline: found, expired, ended, closed or waiting exactly where the loop matches, times out, ends, is closed or waits, with the same text and the same buffer |
| SessionRuns.RoundsAreLoop | crates/execd-core/src/session.rs:291-346 | rounds with the offset they remember, over any schedule of waits and with or without a deadline at its end, are the loop over that schedule |
| SessionRuns.RoundFinds | crates/execd-core/src/session.rs:304-338 | a round that may resume finds the first occurrence in the unread text even if its deadline has passed |
| SessionRuns.LateFramingDropped | crates/execd-core/src/session.rs:755-756 | after a timed-out command, its late framing and the text before it are cut from the next command's plain ASCII output, control characters stripped first, and nothing else is |
| Hazards.PeekCanPoison | crates/execd-core/src/session.rs:192-196 | for every cap, a history from the start of a session in which an interrupt's trailing peek poisons the lock |
| Hazards.PeekCanSkip | crates/execd-core/src/session.rs:917-924 | for every cap and ASCII text, a history in which the trailing peek leaves out the first bytes of the text behind the match |
| Hazards.FrontDropTakesAnotherCode | crates/execd-core/src/session.rs:204-227 | in any session waiting for a suffix, a background job that prints blank lines, any exit status and a suffix, but no marker, read in chunks of at most 8192 bytes, has its number returned; clean output stays clean |
| Hazards.CodeCanBeWrong | crates/execd-core/src/session.rs:702-884 | for every cap and every exit status but 0, a history from the start of a session with clean output in which the one framing of the first run carries code 0 and that status is returned for it |
| Output.EscapeEndIs | crates/execd-core/src/output.rs:50-73 | the scanner finds exactly the sequences of the grammar, each with one possible end |
| Output.StrippedIsOutside | crates/execd-core/src/output.rs:50-73 | what is kept is exactly the bytes that belong to no escape sequence of the grammar, in order |
| Output.WidenedShows | crates/execd-core/src/output.rs:71 | each byte is pushed as the character of that number: the characters of the result, by code point, are the bytes |
| Output.LineEnds | crates/execd-core/src/output.rs:74 | between any texts without CRLF, CRLF becomes a line feed and nothing else changes |
| Output.LinesOf | crates/execd-core/src/output.rs:74 | every text is such texts, joined |
| Output.StripControlChars | crates/execd-core/src/output.rs:50-75 | the scanning loop is leftmost non-overlapping removal, then widening, then CRLF replacement |
| Output.StripInvertsWeaving | crates/execd-core/src/output.rs:48-73 | ESC-free texts interleaved with escape sequences come back concatenated |
| Output.StripKeepsPlainText | crates/execd-core/src/output.rs:71-74 | text without ESC and CRLF is kept if and only if it is ASCII |
| Output.OnePassIsEnough | crates/execd-core/src/output.rs:50-75 | no ESC and no escape sequence is left if every ESC of the input begins a sequence; an ESC is left if one does not |
| Output.StripCanLeaveAnEscape | crates/execd-core/src/output.rs:50-75 | a text in which one pass leaves a whole escape sequence |
| Output.TruncateWithNote | crates/execd-core/src/output.rs:173-192 | over the cap, the longest suffix of at most `cap` bytes on a boundary, at least `cap - 3`; the note reads back as the length kept and the length of the output, in that order |
| Output.NoteIsRead | crates/execd-core/src/output.rs:183-187 | whatever follows the note, its two numbers read back |
| Output.DecodeRead | crates/execd-server/src/main.rs:395-413 | each mode's text or error; every mode returns well-formed text and leaves valid UTF-8 alone; `backslashreplace` can be undone without backslashes in the input |
| Output.OnePerBeginning | crates/execd-server/src/main.rs:406 | `replace` gives one U+FFFD for each longest beginning of a character, and one for each byte that begins none |
| Registry.SessionManager.Get | crates/execd-core/src/manager.rs:92-101 | the registered session of that name, not found exactly if there is none; changes nothing |
| Registry.SessionManager.CreateSession | crates/execd-core/src/manager.rs:35-73 | alone, the two checks around the start are one create of the sequential map |
| Registry.SessionManager.InsertIfAbsent | crates/execd-core/src/manager.rs:59-68 | the second check with its insert answers as the sequential map does |
| Registry.SessionManager.Remove | crates/execd-core/src/manager.rs:108-120 | likewise for close |
| Registry.SessionManager.DrainAll | crates/execd-core/src/manager.rs:124-128 | likewise for close_all |
| Registry.NoSessionLeaks | crates/execd-core/src/manager.rs:35-132 | in every interleaving a started session is closed, registered, or held by exactly one call; every registered name maps to a started session of that name, so none is registered twice; when all calls have returned, unregistered means closed |
| Registry.RegistryLinearizes | crates/execd-core/src/manager.rs:35-132 | one order of the calls explains registry and answers by the sequential map; every returned call has its own place between its start and its return |
| Registry.RegistryAnswers | crates/execd-core/src/manager.rs:35-132 | in that order, by the entries alone: a lookup or a close of a name gets `h` if and only if `h` was created under the name and the name was not closed since, and is not found if and only if there is no such session; `close_all` gets exactly the live sessions; a create is refused its type, finds the name taken, or succeeds, exactly as the name is live or free |
| Registry.NeverFindsClosed | crates/execd-core/src/manager.rs:92-132 | a lookup that begins after a moment and finds a session never finds one that was closed at that moment |
| Trace.PairedIsLocal | benchmarks/scripts/validate_trace.py:65-80 | (start (command or interrupt)* end)* holds if and only if starts stand exactly at the beginning and behind ends, and the last event is an end |
| Trace.FitsIsInPlace | benchmarks/scripts/validate_trace.py:65-80 | one set of open sessions checks all sessions' grammars at once |
| Validator.Validate | benchmarks/scripts/validate_trace.py:30-85 | crashes, counts, complaints line by line and leftover sessions, for every trace |
| Validator.ComplainsExactly | benchmarks/scripts/validate_trace.py:36-82 | a problem is reported on a line if and only if its own reason holds there; open means started before the line and not ended since |
| Validator.AcceptsExactly | benchmarks/scripts/validate_trace.py:30-85 | accepted if and only if every event is well formed, the header is on line 1 and only there, events are numbered in order, file operations known, and every session's events paired |
| Validator.DocumentedRule | benchmarks/scripts/validate_trace.py:53-56 | the documented header rule and the code's agree on traces with a used first line, and on no other accepted trace |
| Validator.HeaderRuleFails | benchmarks/scripts/validate_trace.py:53-56 | an accepted trace without header, and a refused one with it |
| Replayer.Replay.Run | benchmarks/scripts/replay_trace.py:105-137 | the final sessions, and which failed session calls are recorded as failures and which are not, are those of the event-by-event specification |
| Replayer.LapsesAre | benchmarks/scripts/replay_trace.py:55-135 | a session call fails exactly where the validator would complain about its session; it is recorded unless it is an interrupt, or a command whose error carries the recorded exit code |
| Replayer.CleanReplay | benchmarks/scripts/replay_trace.py:105-137 | no failing call and nothing left open if and only if every session's events are paired |
| Replayer.AcceptedReplaysSafely | benchmarks/scripts/replay_trace.py:105-137 | an accepted trace never creates an existing session, never uses or closes a missing one, and leaves none open |

## Left out

- The PTY, bash, termios, signals, process groups and reaping. The shell is an emitter of texts and framings: framings come whole, in the order of their submissions, at most once each, with an exit status of 0 to 255, and the input is not echoed.
- Real time. A wait is a schedule of what happened until each wake-up; a deadline is a flag that may be set at any round.
- `session.rs` sessions as objects: threads interleave, so the session machine is on values; the shared buffer, which they all update, is the class `ReaderShared`.
- A panicking thread is modelled by what it leaves behind: a poisoned lock, a run that returns nothing (one that hangs takes no more rounds), and, where `mark_dead` is reached, the closed flag. Panics other than that of `peek_from` do not occur in the model.
- Custom expect strings, interactive runs, `check="ignore"` and `check="silent"` in `Session`: they may leave prompts or framings unread by design. `Expect` covers their matching for arbitrary pattern lists.
- Session startup, the quit handshake, and the text of messages (`nonzero_message`, `py_repr`, `timeout_f64`).
- The interrupt's signals and retries: `Session` models any number of rounds of any number of interrupts, each with its own remembered offset and waiting for the prompt, and their trailing peeks.
- The drop note of `bound_output` and the final removal of `UNIQUESTRING29234` and `SHELLPS1PREFIX` from output, which can join its neighbours into a new marker.
- Machine widths: `dropped_total`, sequence numbers and `usize` lengths do not wrap here; the saturation of the cap and the 2^64 limit of parsed sequence numbers are modelled.
- The standard library: `utf8_chunks`, `from_utf8` with its error lengths, `from_utf8_lossy`, `trim`, integer parsing, `replace`, `windows().position()` are modelled by their documented behaviour.
- Session.ExitCodeIsItsOwn: a code read after a drop is only said to come from behind its framing, because it may be any number (`Hazards.FrontDropTakesAnotherCode`).
- Progress.RunReturnsInTheEnd: not claimed when a wait drains, a deadline passes or unread text is dropped, because then a round can miss the marker, give up, or read past the framing.
- Session.InterruptsDoNotDisturb: not claimed of a history with a trailing peek inside a character, because there it is false (`Hazards.PeekCanPoison`).
- Expect.IncrementalIsRescan: not claimed of unsafe waits, because there it is false (`Expect.StaleWaitMisses`).
- Reader.State: a slice or a drain outside the buffer cannot be expressed. For `expect_blocking` and `gc`, `Expect.MatchIsLegal` and the reader's invariant show that none falls outside the buffer or inside a character; the slice of `peek_from` can fall inside one and is modelled with its panic.
- SessionRuns.LateFramingDropped: stated for ASCII without ESC, where stripping changes line ends only.
- Registry: the session's own state; a started session is a handle that is closed or not, and close is idempotent.
- Validator: JSON itself (a line is blank, unreadable, not an object, or an object), `NaN` and infinities, and the order in which never-closed sessions are listed.
- Replayer.Replay.Run: `failed` holds session calls only; the number in the error of a run in a missing session is a function of the session's name; working directory, environment, exit-code mismatches, latencies and file operations are best effort in the code.
- HTTP routes, authentication, uploads, `execute`, wire structs, the error table, and the rest of the benchmark scripts.
