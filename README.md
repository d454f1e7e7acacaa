# BPQ Telnet gateway relay, modelled in Dafny

The gateway bridges a local BPQ32 packet-radio node, which speaks lines over TCP, to a
remote Telnet BBS. Each accepted local connection gets one session with two workers:

- `BPQHandler.run` owns the session. It opens the remote Telnet connection and tells the
  local client whether that worked. It then forwards the client's lines, each followed by
  `\n`, until a line that reads `exit` once trimmed, ignoring case. At the end it closes
  whichever sockets exist and are still open.
- `TelnetReader.run` relays the other way, character by character. It buffers characters
  while the remote stream has data ready. As soon as none is ready it passes the buffer
  through `sanitizeOutput`, prints the result to the local client and empties the buffer.
  When the loop ends (end of stream, read error, interrupt, or the local socket closed)
  its `finally` block closes the local socket.
- `sanitizeOutput` deletes ANSI CSI sequences, Telnet subnegotiations, Telnet negotiation
  triplets and leftover IAC pairs, in that order. It then drops control characters other
  than LF, CR and TAB, and also drops DEL and U+2640.

The project has five modules:

- `Sequences` (`sequences.dfy`): subsequences and flattening.
- `Sanitizer` (`sanitizer.dfy`): the sanitizer, modelled as functions.
  - Each `replaceAll(regex, "")` is a left-to-right scanner `RemoveAll`.
  - The scanner uses a matcher per pattern, `MatchLength`, which finds the match Java's
    regex engine finds: a greedy CSI match, a lazy subnegotiation match, and `.` that
    excludes the five Java line terminators.
  - The source's final loop is the method `SanitizeOutput`.
- `Sockets` (`sockets.dfy`): a socket class that records whether it is closed, how often
  `close()` was called, and every write in order.
- `Downlink` (`telnet_reader.dfy`): the class `TelnetReader`.
  - Its methods run the polling loop over a given sequence of poll outcomes (`ReadEvent`).
  - The methods are proved against the functions `Pending`, `Flushed` and `Emitted`, which
    give the buffer, the flushed chunks and the local writes after any prefix of those
    outcomes.
- `Uplink` (`bpq_handler.dfy`): the class `BPQHandler`.
  - Its methods run the session over a connect outcome, the client's lines, the set of
    writes that fail, whether the downlink worker closes the local socket, and the
    outcomes of the two final `close()` calls.
  - They are proved against `ExitIndex`, `Forwarded`, `WriteErrors` and `Farewell`.

What is proved:

- The sanitizer only deletes characters.
- It never emits a character its filter rejects.
- It removes a complete CSI sequence, a shortest subnegotiation block and a negotiation
  triplet; the text before it is untouched and the text after it is sanitized as usual.
  The lemmas state the conditions:
  - the text before the sequence is clean, that is, it has no IAC, no ESC and no
    character the filter drops;
  - a subnegotiation body has no ESC;
  - for arbitrary text after it, a triplet's option is neither ESC nor IAC. Between two
    clean texts any option that is no line terminator and starts no CSI match will do,
    ESC and IAC included.
- Every IAC it keeps is followed by a line terminator or ends the text.
- It is idempotent.
- The downlink delivers the sanitized chunks in read order and discards the buffer at end
  of stream.
- Because each chunk is sanitized on its own, a CSI sequence split by an idle poll after
  its ESC leaks its tail to the client (`SplitSequenceLeaks`).
- The uplink forwards exactly the lines before the exit command, minus the failed writes.
  It never forwards the exit line.
- On every path, each socket of `BPQHandler.run`'s session that exists ends closed after
  exactly one `close()` call, unless that call throws. The `finally` block never closes an
  already closed socket. When the downlink worker closed the local socket after the last
  line read, the next `readLine` throws and that worker's call is the only one.
- `TelnetReader.run` closes the local socket on every path, even when the other worker
  closed it first. Closing a socket twice changes nothing.

Details of the source the model keeps:

- The CSI pattern takes the parameter characters `;0-9` first and the intermediates
  `0x20-0x2F` after them, then one final character in `0x40-0x7E`.
  - Its runs are greedy. Because the three classes of the pattern are disjoint, the
    match is unique.
  - `ESC[?25h` is therefore no match. Its ESC goes in the final filter.
- The option of a triplet and the character after a leftover IAC are regex `.`, so
  they are never a line terminator. An IAC before a newline survives every pass.
- At end of stream, `TelnetReader.run` closes only the local socket. The remote socket is
  closed by `BPQHandler.run`.
- The sanitizer is idempotent on every input.

## Model

| member | source | states |
|---|---|---|
| Sanitizer.Keep | BPQTelnetGateway.java:223-228 | no contract; defines the two tests of the builder loop: not U+2640, and not a control character below 32 other than LF, CR and TAB, and not DEL |
| Sanitizer.StripSequences | BPQTelnetGateway.java:207-214 | no contract; defines the four `replaceAll` passes, applied in the source's order |
| Sanitizer.Sanitize | BPQTelnetGateway.java:207-231 | no contract; defines `sanitizeOutput` on non-null input: the four passes, then the filter; its properties are the lemmas below |
| Sanitizer.Span | BPQTelnetGateway.java:207 | a greedy `[...]*` run: every counted character is in the class and the next one is not |
| Sanitizer.SubnegotiationEnd | BPQTelnetGateway.java:210 | the lazy `.*?IAC SE` ends at the first IAC SE with no line terminator and no earlier IAC SE before it, or there is no match |
| Sanitizer.MatchLength | BPQTelnetGateway.java:207-214 | a match starts with the pattern's trigger (ESC or IAC) and has at least two characters; for the IAC patterns its second character is no line terminator |
| Sanitizer.RemoveAll | BPQTelnetGateway.java:207-214 | `replaceAll(regex, "")` never lengthens the text |
| Sanitizer.Filter | BPQTelnetGateway.java:220-231 | the filter loop never lengthens the text |
| Sanitizer.SanitizeOutput | BPQTelnetGateway.java:202-232 | the four deletions and the builder loop compute `Sanitize` of the input |
| Sanitizer.RemoveAllOnlyDeletes | BPQTelnetGateway.java:207-214 | each regex pass returns a subsequence of its input |
| Sanitizer.FilterOnlyDeletes | BPQTelnetGateway.java:220-231 | the filter returns a subsequence of its input |
| Sanitizer.SanitizeOnlyDeletes | BPQTelnetGateway.java:207-231 | sanitizeOutput only deletes: its result is a subsequence of its input, in order, nothing inserted or changed |
| Sanitizer.FilterKeepsOnlyKept | BPQTelnetGateway.java:221-230 | every character the filter appends passes its two tests |
| Sanitizer.SanitizeEmitsOnlyKept | BPQTelnetGateway.java:220-230 | the output holds no character below 32 other than LF, CR and TAB, no DEL and no U+2640 (so no ESC) |
| Sanitizer.RemoveAllPlainPrefix | BPQTelnetGateway.java:207-214 | a prefix without the trigger character passes a regex pass unchanged and the pass acts on the rest alone |
| Sanitizer.RemoveAllNoMatch | BPQTelnetGateway.java:207-214 | a pass that matches at no position returns its input |
| Sanitizer.FilterAppend | BPQTelnetGateway.java:220-231 | the filter works character by character: filtering a concatenation concatenates the filtered parts |
| Sanitizer.FilterStep | BPQTelnetGateway.java:221-229 | one loop iteration appends the character exactly when it passes both tests |
| Sanitizer.FilterKeepsAll | BPQTelnetGateway.java:220-231 | text whose characters all pass the tests is returned unchanged |
| Sanitizer.CleanPrefix | BPQTelnetGateway.java:207-231 | a prefix without IAC, ESC or rejected characters comes out unchanged, in front of the sanitized rest |
| Sanitizer.SanitizeCleanIdentity | BPQTelnetGateway.java:207-231 | clean text is returned unchanged |
| Sanitizer.IacFreePasses | BPQTelnetGateway.java:208-214 | the three IAC passes leave text without IAC alone |
| Sanitizer.SanitizePlainText | BPQTelnetGateway.java:207-231 | without ESC and IAC, sanitizeOutput is the character filter alone |
| Sanitizer.CsiRecognized | BPQTelnetGateway.java:206-207 | every complete CSI sequence (ESC `[`, parameters, intermediates, one final character) at the start of the text is matched with exactly its length |
| Sanitizer.CsiMatchSound | BPQTelnetGateway.java:206-207 | everything the CSI pass matches is such a complete sequence |
| Sanitizer.CsiRemoved | BPQTelnetGateway.java:206-207 | a CSI sequence after clean text vanishes, the text before it is untouched and the text after it is sanitized as usual |
| Sanitizer.SubnegotiationEndReaches | BPQTelnetGateway.java:210 | the lazy match reaches the first IAC SE when nothing before it stops the match |
| Sanitizer.SubnegotiationRecognized | BPQTelnetGateway.java:208-210 | a block IAC SB body IAC SE whose body has no line terminator and no IAC SE is matched with exactly its length |
| Sanitizer.SubnegotiationMatchSound | BPQTelnetGateway.java:208-210 | everything the subnegotiation pass matches is such a shortest block |
| Sanitizer.SubnegotiationVanishes | BPQTelnetGateway.java:208-210 | such a block (without ESC) at the start of the text disappears and the rest is sanitized as usual |
| Sanitizer.SubnegotiationRemoved | BPQTelnetGateway.java:208-210 | such a block after clean text is removed; the text before it is untouched and the text after it is sanitized as usual |
| Sanitizer.SubnegotiationSkipsTriplet | BPQTelnetGateway.java:210-212 | a negotiation triplet whose option is not IAC is no subnegotiation and survives pass 2 for pass 3 |
| Sanitizer.TripletVanishes | BPQTelnetGateway.java:211-212 | IAC, one of WILL/WONT/DO/DONT and an option that is no line terminator, no ESC and no IAC, at the start of any text, disappear |
| Sanitizer.TripletRemoved | BPQTelnetGateway.java:211-212 | such a triplet after clean text and before any text is removed; the text before it is untouched and the text after it is sanitized as usual |
| Sanitizer.SubnegotiationNeedsSecondIac | BPQTelnetGateway.java:210 | no subnegotiation match starts where at most one IAC follows |
| Sanitizer.TripletPassesCsi | BPQTelnetGateway.java:207-212 | pass 1 keeps a triplet whose option starts no CSI match, followed by clean text |
| Sanitizer.TripletPassesSubnegotiation | BPQTelnetGateway.java:210-212 | pass 2 keeps a triplet followed by clean text, also when its option is IAC |
| Sanitizer.TripletThenCleanLastPasses | BPQTelnetGateway.java:211-231 | passes 3 and 4 and the filter turn a triplet followed by clean text into that text |
| Sanitizer.TripletBetweenClean | BPQTelnetGateway.java:211-212 | between two clean texts a triplet is removed whatever its option, ESC and IAC included, if the option is no line terminator and starts no CSI match |
| Sanitizer.LoneIacRemovalGuards | BPQTelnetGateway.java:213-214 | after pass 4 every IAC ends the text or is followed by a line terminator |
| Sanitizer.FilterKeepsGuard | BPQTelnetGateway.java:220-231 | the filter keeps that guard: line terminators are never dropped |
| Sanitizer.SanitizeGuardsIac | BPQTelnetGateway.java:213-231 | every IAC in the output ends it or is followed by a line terminator |
| Sanitizer.SanitizeIdempotent | BPQTelnetGateway.java:207-231 | sanitizing twice is sanitizing once, on every input |
| Sanitizer.ExampleColourSequence | BPQTelnetGateway.java:206-207 | ESC `[1;32m` between two clean texts disappears (`"A" ESC "[1;32mB"` gives `"AB"`) |
| Sanitizer.ExampleWillEcho | BPQTelnetGateway.java:211-212 | `A` IAC WILL ECHO `B` gives `AB` |
| Sanitizer.ExampleWillIac | BPQTelnetGateway.java:211-212 | `A` IAC WILL IAC `B` gives `AB` |
| Sanitizer.ExampleBell | BPQTelnetGateway.java:226-228 | BEL is dropped, a newline is kept |
| Sanitizer.UnmatchedEscape | BPQTelnetGateway.java:207-228 | an ESC that starts no CSI match survives passes 1-4 and only the filter drops it, when it is followed by clean text |
| Sanitizer.ExamplePrivateMode | BPQTelnetGateway.java:207 | ESC `[?25h` is no CSI match and comes out as `[?25h` |
| Sanitizer.ExampleIacBeforeNewline | BPQTelnetGateway.java:213-214 | IAC followed by a newline survives every pass, because `.` does not match a newline |
| Sockets.Socket.Send | BPQTelnetGateway.java:257-258 | a write to an open socket is appended to its output; a write to a closed one is lost; open state and close count unchanged |
| Sockets.Socket.Close | BPQTelnetGateway.java:160-162 | every call is counted, nothing is written, and the socket ends closed unless the close throws |
| Downlink.EndsLoop | BPQTelnetGateway.java:242-266 | no contract; defines the loop's exits: end of stream (:246-247), a read error (the `catch` at :270), an interrupted sleep (:264-265) and the local socket closed (the guard at :242) |
| Downlink.Pending | BPQTelnetGateway.java:243-256 | no contract; defines the buffer after a prefix of events: characters since the last idle poll |
| Downlink.Flushed | BPQTelnetGateway.java:250-256 | no contract; defines the chunks `sanitizeOutput` is given: the buffer at each idle poll that finds it non-empty |
| Downlink.Chars | BPQTelnetGateway.java:244-248 | no contract; defines the events of characters that are ready back to back |
| Downlink.Emitted | BPQTelnetGateway.java:253-259 | one local write per flushed chunk |
| Downlink.FlushedNonEmpty | BPQTelnetGateway.java:253 | no flushed chunk is empty: an idle poll with an empty buffer writes nothing |
| Downlink.EmittedPointwise | BPQTelnetGateway.java:253-259 | the k-th local write is the sanitized k-th chunk |
| Downlink.ReadOrder | BPQTelnetGateway.java:244-259 | the flushed chunks followed by the buffer are every character read, in read order |
| Downlink.StepAt | BPQTelnetGateway.java:244-266 | one poll, on the prefixes the loop consumes: a character is appended to the buffer; an idle poll writes a non-empty buffer, sanitized, and empties it; other events leave both alone |
| Downlink.IdleFlushes | BPQTelnetGateway.java:250-260 | an idle poll with a non-empty buffer writes that buffer, sanitized, and leaves it empty |
| Downlink.EndOfStreamDiscards | BPQTelnetGateway.java:245-248 | end of stream flushes nothing: the buffered characters are read but never delivered |
| Downlink.EmittedText | BPQTelnetGateway.java:253-259 | the delivered text is a subsequence of the flushed chunks and holds only characters the filter keeps |
| Downlink.DeliveredText | BPQTelnetGateway.java:242-268 | what the local client receives is the remote input with characters deleted, in order, and holds no rejected character |
| Downlink.SplitSequenceLeaks | BPQTelnetGateway.java:242-259 | over poll events: a CSI sequence and clean text read back to back, then an idle poll, deliver only that text; the ESC alone, an idle poll, the rest of the sequence and the text, another idle poll, deliver the sequence without its ESC, then the text |
| Downlink.CharsBuffered | BPQTelnetGateway.java:244-250 | characters read back to back are appended to the buffer, in order, and write nothing |
| Downlink.ChunkThenIdle | BPQTelnetGateway.java:244-259 | from an empty buffer, a run of characters then an idle poll writes exactly that run, sanitized, and empties the buffer |
| Downlink.OneChunkText | BPQTelnetGateway.java:244-259 | the client receives the sanitized run as its text |
| Downlink.TwoChunksText | BPQTelnetGateway.java:244-259 | two runs separated by idle polls are sanitized separately and delivered one after the other |
| Sanitizer.WholeCsiRemoved | BPQTelnetGateway.java:206-207 | a CSI sequence followed by clean text leaves only that text |
| Sanitizer.CsiTailClean | BPQTelnetGateway.java:206-230 | everything of a CSI sequence after its ESC is printable ASCII, so together with clean text it is clean |
| Sanitizer.LoneEscapeVanishes | BPQTelnetGateway.java:226-227 | a text holding only ESC sanitizes to nothing |
| Downlink.StopIndex | BPQTelnetGateway.java:242-266 | the index of the event that ends the loop (end of stream, read error, interrupt, closed local socket), or the number of events |
| Downlink.BeforeStop | BPQTelnetGateway.java:242-266 | no event before that index ends the loop |
| Downlink.StopIndexStep | BPQTelnetGateway.java:242-266 | scanning in order, an event ends the loop exactly when it is the one at that index |
| Downlink.TelnetReader.Run | BPQTelnetGateway.java:235-279 | events are consumed up to the first one ending the loop; the local output grows by exactly the sanitized flushed chunks; the buffer left is the pending one; once the loop ends `close()` is called and the socket ends closed exactly when it was closed before, the other worker closed it, or the close did not throw; this also holds when it was closed to begin with |
| Downlink.TelnetReader.Poll | BPQTelnetGateway.java:242-268 | the loop stops right after the first stopping event; after every prefix of events the buffer is `Pending` and the local output grew by `Emitted(Flushed(..))` of that prefix; the socket is closed only by a PeerClosed event |
| Downlink.TelnetReader.Handle | BPQTelnetGateway.java:243-266 | one iteration: a character is appended to the buffer; an idle poll writes a non-empty buffer, sanitized, as one write and empties the buffer; the other worker's close closes the socket; nothing else changes |
| Downlink.TelnetReader.Flush | BPQTelnetGateway.java:253-259 | prints `sanitizeOutput(buffer)` as one write to the open local socket |
| Uplink.Trim | BPQTelnetGateway.java:141 | `trim()` never lengthens the line; a non-empty result starts and ends with a character above space |
| Uplink.TrimPadded | BPQTelnetGateway.java:141 | a word padded with characters up to space trims back to the word |
| Uplink.TrimEmptyIffBlank | BPQTelnetGateway.java:141 | the trimmed line is empty if and only if every character is at most space |
| Uplink.ToLowerAscii | BPQTelnetGateway.java:141 | the folded character is never a capital, and only a capital changes, into a lower-case letter |
| Uplink.EqualsIgnoreCaseAscii | BPQTelnetGateway.java:141 | no contract; defines `equalsIgnoreCase` with ASCII folding: equal lengths, then equal folds character by character |
| Uplink.IsExitCommand | BPQTelnetGateway.java:141 | no contract; defines the loop's test: the trimmed line equals `exit`, ignoring case |
| Uplink.EqualsIgnoreCasePointwise | BPQTelnetGateway.java:141 | equalsIgnoreCase holds if and only if the lengths agree and every position folds alike under ASCII folding (capitals to lower case, everything else kept) |
| Uplink.ExitIgnoresBlanksAndCase | BPQTelnetGateway.java:141 | `exit` in any case with any surrounding blanks is the exit command |
| Uplink.ExitRejectsSuffix | BPQTelnetGateway.java:141 | `exit` followed by a character above space is ordinary input |
| Uplink.BlankIsNotExit | BPQTelnetGateway.java:141 | a blank line is not the exit command |
| Uplink.ExitIndex | BPQTelnetGateway.java:139-144 | the index of the first exit command, or the number of lines |
| Uplink.BeforeExit | BPQTelnetGateway.java:139-144 | no line before that index is an exit command |
| Uplink.ExitIndexStep | BPQTelnetGateway.java:139-144 | scanning in order, a line is the exit command exactly when it is the one at that index |
| Uplink.Forwarded | BPQTelnetGateway.java:145-149 | no contract; defines what the first k lines send to the remote side: each line and `\n`, unless its write failed |
| Uplink.WriteErrors | BPQTelnetGateway.java:150-153 | no contract; defines the error notices the first k lines send to the local side, one per failed write |
| Uplink.Farewell | BPQTelnetGateway.java:141-143 | no contract; defines the disconnect notice, sent when some line is the exit command |
| Uplink.ForwardedWithoutFailures | BPQTelnetGateway.java:145-149 | without failed writes the remote side receives exactly the lines, each followed by `\n`, in order |
| Uplink.FailuresOnlyDrop | BPQTelnetGateway.java:145-153 | with failed writes the remote side receives a subsequence of what it receives without them |
| Uplink.FailureLaterIsInvisible | BPQTelnetGateway.java:145-153 | whether a later write fails does not change the output for the lines before it |
| Uplink.FailedWriteDropsOnlyItsLine | BPQTelnetGateway.java:145-153 | making the write of line f fail removes exactly line f and its `\n` from the remote output, keeps every other entry in place and adds one error notice |
| Uplink.EveryLineAccounted | BPQTelnetGateway.java:145-153 | the forwarded entries and the error notices together number the lines read, and every notice is the write-error notice |
| Uplink.ExitNeverForwarded | BPQTelnetGateway.java:139-147 | no forwarded line is an exit command |
| Uplink.FarewellIffExit | BPQTelnetGateway.java:141-143 | the disconnect notice is sent if and only if some line is the exit command |
| Uplink.BPQHandler.Run | BPQTelnetGateway.java:111-175 | per connect outcome, the exact local and remote output; a failed connect sends the error notice and forwards nothing; on every path the local socket is closed once unless already closed, and an opened remote socket exactly once; when the downlink worker closed the local socket, which ends the input, the `finally` block leaves it alone and it ends closed whatever `localCloseFails` says; a failing remote close does not stop the local close |
| Uplink.BPQHandler.Relay | BPQTelnetGateway.java:139-154 | reads up to and including the first exit line and reports whether one came; the remote side receives `Forwarded`, the local side the write errors and then the disconnect notice if an exit line came |
| Uplink.BPQHandler.Write | BPQTelnetGateway.java:145-153 | the line and `\n` reach the remote side, or on failure the local client gets the error notice instead |
| Uplink.BPQHandler.CloseSession | BPQTelnetGateway.java:158-174 | each socket that exists and is open is closed once; one already closed is not closed again; the second close happens whatever the first did |

## Left out

- The Swing window, the redirection of `System.out`/`System.err` and all log text. They only display messages.
- `main` and the `startServer` accept loop. They only bind a port and start one handler thread per connection.
- Real sockets and streams. `readLine`, `ready()`, `read()`, `write` and `close()` become parameters: the lines, the poll outcomes, the set of failing writes and the close outcomes.
- Character set decoding (UTF-8 and Cp437). That is library code. The model works on decoded characters and uses the code points the source compares with.
- The remote stream is decoded as Cp437, which turns the Telnet bytes 0xFF, 0xFA, 0xF0 and 0xFB-0xFE into U+00A0, U+00B7, U+2261 and U+221A, U+207F, U+00B2, U+25A0. So passes 2-4 never see a real Telnet IAC; they act only on the character U+00FF, which Cp437 yields for the byte 0x98.
- The two workers' concurrency, the `synchronized` block, `Thread.sleep(50)` and its timing.
  - The model runs each worker on its own.
  - The other worker's close of the shared local socket is the `PeerClosed` event on the downlink side and the `readerCloses` flag on the uplink side.
  - The remote socket closing under the reader is a `ReadFailure` event.
- The exact notice texts and line separators. Notices are the `Notice` datatype.
- Sanitizer.SanitizeOutput: the `null` input branch (lines 203-205) is not modelled.
  - Dafny strings are never null.
  - The only caller passes a non-empty buffer.
- Uplink.IsExitCommand: `equalsIgnoreCase` is modelled with ASCII case folding only.
  - Java also equates some non-ASCII letters with `i`, for example U+0130 and U+0131.
  - So the model does not accept the exit command spelled with them.
- Lone UTF-16 surrogates are not modelled. Dafny characters are Unicode scalar values.
- Uplink.BPQHandler.Run: an IOException from `readLine` ends the loop exactly like the end of input. The abstract line sequence simply ends.
- Uplink.BPQHandler.Run: the downlink worker's close of the local socket is placed after the last line read. A close in the middle of a line's handling, which would lose that line's notices, is not modelled.
- Uplink.BPQHandler.Run: a failing `getInputStream()` after connecting is not modelled.
- Uplink.BPQHandler.Write: a failed remote write is modelled as delivering nothing. Partial delivery before the exception is left out.
