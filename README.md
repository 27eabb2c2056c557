# PortaProg command core in Dafny

This project models the command-processing core of the PortaProg firmware.
That core has three parts.

- **The `bufferStream` ring buffer** (bufferstream.h). It is a fixed-size circular byte store with an
  error counter. Reads come from the front and writes go behind the unread bytes.
- **The file-system helpers** (filesys.h):
  - `FILESYS_STRIP_NL`;
  - the name fix-up `_filesys_fix_name`;
  - the file-type guess `filesysGetType`;
  - the line reader `streamReadLine`, with its optional `\n` escape.
- **The command parser** (parser.h):
  - the command table;
  - the whitespace tokenizer and the dispatcher `parserProcessCommands`, with its argument
    accumulation and abort rule;
  - the commands it runs: HELP, INFO, DIR, DEL, CAT and UPLOAD;
  - the helpers `_parser_trim` and `_is_printable`.

Modules, one per concern:

- `Ascii` (ascii.dfy): bytes, C strings and character classes.
- `Ring` (bufferstream.dfy): the ring buffer as a value, `RingState`, with one function per member
  function of `bufferStream`.
- `BufferStream` (bufferstream.dfy): the class `Buffer`, whose fields are the C++ fields, over an
  `array<byte>?`. Each method is proved to move the state exactly as the matching `Ring` function
  does.
- `Filesys` (filesys.dfy): the filesys.h helpers. `StreamReadLine` fills a caller's array, as the C
  function does.
- `Commands` (commands.dfy): `_parser_commands` and its case-insensitive lookup.
- `Parser` (parser.dfy): the tokenizer, the commands and the dispatcher.

How the parser is modelled:

- A client stream is a `seq<byte>` and a read index.
- Everything printed to the client is recorded as a trace of `Event`s.
- The SPIFFS file system is a `FileStore`: a map from fixed-up names to contents, plus whether
  opening for writing succeeds.
- One pass of the do-while loop of `parserProcessCommands` is the function `Parser.Iterate`.
- A whole call is `Parser.Pass`.
- The method `Parser.ProcessCommands` runs the loop on a line-buffer array and is proved equal to
  `Pass`.

Where the code differs from its documented design, the model follows the code.

- **`_parserReadFile2Stream` never reports success.** `success` is set to false and never changed
  (parser.h:302, 321).
- **`_parser_trim` never examines index 0.** A line whose only kept character is the first one is
  reported as untrimmed and left as it is (parser.h:148).
- **`bufferStream::writeStream` counts two errors per rejected byte.** One is counted in `write` and
  one in its own loop (bufferstream.h:147, 182).
- **`peek` does not count an error on an empty buffer, but `read` does.** A successful `read` resets
  the error count.
- **An unrecognised command calls `client->flush()`, which empties the client's input**
  (io.h:76-79). Whether later commands in the same call still run therefore depends on the stream.
  The parameter `flushDrains` selects this.
- **A NUL byte that starts an upload chunk ends `UPLOAD`.** The dispatcher then goes on tokenizing
  the bytes after it, so an upload does not always consume the rest of the stream.
- **UPLOAD does not copy the payload verbatim** (parser.h:253-269). CR and NUL bytes are dropped.
  A space or newline is dropped whenever it would start a chunk, and not only at the start of
  the payload. That includes one that follows a full 256-byte chunk (`Parser.Uploaded`).
- **In `streamReadLine` with escapes on, `\` followed by any byte other than `n` passes that byte
  through, and drops the backslash.**

## Model

| member | source | states |
|---|---|---|
| Ring.Contents | bufferstream.h:75-82 | the unread bytes are `unread_size` bytes of storage, oldest first, from `buffer_pos`, wrapping at the end |
| Ring.Clear | bufferstream.h:90-97 | the buffer is empty, positions and error count are zero, every storage byte is 0, and the capacity is kept |
| Ring.Available | bufferstream.h:105-111 | `available()` is the number of unread bytes (0 without storage) |
| Ring.AvailableForWrite | bufferstream.h:164-169 | `availableForWrite()` is the capacity minus the unread bytes |
| Ring.Peek | bufferstream.h:113-116 | `peek()` is -1 exactly when nothing is unread, otherwise the oldest unread byte |
| Ring.Read | bufferstream.h:118-139 | on empty, -1 with one more error (none without storage); otherwise returns the oldest byte, removes it from the contents and resets the error count |
| Ring.Write | bufferstream.h:141-162 | fails with 0 exactly when no room is left, counting an error and changing nothing else; otherwise returns 1, appends `b` to the contents and leaves the read position alone |
| Ring.WriteStreamEffect | bufferstream.h:171-187 | `writeStream` stores the first min(\|src\|, room) bytes of the source behind the contents, returns that count, and adds two errors (mod 2^16) for each byte dropped |
| Ring.WriteStream | bufferstream.h:171-187 | `writeStream` keeps the ring valid, and keeps its capacity and its storage |
| Ring.StreamStep | bufferstream.h:179-185 | one turn of the `writeStream` loop keeps the ring valid, and keeps its capacity and its storage |
| Ring.WriteAllAppends | bufferstream.h:141-162 | writing bytes that fit appends exactly those bytes to the contents |
| Ring.ReadNReturnsOldest | bufferstream.h:118-139 | k reads return the k oldest unread bytes in order and leave the rest unread |
| Ring.FifoRoundTrip | bufferstream.h:75-82 | writing data that fits and then reading everything returns the old contents followed by the data, and empties the buffer |
| Ring.PeekIsNextRead | bufferstream.h:113-139 | `peek()` returns what the next `read()` returns |
| Ring.OperationsKeepBounds | bufferstream.h:118-162 | after a read or a write, 0 <= unread <= capacity and the read position stays inside the storage |
| BufferStream.Buffer.constructor | bufferstream.h:43-83 | a failed allocation gives capacity 0; otherwise the requested capacity, empty, with no errors |
| BufferStream.Buffer.Clear | bufferstream.h:90-97 | the object state becomes the zeroed storage with all counters 0, on the same array |
| BufferStream.Buffer.Available | bufferstream.h:105-111 | agrees with `Ring.Available` on the object's state |
| BufferStream.Buffer.Peek | bufferstream.h:113-116 | agrees with `Ring.Peek` on the object's state |
| BufferStream.Buffer.Read | bufferstream.h:118-139 | the new state and result are `Ring.Read` of the old state |
| BufferStream.Buffer.Write | bufferstream.h:141-162 | the new state and result are `Ring.Write` of the old state, written into the array in place |
| BufferStream.Buffer.AvailableForWrite | bufferstream.h:164-169 | agrees with `Ring.AvailableForWrite` on the object's state |
| BufferStream.Buffer.WriteStream | bufferstream.h:171-187 | the new state and count are `Ring.WriteStream` of the old state; the whole source is consumed unless there is no storage |
| BufferStream.Buffer.WriteCounted | bufferstream.h:179-185 | one turn of the `writeStream` loop: a write, then the extra error or the count |
| BufferStream.WriteThenRead | bufferstream.h:118-162 | writing data into an empty buffer object and reading it back yields the same bytes and leaves it empty |
| Filesys.StripNewlineUndoesAppend | filesys.h:11-15 | stripping undoes appending one newline |
| Filesys.StripNewlineKeepsOthers | filesys.h:11-15 | a line not ending in a newline is left as it is |
| Filesys.StripNl | filesys.h:11-15 | the macro removes exactly one trailing newline by writing a NUL over it, and touches no other byte |
| Filesys.StripNewline | filesys.h:11-15 | the result is a prefix of the line, and is one byte shorter exactly when the line ends in a newline |
| Filesys.FixName | filesys.h:73-83 | the name gets a leading '/' if it lacks one and is cut to MAX_FILENAME_LEN - 1 bytes; a rooted name that fits is unchanged |
| Filesys.FixNameIdempotent | filesys.h:73-83 | fixing a fixed name changes nothing |
| Filesys.OccursIff | filesys.h:245-254 | the `strstr` test succeeds exactly when the pattern occurs at some index |
| Filesys.GetType | filesys.h:245-254 | the result is one of the three file types |
| Filesys.GetTypeMeaning | filesys.h:245-254 | HEX iff ".HEX" or ".hex" occurs; CMD iff neither occurs and ".CMD" or ".cmd" does |
| Filesys.GetTypeMixedCase | filesys.h:247 | mixed-case extensions such as "a.Hex" are not recognised |
| Filesys.GetTypeHexWins | filesys.h:248-251 | a name containing both extensions is HEX |
| Filesys.DecodedStep | filesys.h:275-291 | the escape decoder takes one byte at a time: a backslash only arms the escape, and an armed `n` becomes a newline |
| Filesys.ReadLineFrom | filesys.h:268-301 | the loop stops between its start and the end of the stream, and the line only grows, up to the limit |
| Filesys.ReadLineFromStop | filesys.h:296-300 | when the line ends in a newline or fills the limit, the loop stopped right after the byte it stored last: everything before that byte decodes to the rest of the line |
| Filesys.ReadLineFromShape | filesys.h:268-301 | the read stops within the limit; the stored line holds no CR and a newline only at its end; stopping early means a newline was stored or the limit was reached |
| Filesys.ReadLineFromContent | filesys.h:268-301 | the stored bytes are the consumed bytes, escape-decoded, with the CRs removed |
| Filesys.ReadLineConsumes | filesys.h:268-301 | every stored byte costs at least one consumed byte |
| Filesys.ReadLineSpec | filesys.h:256-304 | the line has at most size - 1 bytes, no CR and a newline only at its end, and is the consumed input (unescaped when asked) without CRs; unread input remains only after a newline or a full line, and then the read stopped right after the byte that ended the line |
| Filesys.ReadLine | filesys.h:256-304 | `streamReadLine` stops inside the stream and stores at most size - 1 bytes |
| Filesys.ReadLineStops | filesys.h:256-304 | a line ending in a newline, or of size - 1 bytes, ends at the last byte consumed: the bytes before it, unescaped when asked and without CRs, are the rest of the line |
| Filesys.StreamReadLine | filesys.h:256-304 | the array holds the line of `ReadLine` followed by a NUL, the length returned is below `size`, and bytes after the NUL are untouched |
| Commands.TableFacts | parser.h:74-108 | ids are distinct and never NONE; names are distinct ignoring case; at most two arguments; only HELP ignores the abort flag; only UPLOAD takes a stream |
| Commands.LookupFrom | parser.h:454-466 | a command found from entry i is an entry at or after i whose name matches ignoring case |
| Commands.Lookup | parser.h:452-467 | a command found is an entry of the table whose name matches ignoring case |
| Commands.LookupFromSpec | parser.h:454-466 | the search from entry i returns the first entry whose name matches ignoring case, or none when none matches |
| Commands.LookupSpec | parser.h:452-467 | a command is found iff some name matches ignoring case, and the one found is the only one that matches |
| Commands.FindCommand | parser.h:452-467 | the table loop finds exactly what `Lookup` specifies |
| Parser.ScanToken | parser.h:416-440 | the tokenizer consumes input, keeps the bytes already in the buffer, and stores at most MAX_NETWORK_TEXT bytes |
| Parser.ScanTokenContent | parser.h:416-440 | the bytes stored are exactly the consumed bytes other than space, newline, CR and NUL |
| Parser.ScanTokenStop | parser.h:416-440 | the tokenizer stops with input left only after a NUL, after a delimiter ending a non-empty token, or on filling MAX_NETWORK_TEXT bytes |
| Parser.ScanTokenFirstStop | parser.h:416-440 | conversely, the tokenizer goes on past every earlier byte: none is a NUL, none is a delimiter ending a non-empty token, and the buffer stays below MAX_NETWORK_TEXT bytes |
| Parser.ScanTokenTakes | parser.h:436-439 | token bytes that fit are stored one by one |
| Parser.WordAt | parser.h:416-440 | a word followed by a delimiter is read as one token and its delimiter consumed |
| Parser.SkipSpace | parser.h:545 | `sscanf` skips exactly the leading white space |
| Parser.WordLength | parser.h:545 | a `%10s` conversion takes the longest run of non-space bytes, up to ten |
| Parser.ScanInfo | parser.h:545 | the conversion count is -1, 1 or 2, and there is no second word below 2 |
| Parser.ScanInfoSpec | parser.h:545 | the conversion count is -1, 1 or 2; -1 exactly when the text is all white space; each word found is 1 to 10 non-space bytes |
| Parser.ScanInfoAccepts | parser.h:545-549 | two words of at most ten bytes separated by a space are both converted |
| Parser.ScanInfoOneWord | parser.h:545 | a lone word gives one conversion |
| Parser.WordLengthExact | parser.h:545 | a word that ends at a space or at the end of the text is taken whole |
| Parser.InfoEvents | parser.h:540-559 | INFO prints its two parameters exactly when `sscanf` converts two, otherwise one usage error |
| Parser.ScanChunk | parser.h:253-269 | a chunk holds at most 256 bytes, and no more bytes than were consumed |
| Parser.ScanChunkShape | parser.h:253-269 | a chunk holds no CR and no NUL and does not start with a space or newline |
| Parser.ScanChunkNext | parser.h:258-268 | a byte the chunk loop skips, or stores without filling the chunk, leaves the rest of the scan unchanged |
| Parser.ScanChunkUploaded | parser.h:253-269 | a chunk holds exactly the bytes `Uploaded` keeps of what it consumed, and the next chunk starts empty where it stopped |
| Parser.ScanChunkStop | parser.h:253-269 | a chunk ends with input left only after a NUL or when it holds 256 bytes |
| Parser.ScanChunkFirstStop | parser.h:253-269 | conversely, the chunk loop goes on past every earlier byte: none is a NUL, and the chunk stays below 256 bytes |
| Parser.ScanChunkRest | parser.h:253-269 | a short tail free of CR and NUL goes into the chunk verbatim |
| Parser.Chunks | parser.h:250-289 | the upload loop consumes part of the stream |
| Parser.ChunksShape | parser.h:250-289 | every chunk written is 1 to 256 bytes with no CR, no NUL and no leading delimiter |
| Parser.ChunksUploaded | parser.h:250-289 | the chunks together are exactly the consumed stream as `Uploaded` filters it |
| Parser.UploadedThins | parser.h:253-269 | the upload drops nothing but spaces, newlines, CRs and NULs, and keeps the order of the rest |
| Parser.UploadedTokens | parser.h:258-268 | token bytes that fit in the current chunk all reach the file |
| Parser.UploadSpaceAfterFullChunk | parser.h:258-268 | a space right after a full 256-byte chunk is dropped |
| Parser.UploadSpaceInsideChunk | parser.h:258-268 | a space inside a chunk is kept |
| Parser.ChunksStop | parser.h:250-289 | the upload ends at the end of the stream or just after a NUL |
| Parser.ChunksConsumeAll | parser.h:250-289 | a stream without NUL is uploaded to its end |
| Parser.ChunksVerbatim | parser.h:250-289 | a short payload without CR, NUL or leading delimiter becomes one chunk, unchanged |
| Parser.SaveStream | parser.h:235-294 | a writable store gets the file replaced by the concatenated chunks; otherwise the open error is printed and the store is unchanged; either way the chunks are consumed |
| Parser.SaveStreamUploaded | parser.h:235-294 | a writable store gets, as the file, the consumed stream as `Uploaded` filters it |
| Parser.SaveStream2File | parser.h:235-294 | returns success exactly when the file could be opened, with the effect of `SaveStream` |
| Parser.ReadChunk | parser.h:253-269 | the inner loop fills the static buffer with the chunk `ScanChunk` describes |
| Parser.CatLinesSpec | parser.h:311-316 | the lines read cover the file content without its CRs; each is 1 to 255 bytes with a newline only at its end |
| Parser.CatLines | parser.h:311-316 | the read loop yields at most one line per byte left in the file |
| Parser.CatOutput | parser.h:306-316 | the header, then for each line read, in order, that line with its newline stripped and cut at any NUL |
| Parser.LineEvents | parser.h:311-316 | one printed line per line read |
| Parser.LineEventsAdvance | parser.h:311-316 | printing the first line read, stripped, leaves exactly the output of the remaining lines to come |
| Parser.CatEvents | parser.h:298-323 | CAT prints the header, then either the open error or each line read, newline stripped and cut at any NUL |
| Parser.ReadFile2Stream | parser.h:298-323 | prints `CatEvents` and always returns false |
| Parser.CatNextLine | parser.h:311-316 | one turn of the read loop yields the next line of `CatLines`, stripped, or ends when there is none |
| Parser.LastKept | parser.h:146-157 | the index of the last non-trailing character at index 1 or above, or 0 when every character from index 1 on is whitespace |
| Parser.LastKeptExamples | parser.h:146-157 | "ab \r\n" is cut after index 1; "a\n" and " \t" are reported untrimmed |
| Parser.Trim | parser.h:146-157 | returns true iff a kept character exists at index 1 or above, and then writes a NUL right after the last one, leaving every other byte alone |
| Parser.IsPrintable | parser.h:161-177 | true iff the C string (up to the first NUL) is empty or holds a printable character |
| Parser.Begin | parser.h:403-411 | the reset at the top of a pass keeps position, command, output and files |
| Parser.Init | parser.h:389-399 | a call starts in a state every pass accepts (`Pending`), at read index 0, with nothing printed and the files as given |
| Parser.Blanked | parser.h:462 | the recognised name is overwritten by spaces, and the rest of the buffer is kept |
| Parser.Key | filesys.h:168-184 | the name `filesysOpen`, `filesysExists` and `filesysDelete` look up is already fixed: fixing it again changes nothing |
| Parser.Effect | parser.h:528-592 | only UPLOAD reads the client, and only DEL and UPLOAD change the files |
| Parser.Dispatch | parser.h:508-592 | after the abort rule and the switch, no command is active |
| Parser.OnArgument | parser.h:476-501 | argument handling keeps the line buffer within its bounds and never moves the read index back |
| Parser.OnToken | parser.h:444-474 | handling a token keeps the line buffer within its bounds and never moves the read index back |
| Parser.Iterate | parser.h:400-608 | every pass on a non-empty client consumes input |
| Parser.Run | parser.h:400-608 | the loop ends with the client drained |
| Parser.Pass | parser.h:377-621 | a call reads the client to its end |
| Parser.IterateKeepsPending | parser.h:400-608 | between passes, either no command is active or an argument-taking command awaits its arguments with a buffer that fits |
| Parser.LineWritesFit | parser.h:436-446 | every byte a pass writes lies below MAX_NETWORK_TEXT + 3 |
| Parser.NetworkBufOverrun | allincludes.h:49 | after "INFO " and a 256-byte argument, the next pass writes its NUL at index 258 of the 258-byte `g_network_buf` |
| Parser.InfoFirstPass | parser.h:444-501 | "INFO " makes INFO the active command awaiting its first argument |
| Parser.OverrunSecondPass | parser.h:480-501 | a 256-byte first argument is stored with its NUL replaced by the separator space |
| Parser.IterateAbortedHarmless | parser.h:508-525 | with the abort flag, a pass changes no file and prints only help text or the unrecognised-command error |
| Parser.OnArgumentAbortedHarmless | parser.h:480-592 | with the abort flag, argument handling and the switch leave the files alone |
| Parser.DispatchAbortedHarmless | parser.h:508-592 | with the abort flag, only HELP runs |
| Parser.RunAbortedHarmless | parser.h:400-608 | the same holds for every later pass of an aborted call |
| Parser.AbortedPassHarmless | parser.h:377-621 | a call with `aborted` set leaves every file as it was and prints only help text and unrecognised-command errors |
| Parser.UploadTakesOver | parser.h:587-590 | `UPLOAD name` and a newline, then a payload with no NUL: the rest of the stream goes to the file, or is dropped when it cannot be opened, and the call ends |
| Parser.UploadFirstPass | parser.h:444-501 | "UPLOAD " makes UPLOAD active, awaiting its name |
| Parser.UploadSecondPass | parser.h:480-590 | the name runs the upload on the bytes after the newline |
| Parser.UploadNulResumes | parser.h:250-289 | a NUL at the start of the payload ends the upload with an empty file, and tokenizing resumes after it |
| Parser.UnrecognizedFlushes | parser.h:469-474 | an unknown first word prints the error and flushes; when the flush empties the input, nothing else runs |
| Parser.UnrecognizedPass | parser.h:469-474 | a pass on an unknown word reports it, flushes, and leaves no command active |
| Parser.InfoFirstArgument | parser.h:480-501 | INFO's first argument is kept with a space in place of its NUL |
| Parser.ScanInfoWordThenSpace | parser.h:545 | a word followed by a space is one conversion |
| Parser.IterateArgument | parser.h:444-501 | with a command active, a non-empty token goes to argument handling |
| Parser.InfoRuns | parser.h:480-559 | the second argument runs INFO on the buffer |
| Parser.AppendLastWord | parser.h:416-440 | a short word at the end of the input is appended to the buffer |
| Parser.InfoSecondArgument | parser.h:480-559 | the pass with INFO's second argument prints both parameters |
| Parser.InfoSecondToken | parser.h:416-446 | the pass reads INFO's second argument to the end of the input and hands the two arguments, joined by a space, to argument handling |
| Parser.InfoSecondRuns | parser.h:480-559 | with two arguments of at most ten bytes joined, INFO runs and prints both parameters, leaving no command active |
| Parser.InfoTwoArgs | parser.h:377-621 | `INFO a b` with words of at most ten bytes prints exactly the parameters and changes no file |
| Parser.InfoEmptySecond | parser.h:480-559 | a second space right after INFO's first argument ends the second argument empty, and INFO prints its usage error |
| Parser.InfoEmptyToken | parser.h:416-446 | a space right after INFO's first argument ends the token, and the buffer goes to argument handling |
| Parser.InfoEmptyRuns | parser.h:480-559 | INFO then runs on one word and a space, prints its usage error and leaves no command active |
| Parser.SpaceEndsToken | parser.h:429-434 | a space ends a non-empty token and is consumed |
| Parser.InfoUsageOfSpaced | parser.h:545-557 | INFO on one word and a space reports one conversion |
| Parser.UnknownLastWord | parser.h:444-474 | an unknown word at the end of the input is reported, and the client flushed |
| Parser.InfoDoubleSpace | parser.h:377-621 | `INFO a  b` with two spaces gives the usage error, then treats `b` as an unknown command |
| Parser.DoubleSpaceRun | parser.h:400-608 | the passes over that input give the same output |
| Parser.RunStep | parser.h:608 | the loop runs another pass while input is left |
| Parser.MissingArgumentNotRun | parser.h:480-501 | `INFO a` with no second argument ends the call with INFO still active, nothing printed and no file changed |
| Parser.ProcessCommands | parser.h:377-621 | false for a missing client; otherwise the result is "not aborted" and the final state is `Pass`, computed in a line buffer the writes fit |
| Parser.OnePass | parser.h:400-608 | one turn of the do-while on the array gives `Iterate` of the state before it |
| Parser.ReadToken | parser.h:416-440 | the tokenizer loop on the line buffer gives `ScanToken` |
| Parser.RecogniseCommand | parser.h:452-467 | the table search gives `Lookup` of the token, and blanks the recognised name in place |
| Parser.TakeArgument | parser.h:476-592 | argument handling, the abort rule and the switch give `OnArgument` |
| Parser.Execute | parser.h:528-592 | the command switch gives `Effect` |

## Left out

- Serial, WiFi and telnet I/O, the `Stream` class hierarchy and io.h are not part of this model.
  A client is a byte sequence. `client->flush()` is the event `Flushed` plus the flag `flushDrains`,
  which says whether it empties the input as `ioStream::flush` does (io.h:76-79).
- `bufferStream::flush` (bufferstream.h:189-191) has an empty body and is not modelled.
- The destructor is not modelled, and neither is the choice between PSRAM and heap memory. The
  constructor takes `allocOk`, which says whether either allocation succeeded.
- Printed text is not modelled byte for byte. `printf` formatting, the help text of `_parserHelp`,
  and the DIR listing from `filesysGetFileInfo` and `formatBytes` are events without their text.
- SPIFFS itself is a map from names to contents with a single `writable` flag.
  - Reads through a `File` handle are modelled as reads from the stored bytes.
  - `f.print` appends each chunk up to its NUL.
  - Chunks never contain a NUL, so UPLOAD stores them in full.
- `MAX_FILENAME_LEN` is set by the build, so it is a parameter (`NameLimit`).
- `parserInit`, `parserLoop`, `_uartLoop` and the DEBUG, VERBOSE and MESSAGE output are left out.
  So are the diagnostic locals `total`, `active_file` and `data_size_processed` of
  `parserProcessCommands`. None of them affects the result.
- Ring.Read, Ring.Write and Ring.WriteStream do not bound `stored_size`, `buffer_pos` or
  `unread_size` to `int32_t`. Capacities are unbounded naturals. Only the 16-bit `errors` counter
  wraps (mod 2^16).
- Filesys.ReadLine requires `size >= 2`. Every caller passes at least 127: MAX_UART_BUF
  (parser.h:196), 256 (parser.h:311) and MAX_LINE_TEXT (io.h:237). The C code's `size--` makes
  other sizes unsafe, and they are not modelled. With `size` 1 the limit becomes 0, one byte is
  stored anyway, and the NUL goes to `buf[1]`, past the buffer. With `size` 0 the limit wraps to
  65535.
- Parser.ProcessCommands uses a line buffer of MAX_NETWORK_TEXT + 3 bytes, the corrected size, in
  place of the shared global `g_network_buf`. The overrun of the declared size is recorded below
  under Findings.
- Parser.Iterate keeps the abort flag fixed for the whole call, as the source does. The sticky
  setting of that flag by callers is outside this core.

## Findings

| source | as written | input that shows it | evidently intended | confidence | as-written member | corrected member |
|---|---|---|---|---|---|---|
| allincludes.h:49, parser.h:436-446 | `g_network_buf` has MAX_NETWORK_TEXT + 2 = 258 bytes. An argument that fills the tokenizer's 256-byte limit is kept with a separator space. The next pass then stores one more byte, at index 257, and the NUL at index 258, one past the end. | "INFO " + 256 token bytes + one more token byte | every write of a pass lies inside the line buffer | not executed | Parser.NetworkBufOverrun | Parser.LineWritesFit |
