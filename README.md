# EchoDVC server core in Dafny

EchoDVC is a test server for a Remote Desktop dynamic virtual channel (DVC). It sends console text over the channel and reads back the peer's echo. This project models its two core pieces and proves their properties:

- **Channel I/O** (`echo_dvc_server/src/io_dvc.rs`):
  - `write_dvc` does one blocking write.
  - `read_dvc` reassembles a message from chunks. Each chunk starts with the 8-byte `CHANNEL_PDU_HEADER` of section 2.2.6.1.1 of [MS-RDPBCGR]: a little-endian u32 length, then little-endian u32 flags.
  - The reader goes through these steps:
    - decodes the header;
    - classifies the flags as ONLY, FIRST, MIDDLE or LAST;
    - appends each payload with its NUL bytes trimmed;
    - keeps a wrapping u32 byte count;
    - after an ONLY or LAST chunk, compares that count with the announced length.
  - Both operations turn an overlapped transfer into a blocking one by the same rule:
    - an immediate completion is final;
    - `ERROR_IO_PENDING` is followed by one blocking wait;
    - any other error is returned.
- **Console loop** (`run` in `echo_dvc_server/src/main.rs`):
  - Each line is trimmed and split at its first space. The command word is upper-cased and matched:
    - blank lines do nothing;
    - `QUIT`/`EXIT` end the loop with Ok;
    - `WRITE`/`PUT` write the argument's UTF-8 bytes, then read the reply;
    - anything else reports "invalid command".
  - A failed write or read ends `run` with that error, and `main` then exits with status 1.

Operating-system transfers are values, not calls:
- A `Completion.Call` holds what `ReadFile`/`WriteFile` reported and what the one blocking `GetOverlappedResult` would report.
- `read_dvc` takes the sequence of transfers the channel would produce.
- `run` takes the sequence of console lines, each with the outcome of the write and the read it would cause.

Each imperative operation is a method proved against a function that specifies it:
- `IoDvc.WriteDvc` against `Completion.Resolve`;
- `IoDvc.ReadDvc` against `IoDvc.ReadSpec`;
- `RunLoop.Run` against `RunLoop.RunSpec`.

The properties are lemmas about those functions.

Two behaviours of the code are modelled as written:
- **An ONLY chunk never records its announced length.** In [MS-RDPBCGR], an ONLY chunk (FIRST|LAST) is a whole message whose header carries its length. Here the announced length stays 0 (io_dvc.rs:66, 130-133), so a read that ends on ONLY succeeds only when the payload count is 0 modulo 2^32. `ReadProperties.HelloAsOnlyRejected` proves that the one-chunk message "hello", sent as ONLY with length 5, is rejected: 0 announced, 5 read.
- **A transfer error does not return to the prompt.** It ends the session, as the `?` operators in `run` and the `exit(1)` in `main` do.

Modules, one per file:
- `Common` (common.dfy): machine types, `Option`/`Result`, HRESULT codes and the buffer constants.
- `Trimming` (trimming.dfy): trimming from both ends, shared by the NUL trim and the whitespace trim.
- `PduHeader` (pdu_header.dfy): the little-endian codec, the header and the flag kinds.
- `Completion` (completion.dfy): the blocking-completion rule.
- `IoDvc` (io_dvc.dfy): `write_dvc` and `read_dvc`.
- `ReadProperties` (read_properties.dfy): what reads guarantee.
- `CommandLine` (command_line.dfy): how a console line is parsed.
- `RunLoop` (run_loop.dfy): `run` and the exit status.

## Model

| member | source | states |
|---|---|---|
| Common.WrapU32 | echo_dvc_server/src/io_dvc.rs:126 | `tot_read` arithmetic wraps modulo 2^32; below 2^32 the value is exact |
| Common.WrapAdd | echo_dvc_server/src/io_dvc.rs:126 | adding to the wrapped running total gives the wrapped exact sum |
| Common.Zeros | echo_dvc_server/src/io_dvc.rs:72 | the per-iteration buffer starts with exactly n zero bytes |
| Trimming.KeptFrom | echo_dvc_server/src/io_dvc.rs:124 | the trimmed start lies between `i` and the end |
| Trimming.KeptTo | echo_dvc_server/src/io_dvc.rs:124 | the trimmed end lies between the trimmed start and `j` |
| Trimming.Trim | echo_dvc_server/src/io_dvc.rs:124 | trimming never lengthens a sequence |
| Trimming.KeptFromSkips | echo_dvc_server/src/io_dvc.rs:124 | the trimmed start skips only stripped elements and stops on a kept one |
| Trimming.KeptToSkips | echo_dvc_server/src/io_dvc.rs:124 | the trimmed end skips only stripped elements and stops after a kept one |
| Trimming.TrimSplits | echo_dvc_server/src/io_dvc.rs:124 | the input is a stripped prefix, the result and a stripped suffix; the result has no strippable end |
| Trimming.TrimUnique | echo_dvc_server/src/io_dvc.rs:124 | trimming removes exactly the stripped runs around a part with no strippable end |
| Trimming.TrimKeepsUntrimmable | echo_dvc_server/src/io_dvc.rs:124 | a sequence with no strippable end is kept unchanged |
| Trimming.TrimIdempotent | echo_dvc_server/src/main.rs:177 | trimming twice is trimming once |
| Trimming.TrimIgnoresPadding | echo_dvc_server/src/io_dvc.rs:123-124 | stripped elements added at either end do not change the result |
| Trimming.AppendStripped | echo_dvc_server/src/main.rs:177 | two stripped runs side by side form one stripped run |
| PduHeader.DecodeU32Le | echo_dvc_server/src/io_dvc.rs:114-116 | `u32::from_le_bytes`, least significant byte first |
| PduHeader.EncodeU32Le | echo_dvc_server/src/io_dvc.rs:114-120 | a u32 encodes to four bytes |
| PduHeader.DecodeEncodeU32 | echo_dvc_server/src/io_dvc.rs:114-120 | decoding the little-endian encoding of a u32 gives it back |
| PduHeader.EncodeDecodeU32 | echo_dvc_server/src/io_dvc.rs:114-120 | encoding the decoding of four bytes gives the bytes back |
| PduHeader.DecodeHeader | echo_dvc_server/src/io_dvc.rs:113-120 | the header of a buffer: the length is the little-endian u32 of bytes 0..4, the flags that of bytes 4..8 (its inverse is `EncodeHeader`, see the two round-trip rows) |
| PduHeader.EncodeHeader | echo_dvc_server/src/io_dvc.rs:113-120 | a header is eight bytes (`PDU_HEADER_LENGTH`) |
| PduHeader.DecodeEncodeHeader | echo_dvc_server/src/io_dvc.rs:113-120 | the header decoded from a chunk is the one encoded at its front, whatever payload follows |
| PduHeader.EncodeDecodeHeader | echo_dvc_server/src/io_dvc.rs:113-120 | every eight-byte header is the encoding of what it decodes to |
| PduHeader.DecodeHeaderPrefix | echo_dvc_server/src/io_dvc.rs:114-120 | only bytes 0 to 7 decide the header |
| PduHeader.FlagsOf | echo_dvc_server/src/io_dvc.rs:128-144 | every fragment kind has a flags value below 4 |
| PduHeader.ClassifyFlags | echo_dvc_server/src/io_dvc.rs:128-150 | values 4 and above are unsupported; a recognised kind has exactly that flags value; its FIRST and LAST bits are bits 0 and 1 |
| PduHeader.ClassifyFlagsOf | echo_dvc_server/src/io_dvc.rs:128-144 | each kind is recognised from its own flags value |
| PduHeader.TerminalIffLastBit | echo_dvc_server/src/io_dvc.rs:129-144 | a recognised kind ends the loop exactly when its LAST bit is set (ONLY, LAST) |
| Completion.Resolve | echo_dvc_server/src/io_dvc.rs:83-104 | Ok comes from an immediate completion or from a pending submission's successful wait; Err is a non-pending submission error or the wait's error |
| Completion.WaitOnlyWhenPending | echo_dvc_server/src/io_dvc.rs:33-34 | the wait matters only for an `ERROR_IO_PENDING` submission |
| Completion.ResolveNotPending | echo_dvc_server/src/io_dvc.rs:84-103 | an immediate completion is final; any other error is returned unchanged |
| Completion.ResolvePending | echo_dvc_server/src/io_dvc.rs:85-100 | a pending submission has exactly its wait's outcome, count or error |
| IoDvc.WriteDvc | echo_dvc_server/src/io_dvc.rs:13-59 | Ok exactly when the transfer resolves Ok, whatever count was written (short writes are not errors); Err carries the transfer's code |
| IoDvc.FragmentBuffer | echo_dvc_server/src/io_dvc.rs:72-81 | the buffer is `PACKET_MAX_LENGTH` bytes, with the delivered bytes at its front |
| IoDvc.TrimNul | echo_dvc_server/src/io_dvc.rs:124 | `trim_matches` on NUL: the bytes between the first and the last non-NUL byte (see `ReadProperties.PayloadTextTrimmed`) |
| IoDvc.PayloadText | echo_dvc_server/src/io_dvc.rs:123-124 | the text a fragment appends: the 1600 buffer bytes after the header, NUL-trimmed, so at most 1600 bytes |
| IoDvc.PayloadCount | echo_dvc_server/src/io_dvc.rs:106-126 | each increment of `tot_read` is the count read minus 8, without underflow, and at most `CHANNEL_CHUNK_LENGTH` |
| IoDvc.PayloadTotal | echo_dvc_server/src/io_dvc.rs:126 | the exact sum of the payload counts of the fragments read, before any wrap (bounded by `ReadProperties.PayloadTotalBound`) |
| IoDvc.Assembled | echo_dvc_server/src/io_dvc.rs:123-125 | `read_string` after those fragments: their trimmed payloads concatenated in arrival order |
| IoDvc.SpecifiedLength | echo_dvc_server/src/io_dvc.rs:134-137 | the announced length the final check uses: a LAST fragment's own length, and 0 for ONLY, whose arm never sets it (io_dvc.rs:66, 130-133) |
| IoDvc.ReadSpec | echo_dvc_server/src/io_dvc.rs:61-162 | what `read_dvc` returns, stated without the loop: the first transfer that is not FIRST/MIDDLE decides; a transport error, a short read or unsupported flags fail with that error; an ONLY/LAST succeeds with the assembled text exactly when `SpecifiedLength` equals the wrapped total |
| IoDvc.StopIndex | echo_dvc_server/src/io_dvc.rs:129-144 | the loop passes only FIRST/MIDDLE fragments and stops at the first transfer that is not one |
| IoDvc.StopIndexAt | echo_dvc_server/src/io_dvc.rs:129-144 | the first transfer that does not continue the loop is where it stops |
| IoDvc.ErrorCode | echo_dvc_server/src/io_dvc.rs:106-111 | every error the reader raises itself carries `E_FAIL`; only transport errors carry another code |
| IoDvc.ReadDvc | echo_dvc_server/src/io_dvc.rs:61-162 | the loop returns exactly the outcome `ReadSpec` gives; its invariants state that at every pass `tot_read` is the wrapped sum of (bytes read − 8) over the fragments consumed and `read_string` their trimmed payloads, all of them FIRST/MIDDLE fragments |
| IoDvc.FragmentStep | echo_dvc_server/src/io_dvc.rs:106-126 | one pass over a fragment of at least 8 bytes keeps that invariant: the new `tot_read` and `read_string` are the wrapped sum and the text of one more fragment, and the header is that fragment's |
| IoDvc.StopsOnError | echo_dvc_server/src/io_dvc.rs:99-111 | a transfer error returns its code; fewer than 8 bytes gives "not a PDU header" before any header field is read; flags outside 0..3 give "unsupported PDU flags" (io_dvc.rs:145-150) |
| IoDvc.StopsOnTerminal | echo_dvc_server/src/io_dvc.rs:154-161 | at a terminal fragment the read succeeds with the assembled text exactly when the announced length equals the wrapped total; otherwise it fails with "inconsistent length" |
| IoDvc.AdvanceTotal | echo_dvc_server/src/io_dvc.rs:126 | one more fragment adds its payload count to the wrapped total |
| IoDvc.AdvanceText | echo_dvc_server/src/io_dvc.rs:123-125 | one more fragment appends its trimmed payload to the text |
| ReadProperties.ZerosAreNul | echo_dvc_server/src/io_dvc.rs:72 | a freshly zeroed buffer is all NUL |
| ReadProperties.HeaderFromDelivered | echo_dvc_server/src/io_dvc.rs:114-120 | the header comes from the delivered bytes, not from the zero padding |
| ReadProperties.PayloadTextIgnoresPadding | echo_dvc_server/src/io_dvc.rs:123-124 | the appended text is the delivered payload, NUL-trimmed; the padding zeros are trimmed away with it |
| ReadProperties.PayloadTextTrimmed | echo_dvc_server/src/io_dvc.rs:123-126 | the appended text is no longer than the count added to `tot_read`, and has no NUL at either end |
| ReadProperties.PayloadTextExact | echo_dvc_server/src/io_dvc.rs:123-125 | a payload with no NUL at either end is appended exactly |
| ReadProperties.StarvedIff | echo_dvc_server/src/io_dvc.rs:70-152 | the loop keeps asking for transfers exactly as long as each one is FIRST or MIDDLE |
| ReadProperties.ReadConsumed | echo_dvc_server/src/io_dvc.rs:129-144 | a read that returns has consumed zero or more FIRST/MIDDLE fragments, then exactly one transfer that is not one, and nothing more; when it succeeds, that last one is an ONLY or LAST fragment |
| ReadProperties.ReadIgnoresLaterCalls | echo_dvc_server/src/io_dvc.rs:130-137 | transfers after the one that ends the read never affect it |
| ReadProperties.PayloadTotalBound | echo_dvc_server/src/main.rs:27-28 | each fragment adds at most `CHANNEL_CHUNK_LENGTH` (1600) to the total |
| ReadProperties.OnlyAcceptedIffNoPayload | echo_dvc_server/src/io_dvc.rs:130-133 | a read ending on ONLY succeeds exactly when the wrapped total is 0, because the announced length stays at its initial 0 (io_dvc.rs:66, 154-159) |
| ReadProperties.LastAcceptedIffLengthMatches | echo_dvc_server/src/io_dvc.rs:134-137 | a read ending on LAST succeeds exactly when its announced length equals the wrapped total, and returns all the text read; otherwise it fails with "inconsistent length" (io_dvc.rs:154-161) |
| ReadProperties.OnlyWithPayloadRejected | echo_dvc_server/src/io_dvc.rs:154-159 | without wrap-around, a read ending on ONLY after any payload is rejected |
| ReadProperties.HelloOnlyCall | echo_dvc_server/src/io_dvc.rs:72-81 | the one-chunk "hello" transfer delivers 13 bytes |
| ReadProperties.HelloAsOnlyRejected | echo_dvc_server/src/io_dvc.rs:130-133 | "hello" sent as ONLY, announcing 5, fails with "inconsistent length": 0 announced, 5 read |
| ReadProperties.LoneLastAccepted | echo_dvc_server/src/io_dvc.rs:129-161 | fragment order is not checked: a lone LAST that announces its own count is accepted, and its text is the result |
| ReadProperties.ChunkFlags | echo_dvc_server/src/io_dvc.rs:139-144 | a multi-chunk message is flagged FIRST, MIDDLE ..., LAST |
| ReadProperties.ChunkCall | echo_dvc_server/src/io_dvc.rs:113-120 | a chunk transfer delivers the encoded header followed by the chunk |
| ReadProperties.Chunked | echo_dvc_server/src/io_dvc.rs:70-81 | the transfers of a chunked message, one per chunk |
| ReadProperties.ChunkCallFacts | echo_dvc_server/src/io_dvc.rs:106-126 | a chunk transfer is a fragment carrying its header; its count is the chunk length; a NUL-free-ended chunk is appended exactly |
| ReadProperties.ChunkedPrefix | echo_dvc_server/src/io_dvc.rs:123-126 | after m chunks, the total is their combined length and the text is their concatenation |
| ReadProperties.ChunkedWhole | echo_dvc_server/src/io_dvc.rs:123-126 | all the transfers carry the whole message |
| ReadProperties.ChunkedContinues | echo_dvc_server/src/io_dvc.rs:139-144 | every chunk but the last keeps the loop going |
| ReadProperties.MessageRoundTrip | echo_dvc_server/src/io_dvc.rs:61-162 | a message of at least two chunks (each ≤ 1600 bytes, no NUL at either end), sent FIRST, MIDDLE ..., LAST with the message length announced, is read back as the same bytes and consumes exactly its chunks (as a Rust `String` only when no chunk boundary splits a UTF-8 character; see "Left out") |
| CommandLine.IsWhitespace | echo_dvc_server/src/main.rs:177 | `char::is_whitespace`: the characters with the Unicode White_Space property, which `trim` strips |
| CommandLine.UpperChar | echo_dvc_server/src/main.rs:181 | ASCII lower-case letters go to upper case; other characters, apart from dotless i and long s, are unchanged |
| CommandLine.ToUpper | echo_dvc_server/src/main.rs:181 | upper-casing is character by character and keeps the length |
| CommandLine.ToUpperMatchesKeyword | echo_dvc_server/src/main.rs:181 | a word upper-cases to a keyword exactly when it spells the keyword letter by letter in any case; this makes the match case-insensitive (main.rs:186-189) |
| CommandLine.ToUpperIdempotent | echo_dvc_server/src/main.rs:181 | upper-casing twice is upper-casing once |
| CommandLine.SpaceFrom | echo_dvc_server/src/main.rs:179 | the first-space search stays within the line |
| CommandLine.SpaceFromSkips | echo_dvc_server/src/main.rs:179 | the search passes only non-spaces and stops on a space |
| CommandLine.SplitOnce | echo_dvc_server/src/main.rs:179 | the text before and after the first space, or the whole line and "" when there is none (proved in `SplitOnceSplits`) |
| CommandLine.SplitOnceSplits | echo_dvc_server/src/main.rs:179 | the command holds no space; with a space, the line is command + " " + argument; without one, the argument is "" |
| CommandLine.SplitAtFirst | echo_dvc_server/src/main.rs:179 | a word without spaces followed by a space splits at that space |
| CommandLine.Classify | echo_dvc_server/src/main.rs:186-215 | "" is a no-op; QUIT/EXIT stop; WRITE/PUT send the argument; anything else is invalid |
| CommandLine.ParseLine | echo_dvc_server/src/main.rs:177-181 | the command of a line: trimmed, split at the first space, the command word upper-cased and classified (its properties are the four rows that follow) |
| CommandLine.NoOpIffBlank | echo_dvc_server/src/main.rs:177-187 | a line does nothing exactly when it is empty or whitespace only |
| CommandLine.ParseIgnoresSurroundingWhitespace | echo_dvc_server/src/main.rs:177 | whitespace around a line does not change how it is parsed |
| CommandLine.ParseCommandWithArg | echo_dvc_server/src/main.rs:177-181 | for "word arg", only the word is upper-cased; the argument after the first space keeps its case and inner spaces |
| CommandLine.ParseCommandAlone | echo_dvc_server/src/main.rs:177-181 | a single word is the command, with an empty argument |
| CommandLine.Utf8Char | echo_dvc_server/src/main.rs:191 | a character encodes to 1 to 4 bytes; ASCII encodes to one byte, its code |
| CommandLine.Utf8 | echo_dvc_server/src/main.rs:191 | a string's bytes number between its length and four times its length |
| CommandLine.Utf8Ascii | echo_dvc_server/src/main.rs:191 | an ASCII argument is sent as its character codes |
| RunLoop.TurnStep | echo_dvc_server/src/main.rs:186-215 | what one line does, for any line classifier: no-op; stop with Ok; write the argument's UTF-8 bytes, stop on a write error, else read once and stop on a read error; or report an invalid command |
| RunLoop.RunFrom | echo_dvc_server/src/main.rs:172-218 | the loop from line `i` on: each line's events in order, until the first line that stops it, whose result ends the session; waiting for input if no line does |
| RunLoop.RunSpec | echo_dvc_server/src/main.rs:172-218 | `RunFrom` from the first line, with lines parsed as `run` parses them (`ParseLine`) |
| RunLoop.Run | echo_dvc_server/src/main.rs:165-221 | the loop does exactly what `RunSpec` says: events and ending, line by line, until the first line that stops it |
| RunLoop.Dispatch | echo_dvc_server/src/main.rs:186-215 | one line does exactly its `TurnStep`: nothing; stop Ok; one write then, if it succeeded, one read, with a failure stopping; or the invalid-command report |
| RunLoop.StopsAt | echo_dvc_server/src/main.rs:188-206 | a line that breaks out or fails ends the session with its result and events |
| RunLoop.GoesOnAfter | echo_dvc_server/src/main.rs:217 | after a line that does not stop the loop, the input is cleared and the next line starts afresh |
| RunLoop.ExitStatus | echo_dvc_server/src/main.rs:156-162 | `main` exits with status 0 when `run` returns Ok, and 1 when it returns Err |
| RunLoop.StopFrom | echo_dvc_server/src/main.rs:186-215 | the first line from `i` that stops the loop, with all earlier lines letting it go on |
| RunLoop.StopFromIs | echo_dvc_server/src/main.rs:186-215 | a stopping line that the loop reaches is where it stops |
| RunLoop.RunFromShaped | echo_dvc_server/src/main.rs:189-206 | every session trace is invalid-command reports and write/read pairs, each write followed immediately by exactly one read; a failed write or read ends the trace, and the session ends in that error |
| RunLoop.RunFromOutcome | echo_dvc_server/src/main.rs:186-220 | the session ends with the result of the first line that stops it, or waits for input if no line does |
| RunLoop.QuitEndsRun | echo_dvc_server/src/main.rs:188 | a reachable QUIT/EXIT line makes `run` return Ok (main.rs:220) and `main` exit with 0 |
| RunLoop.OkOnlyAfterQuit | echo_dvc_server/src/main.rs:188 | `run` returns Ok only because it reached a QUIT/EXIT line |
| RunLoop.TransferErrorAborts | echo_dvc_server/src/main.rs:191-206 | a reachable WRITE/PUT line whose write or read fails ends `run` with that transfer's code (a write failure wins, and then no read happens); `main` exits with 1 (main.rs:156-162) |
| RunLoop.ErrOnlyFromTransfer | echo_dvc_server/src/main.rs:191-206 | `run` returns Err only because a WRITE/PUT line's write or read failed |
| RunLoop.RunFromSuffix | echo_dvc_server/src/main.rs:217 | the loop from a line on depends only on the lines from there on |
| RunLoop.BlankLineInert | echo_dvc_server/src/main.rs:187 | inserting a blank line anywhere changes neither the events nor the ending |
| RunLoop.Transfers | echo_dvc_server/src/main.rs:189-214 | the channel traffic of a trace: no longer than the trace, with no invalid-command reports |
| RunLoop.TransfersAppend | echo_dvc_server/src/main.rs:189-214 | the channel traffic of two traces in a row is their traffic in a row |
| RunLoop.InvalidLineOnlyReports | echo_dvc_server/src/main.rs:214 | inserting an unrecognised command anywhere leaves the ending and the channel traffic unchanged, and adds at most its one report |

## Left out

- Win32 calls (`ReadFile`, `WriteFile`, `GetOverlappedResult`, the channel open and query calls, `CreateEventA`), `OVERLAPPED` and `RefCell` borrowing are foreign. Each transfer is a `Completion.Call` value, with no blocking or asynchrony.
- `main`'s setup (echo_dvc_server/src/main.rs:62-155) opens handles and creates events; this is I/O plumbing. Only how `main` ends on `run`'s result (`RunLoop.ExitStatus`) is modelled.
- The command-line arguments, logging and the `debug!`/`error!` messages are library wrappers with no effect on results.
- `String::from_utf8_lossy` (io_dvc.rs:123) is left out. The reader's text is bytes: trimming NUL characters after decoding trims the same NUL bytes. The source decodes each fragment on its own, so a valid multi-byte character split across two chunks becomes two replacement characters while `tot_read` still counts its bytes. `ReadProperties.MessageRoundTrip` therefore holds for the bytes; it holds for the source's `String` only when every chunk boundary falls between characters.
- Console I/O is not modelled: prompts, the help message (main.rs:31-35) and the "received"/"invalid command" printing. A report is a `RunLoop.Event`, and a received reply is kept as bytes.
- A failing `read_line` or `flush` (their `unwrap` panics) is not modelled.
- End of input is not modelled. At end of input `read_line` appends nothing, so the source loops forever on blank lines. `RunLoop.Run` stops with `AwaitingInput` when the given lines run out.
- `IoDvc.ReadDvc`: the source loop asks for transfers without bound. The model reads a finite sequence and returns `Starved` when it runs out before a terminal chunk.
- `IoDvc.ReadDvc`: `tot_read` is modelled with release-build u32 wrap-around. A debug build would panic on overflow instead.
- `RunLoop.Run`: the call at main.rs:201 passes a buffer and expects a range back. That matches no `read_dvc` in the repository (io_dvc.rs:61-64 takes no buffer and returns a string). So the read in `run` is an abstract success with bytes or failure with a code, and is not tied to `IoDvc.ReadDvc`.
- `RunLoop.Run`: the body of the loop's `match` is the method `RunLoop.Dispatch`, and the `break` and `?` exits are taken in `Run` on the value it returns.
- `CommandLine.UpperChar` and `CommandLine.ToUpper` map only what can reach a keyword: ASCII letters, dotless i and long s. Other Unicode case mappings, including those that produce several characters, are left out. None of them can produce QUIT, EXIT, WRITE or PUT, so classification is exact. Only a rejected command's text in `Invalid` can differ.
- The plugin crate (echo_dvc_plugin: COM exports, class factory, registry and channel callbacks) is host plumbing. The echoing peer is what supplies the transfers.
