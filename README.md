# multipart-parser-c, modelled in Dafny

This project models the byte-at-a-time parser for `multipart/form-data` bodies in
`multipart_parser.c`. It covers two functions:

- `init_multipart_parser` builds the parser state.
- `multipart_parser_execute` feeds it one chunk. It is a `switch` over the parser state. It:
  - checks the opening delimiter;
  - splits `Name: value` header lines;
  - scans part payload for the boundary.

  The scan uses a match counter (`index`), two flags and a lookbehind buffer. With these, a
  boundary that straddles two chunks can be resumed, or un-committed and replayed as data.

The project has four modules:

- `MultipartSpec` (`multipart_spec.dfy`) is the functional specification.
  - Each `case` of the `switch` is a function of one byte: `StartBoundaryByte`,
    `HeaderFieldByte`, `HeaderValueByte` and `PartDataByte`. `PartDataByte` is split into
    `BoundaryByte` (below a complete boundary) and `DelimiterByte` (after it), which share
    the tail `Settle`: the lookbehind store, the replay and the chunk-end flush.
  - `Step` is one iteration of the `for` loop. `Run` and `Resume` iterate it over a chunk.
  - `Feed` is one call of `multipart_parser_execute`. It gives the new state, the callbacks
    made and the return value.
  - The C fall-throughs (`s_header_field_start` into `s_header_field`, `s_header_value_start`
    into `s_header_value`) are written as "enter the main state, then handle the same byte
    under its rules". The same goes for `s_part_data_start` into `s_part_data`.
  - Callbacks are an event log. Every callback invocation appends its event.
  - A callback's non-zero return is an oracle, `Config.aborts`. It is given the log including
    the new event, and a `true` makes the step return the current offset.
- `MultipartParser` (`multipart_parser.dfy`) is the imperative parser, a class `Parser`.
  - Its fields follow `multipart_parser_state`. The lookbehind is an `array<char>` of
    `|boundary| + 8` bytes, written in place.
  - `Execute` is the `for` loop, as a `while` loop.
  - Each `case` of the `switch` is a method.
  - Every method is proved to produce exactly the outcome the specification function gives.
  - `Execute` keeps the class invariant `Valid`. This says the index bounds hold, the
    lookbehind holds exactly the bytes of the match in flight, and `parsed` equals the number
    of part-data bytes handed to callbacks.
- `MultipartProperties` (`multipart_properties.dfy`) proves what the parser does on whole
  inputs. It covers:
  - the grammar of the opening delimiter and of header lines;
  - when `on_headers_complete` fires;
  - the boundary scan: tentative matching, replay on a mismatch, part and terminal boundaries,
    and boundaries that straddle two calls;
  - the chunk-end flush;
  - the flags and the lookbehind contents;
  - `s_end` absorbing every further byte.
- `MultipartPayload` (`multipart_payload.dfy`) proves what happens to payload bytes:
  - plain payload bytes change nothing until the chunk's end or a boundary;
  - a CR LF trimmed before a candidate that then fails is lost;
  - the order of callbacks over whole parts, and over a whole two-part body in one chunk.

Bytes are `char`. A chunk is `seq<char>`. `len` is `|buf|`.

## Model

| member | source | states |
|---|---|---|
| MultipartSpec.Initial | multipart_parser.c:105-109 | The initial machine is in s_start with index 0, both flags clear and parsed 0, and is well-formed for the boundary length. |
| MultipartSpec.Emit | multipart_parser.c:24-50 | A callback appends exactly its event to the log. It aborts exactly when the callback reports failure, and then `execute` returns the given offset. The part-data byte count grows by the event's data length. |
| MultipartSpec.StartBoundaryByte | multipart_parser.c:132-155 | s_start_boundary keeps the index bounds, leaves the mark where it was, only extends the log, returns at most one past the byte, and keeps `parsed` equal to the delivered data. |
| MultipartSpec.HeaderFieldByte | multipart_parser.c:160-184 | s_header_field keeps the same step invariants (bounds, mark, log growth, return offset, `parsed` bookkeeping). |
| MultipartSpec.HeaderValueByte | multipart_parser.c:201-209 | s_header_value keeps the same step invariants, including when the CR is the chunk's last byte and the value is delivered twice. |
| MultipartSpec.Adjustment | multipart_parser.c:232-237 | The CRLF trim is 2 exactly when CR LF precede the candidate byte and a hyphen follows it (all inside the chunk and after the mark), and 0 otherwise. It never reaches back past the mark. |
| MultipartSpec.Settle | multipart_parser.c:292-305 | The tail of s_part_data stays in s_part_data and keeps the step invariants. The replay of the held bytes and the chunk-end flush add to `parsed` exactly what they deliver. |
| MultipartSpec.PartDataByte | multipart_parser.c:222-306 | s_part_data keeps the match counter within `|boundary| + 3`, the mark at or before the byte, and `parsed` equal to the delivered data. |
| MultipartSpec.BoundaryByte | multipart_parser.c:224-244 | Matching a boundary byte keeps the step invariants, including the data delivery before a candidate's first byte. |
| MultipartSpec.DelimiterByte | multipart_parser.c:245-290 | The bytes after a complete boundary keep the step invariants. The counter never exceeds `|boundary| + 3`. |
| MultipartSpec.Delimited | multipart_parser.c:256-289 | A confirmed delimiter keeps the step invariants (bounds, mark, log growth, return offset, `parsed` bookkeeping). |
| MultipartSpec.Step | multipart_parser.c:124-313 | Every loop iteration keeps the well-formedness bounds (index within `|boundary|` in s_start_boundary, within `|boundary| + 3` in s_part_data, 0 elsewhere). It keeps the mark at or before the byte, only extends the log, returns at most one past the byte, and keeps `parsed` equal to the delivered data. |
| MultipartSpec.Run | multipart_parser.c:124-316 | Running a stretch of the chunk keeps the machine well-formed and only extends the log. A return offset is at most the stretch's end; it may lie before the stretch's start, since an aborted candidate returns the offset short of the trimmed CR LF. The data mark stays at most the stretch's end. |
| MultipartSpec.Resume | multipart_parser.c:124-125 | Handling one byte and then the rest keeps the same guarantees as `Run`. |
| MultipartSpec.Feed | multipart_parser.c:117-317 | One `execute` call leaves a well-formed machine, only extends the log, and returns at most `len`. |
| MultipartParser.Parser.constructor | multipart_parser.c:90-111 | The parser keeps the boundary, reserves `|boundary| + 8` lookbehind bytes, starts in the initial machine with an empty log, and satisfies the class invariant. |
| MultipartParser.Parser.Invoke | multipart_parser.c:24-31 | A callback invocation appends its event and reports the callback's failure. |
| MultipartParser.Parser.Execute | multipart_parser.c:117-317 | The loop leaves the state, the event log and the return value that `Feed` gives for the old state. It keeps the class invariant, which includes `parsed` equal to the part-data bytes delivered. |
| MultipartParser.Parser.StepByte | multipart_parser.c:126-313 | One iteration of the loop changes the fields, the lookbehind array and the mark exactly as `Step` says, and returns as `Step` returns. |
| MultipartParser.Parser.StartBoundaryByte | multipart_parser.c:132-155 | The s_start_boundary case agrees with the specification function of that state. |
| MultipartParser.Parser.HeaderFieldByte | multipart_parser.c:160-184 | The s_header_field case agrees with the specification function of that state. |
| MultipartParser.Parser.HeaderValueByte | multipart_parser.c:201-209 | The s_header_value case agrees with the specification function of that state. |
| MultipartParser.Parser.PartDataByte | multipart_parser.c:222-306 | The s_part_data case, including the in-place lookbehind write, agrees with the specification. |
| MultipartParser.Parser.BoundaryByte | multipart_parser.c:224-244 | Boundary-prefix matching agrees with the specification: a mismatch resets the counter, a further match extends it, and the first byte of a candidate goes to `CandidateByte`. |
| MultipartParser.Parser.CandidateByte | multipart_parser.c:227-241 | The first byte of a candidate boundary agrees with the specification: the data before it is delivered without a trimmed CR LF, `parsed` grows by that length, a failing callback returns the offset before the trim, and otherwise the counter becomes 1. |
| MultipartParser.Parser.DelimiterByte | multipart_parser.c:245-290 | The flag setting and delimiter confirmation after a full boundary agree with the specification. |
| MultipartParser.Parser.Delimited | multipart_parser.c:259-266 | `on_part_data_end`, then the closing callback, then the new state, as in the specification. |
| MultipartParser.Parser.Settle | multipart_parser.c:292-305 | The lookbehind store at `index - 1`, the replay and the chunk-end flush agree with the specification. |
| MultipartProperties.RunSplit | multipart_parser.c:124-316 | Running a chunk up to one position and then on to a later one is the same as running straight to the later one. A return before the first position is final. |
| MultipartProperties.OpeningAccepted | multipart_parser.c:127-155 | Byte 0 is unchecked. If bytes `1..L+1` are `boundary[1..]`, CR, LF, the parser emits exactly one `on_part_data_begin` and is in s_header_field_start at byte `L + 2`, with index 0. |
| MultipartProperties.OpeningRejected | multipart_parser.c:132-155 | The first byte `k` that differs from `boundary[1..]` CR LF makes the run return `k`, with no event logged. |
| MultipartProperties.MalformedStart | multipart_parser.c:127-155 | From the initial machine, a malformed opening delimiter makes `execute` return an offset below `len` with no callback made. |
| MultipartProperties.NameScan | multipart_parser.c:167-184 | Letters and hyphens that are not the chunk's last byte leave the header-name state unchanged. |
| MultipartProperties.HeaderLine | multipart_parser.c:156-184 | After a run of letters and hyphens (case and hyphens kept), the next byte decides. A `:` delivers the name `buf[mark..k)` and enters s_header_value_start. A CR enters s_headers_almost_done. Any other byte makes the run return its offset. |
| MultipartProperties.BlankLine | multipart_parser.c:185-192 | A CR at the start of a header line needs an LF, which enters s_part_data_start with no event; any other byte is returned. |
| MultipartProperties.SpaceScan | multipart_parser.c:193-197 | Spaces before a header value are skipped without any event. |
| MultipartProperties.ValueScan | multipart_parser.c:201-209 | Non-CR value bytes that are not the chunk's last byte change nothing. |
| MultipartProperties.HeaderValueLine | multipart_parser.c:193-216 | Only leading spaces are skipped. The CR delivers the value from the first non-space byte up to, not including, the CR. The next byte must be LF, which returns to s_header_field_start; otherwise its offset is returned. |
| MultipartProperties.HeadersCompleteOnFirstPayloadByte | multipart_parser.c:217-222 | `on_headers_complete` fires when the first payload byte is handled. If it aborts, that byte's offset is returned; otherwise the byte is handled by s_part_data with the mark at it. |
| MultipartProperties.CandidateStart | multipart_parser.c:226-241 | A byte equal to `boundary[0]` with no match in flight first delivers the data since the mark, less a trimmed CR LF. Then it is held in `lookbehind[0]` with the counter at 1; an abort returns the offset short of the trimmed bytes. |
| MultipartProperties.TentativeByte | multipart_parser.c:226-293 | A byte that extends an in-flight match raises the counter by one and stores the byte at `lookbehind[index]`. It sets the part or last flag on CR or `-` after the full boundary, and delivers nothing. |
| MultipartProperties.MismatchReplay | multipart_parser.c:242-299 | A byte that breaks an in-flight match without confirming a delimiter delivers exactly the first `prev_index` held bytes as one chunk. `parsed` grows by `prev_index`, the mark restarts at this byte, and the byte is not compared again with `boundary[0]`. At the chunk's end that byte is then flushed alone. The held bytes are the boundary prefix. |
| MultipartProperties.DelimitedEffect | multipart_parser.c:256-289 | A confirmed delimiter keeps the counter at 0 and both flags. It logs `on_part_data_end` and then, unless that aborted, the closing callback, and delivers no held byte. It reaches the new state with both events logged or returns the LF's offset. |
| MultipartProperties.PartBoundaryConfirmed | multipart_parser.c:256-266 | After boundary and CR, an LF clears the part flag, emits `on_part_data_end` then `on_part_data_begin`, and enters s_header_field_start. No held bytes are delivered. |
| MultipartProperties.TerminalBoundaryConfirmed | multipart_parser.c:282-289 | After boundary, `--` and CR, an LF emits `on_part_data_end` then `on_body_end` and enters s_end. No held bytes are delivered. |
| MultipartProperties.PartDataByteEffect | multipart_parser.c:244-293 | In s_part_data, the last flag is set exactly by `-` after a full boundary and never cleared. The part flag is set by CR there and cleared only by the confirming LF. The lookbehind keeps holding the matched delimiter prefix. |
| MultipartProperties.StepFlags | multipart_parser.c:244-266 | Across any step, `f_last_boundary` is never cleared. `f_part_boundary` is cleared only by a confirmed part boundary. |
| MultipartProperties.StepKeepsHeld | multipart_parser.c:292-293 | Every step keeps the invariant that the first `index` lookbehind bytes are the matched boundary prefix, then CR or `-`, `-`, CR. |
| MultipartProperties.RunKeepsHeld | multipart_parser.c:224-305 | Over any stretch of a chunk the lookbehind keeps holding exactly the matched boundary prefix, then CR or `-`, `-`, CR. |
| MultipartProperties.ChunkEndFlush | multipart_parser.c:224-305 | At the chunk's last byte in s_part_data, if that byte neither starts a candidate nor confirms a delimiter and leaves no match in flight, the parser stays in s_part_data and an abort returns `len`. With no match in flight before the byte, exactly one event is added: `buf[mark..len)` from the incoming mark, that byte included. With a match in flight before it, the held bytes are replayed first and the flush is the byte alone, from a mark reset to it. `parsed` grows by exactly those lengths. If a match is in flight afterwards, nothing but the data before a new candidate is delivered and the call does not abort. A candidate or confirmation that aborts returns that byte's offset, and a confirmation that does not abort leaves s_part_data. |
| MultipartProperties.SettleDelivers | multipart_parser.c:292-305 | With no match in flight after the byte, the tail of s_part_data replays exactly the `prev_index` held bytes and restarts the mark at the byte when a match was in flight, and otherwise keeps the incoming mark. At the chunk's last byte it then delivers `buf[mark..len)` from that mark. The log gains exactly these events and `parsed` exactly their lengths. |
| MultipartProperties.HoldBoundary | multipart_parser.c:226-241 | The rest of a boundary whose first `index` bytes are held is absorbed into the lookbehind with no event. |
| MultipartProperties.PartBoundaryLine | multipart_parser.c:226-266 | Boundary, CR, LF in a payload deliver the data before it (less a trimmed CR LF), then `on_part_data_end` and `on_part_data_begin`. The boundary bytes are never delivered as data. |
| MultipartProperties.TerminalLine | multipart_parser.c:226-309 | Boundary, `--`, CR, LF deliver the data before it, then `on_part_data_end` and `on_body_end`, and the run ends in s_end with no further event. |
| MultipartProperties.PartBoundaryResumes | multipart_parser.c:224-266 | A part boundary whose first `index` bytes were held at the end of the previous call completes in the next call with no data event. |
| MultipartProperties.TerminalResumes | multipart_parser.c:224-289 | A terminal boundary begun in the previous call completes in the next with `on_part_data_end` and `on_body_end` and no data event. |
| MultipartProperties.StraddlingPartBoundary | multipart_parser.c:117-266 | An `execute` call that begins mid-boundary and receives the rest, CR and LF, logs `on_part_data_end` then `on_part_data_begin` before anything else. |
| MultipartProperties.StraddlingTerminalBoundary | multipart_parser.c:117-316 | An `execute` call that begins mid-boundary and receives exactly the rest and `--` CR LF logs only the two closing events, ends in s_end and returns `len`. |
| MultipartProperties.StalePartFlagHidesTerminal | multipart_parser.c:249-275 | As written, a part flag left set by an earlier boundary, CR, non-LF makes a later `boundary--` be replayed as data (`boundary` plus one hyphen) with the last flag set, instead of closing the body. |
| MultipartPayload.DataByte | multipart_parser.c:224-305 | In s_part_data with no match in flight, a byte other than `boundary[0]` that is not the chunk's last byte changes nothing: no event, same mark, same state. |
| MultipartPayload.DataScan | multipart_parser.c:224-305 | A stretch of such bytes changes nothing. |
| MultipartPayload.LastDataByte | multipart_parser.c:224-305 | Such a byte as the chunk's last byte delivers exactly `buf[mark..len)` from the incoming mark and nothing else, grows `parsed` by its length, and on an abort returns `len`. |
| MultipartPayload.TrimmedLineBreakLost | multipart_parser.c:226-299 | As written, with a boundary whose second byte is `-`, the bytes CR, LF, `boundary[0]`, `-` and a byte other than `boundary[2]` deliver the data before the CR LF, then only the two held bytes, and restart the mark after them. The CR LF is never delivered and `parsed` counts two bytes fewer. |
| MultipartPayload.HeldPairReplayed | multipart_parser.c:242-299 | A held `boundary[0]` followed by `-` and then a byte other than `boundary[2]` replays the two held bytes and restarts the mark at that byte. |
| MultipartPayload.LostLineBreakExample | multipart_parser.c:117-316 | With boundary `--B`, one call on `x`, CR, LF, `--Xyz` in s_part_data logs exactly `x`, `--`, `Xyz`: eight bytes arrive as six, and `parsed` grows by 6. |
| MultipartPayload.PayloadStart | multipart_parser.c:217-244 | The first payload byte raises `on_headers_complete`, and a byte other than `boundary[0]` is then kept as data with the mark on it. |
| MultipartPayload.PayloadRun | multipart_parser.c:217-305 | A payload of bytes other than `boundary[0]` raises only `on_headers_complete` and keeps the mark at its first byte. |
| MultipartPayload.PayloadThenBoundary | multipart_parser.c:217-266 | A payload free of `boundary[0]`, then a part boundary, log `on_headers_complete`, the payload (less a trimmed CR LF), `on_part_data_end` and `on_part_data_begin`, and enter the next part's header lines. |
| MultipartPayload.PayloadThenTerminal | multipart_parser.c:217-289 | The last payload, free of `boundary[0]`, then the terminal boundary, log `on_headers_complete`, the payload, `on_part_data_end` and `on_body_end`, and end in s_end. |
| MultipartPayload.FirstPart | multipart_parser.c:127-266 | The opening delimiter, a blank line and a payload free of `boundary[0]` up to a part boundary log `on_part_data_begin`, `on_headers_complete`, the payload, `on_part_data_end` and `on_part_data_begin`. |
| MultipartPayload.LastPart | multipart_parser.c:185-289 | A blank line, a payload free of `boundary[0]` and the terminal boundary at the chunk's end log `on_headers_complete`, the payload, `on_part_data_end` and `on_body_end`, ending in s_end. |
| MultipartPayload.TwoPartBody | multipart_parser.c:90-316 | A whole body of two parts without header lines and with payloads free of `boundary[0]`, in one chunk, from the initial parser and with callbacks that never fail, makes exactly the nine callbacks in order. It ends in s_end and returns `len`. |
| MultipartProperties.EndAbsorbs | multipart_parser.c:307-309 | In s_end every byte is ignored: no event and no change. |
| MultipartProperties.FeedAtEnd | multipart_parser.c:307-316 | An `execute` call on a parser in s_end changes nothing, makes no callback and returns `len`. |

## Left out

- Debug logging (`multipart_log`, lines 12-22) is output only and is not modelled.
- Memory layout is not modelled. The single `malloc` block with the trailing boundary array
  (lines 93-103) becomes separate fields. `free_multipart_parser` (lines 113-115) only frees
  memory.
- Callback plumbing is not modelled. The function-pointer table and the `data` pointer of
  `multipart_parser.h` become the event log plus the abort oracle.
  - An absent callback is modelled as a present one that never aborts; its event still goes
    into the log.
  - `on_part_data` is taken to be present. The replay at line 296 calls it without a check.
  - The replay's return value is ignored, as in the code.
- MultipartSpec.Adjustment: the trim is applied only when `i >= 2`, `i + 1 < len` and `mark <= i - 2`.
  The code reads `buf[i-1]`, `buf[i-2]` and `buf[i+1]` unchecked (line 233), which can fall
  outside the chunk; these out-of-bounds reads are undefined behaviour, and the model takes
  the in-bounds reading.
  The case `mark > i - 2` with all three bytes inside the chunk is different: it is reachable
  and well defined. An example is a part with no payload whose delimiter directly follows
  the blank line, as in `H: v\r\n\r\n--B...` with boundary `--B`. After the blank line's LF
  (line 191), the first `-` is handled in s_part_data_start, which sets `mark = i` (line 220),
  so `mark > i - 2`; the three bytes around it
  are LF, CR and `-`, so the trim applies and the length is `i - 2 - mark` (lines 237-238,
  46). As a `size_t`, that wraps to `SIZE_MAX - 1`: the callback is handed that length and
  `parsed` grows by it (line 45). The model does not trim there: it delivers
  `OnPartData("")`, the empty slice from the mark, and adds 0 to `parsed`.
- `tolower` and the C locale are replaced by an ASCII-letter test.
- `s_uninitialized` and the `default: return 0` branch (lines 71, 310-312) are not modelled.
  They cannot be reached from `init_multipart_parser`.
- MultipartParser.Parser.constructor: requires a non-empty boundary. With an empty one,
  `boundary_length - 1` at line 134 wraps around.
- `size_t` wrap-around of `parsed` is not modelled. `parsed` and `index` are unbounded
  naturals.
- The initial contents of the lookbehind buffer are arbitrary, as after `malloc`.
- Chunk-split invariance of a whole body is not claimed, because the code does not have it:
  - end-of-chunk header flushes drop the current byte (lines 183, 208);
  - a CR as the chunk's last byte delivers the header value twice (lines 203-208);
  - the CRLF trim sees only the current chunk;
  - the flags are not always cleared (lines 249-266).

  These are modelled as written. `StalePartFlagHidesTerminal` shows one consequence.
- Payload is not promised to reach the callbacks unchanged, because the code does not do that.
  A CR LF trimmed before a candidate boundary is never delivered when the candidate then
  fails (lines 232-239 and 292-298). `MultipartPayload.TrimmedLineBreakLost` and
  `MultipartPayload.LostLineBreakExample` show this.
- The whole-body callback order is proved only for parts without header lines and with
  payloads free of `boundary[0]` (`MultipartPayload.TwoPartBody`, and the part lemmas
  `PayloadThenBoundary`, `PayloadThenTerminal`, `FirstPart` and `LastPart` it is built from).
  So a payload containing a hyphen, with the usual boundary starting with `-`, is not covered,
  nor is a partial match that is replayed. Those bytes are covered one at a time by
  `CandidateStart`, `TentativeByte` and `MismatchReplay`. Header lines compose in front of a part's payload through
  `MultipartProperties.HeaderLine` and `MultipartProperties.HeaderValueLine`, but no lemma
  chains them through a whole body.
