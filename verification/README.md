# ursparseness in Dafny

A model of the core of `ursparseness`, a small C tool that encodes a sparse
file for transfer across a wire and decodes it back. Its wire format, "ursparse", is a sequence of records. Each
record is a header `offset length\n` in ASCII decimal, followed by exactly
`length` raw bytes (the "meat"). The bytes are written at `offset` in the
output. Holes are never sent: a hole between records appears because the
writer seeks past it. The text carries no file size, so a hole at the end of
the input does not reappear.

The model covers three modes of the tool:

- **decode** (`do_ursparse`): reads the stream block by block. It feeds each
  block to the resumable record parser `parse_uint`/`parse_newline`/`parse_ursparse`,
  which seeks the output (`do_hole`) and writes payloads (`do_meat`).
- **encode** (`do_sparse`, `do_sparse_data`, `do_sparse_copy_data`): walks
  the input's data extents with `SEEK_DATA`/`SEEK_HOLE`. For each extent it
  prints a header and copies the extent's bytes.
- **map** (`do_map`): prints one `offset length` line per data extent.

Modules, in dependency order:

| module | file | what it holds |
|---|---|---|
| `Tokens` | `tokens.dfy` | `parse_uint` and `parse_newline` as pure scanners over a window, with their one-shot shapes and their resumption across windows |
| `Output` | `output.dfy` | the output file as a map from offsets to bytes, with a cursor, a seekable flag and a size limit; `do_hole` and `do_meat` |
| `Record` | `record.dfy` | the `parse_ursparse` state machine; the `switch` fall-through is a chain of phase calls |
| `Decoder` | `decoder.dfy` | the cursor loop over one block and the block loop of `do_ursparse` |
| `Format` | `format.dfy` | `%ld` of a non-negative number and the `"%ld %ld\n"` header, with the proof that the digits read back |
| `Extents` | `extents.dfy` | the input file as cells, the two `lseek` queries, the extent scan and `do_map` |
| `Encoder` | `encoder.dfy` | the copy, `do_sparse_data`, `do_sparse`, and the header and record facts that prove encode-then-decode restores the input |
| `Scenarios` | `scenarios.dfy` | concrete streams: the example stream, the same stream cut at other read boundaries, and the edge cases |

Inputs from outside the program become parameters:

- A decode receives the stream as the sequence of blocks its reads return, so
  the read boundaries are explicit.
- The output file carries a `limit`. A write that would pass it fails, which
  stands for a full disk or a file-size limit.
- The encoder receives the input's cells (a hole byte, or a data byte) and
  whether the input can seek. It also receives a sink: whether the output is
  a regular file, because `copy_file_range` refuses anything else, and the
  input offsets whose copy fails for another reason (no space left, an I/O
  error). So a run can stop after any number of records.

The model keeps these behaviours of the code as written:

- **Read boundaries.** The result of a decode depends on where the reads cut
  the stream. When the SIZE or NEWLINE phase runs out of input, it reports
  only its own bytes and leaves out the bytes earlier phases consumed in the
  same call. The driver adds that count to the cursor where the call
  started, so the read's last bytes, as many as the earlier phases consumed, are
  parsed a second time. `Scenarios.SizeDigitsReadTwice` shows "12 34" in one
  read. The offset takes the two bytes "12", and the size phase takes " 34"
  but reports three bytes. The cursor lands on "34", which is read again, so
  the size becomes 3434. `Scenarios.ReadBoundariesMatter` shows the example stream decoding
  cleanly in one read and failing in three.
- **Zero-length writes.** A record of length 0 is an error. So is a header
  whose newline is the last byte of a read, because the MEAT phase then asks
  `do_meat` for zero bytes.
- **Re-skipping whitespace.** While a number's accumulator is still zero,
  every call skips leading blanks again. So a "0" at the end of one read,
  followed by " 5" in the next, reads as 5.
- **No truncation check.** At end of input the decode returns 0 whatever
  state the parser is in.
- **Seekability check.** The decoder's seekability check is made on the
  *input* descriptor, although its message speaks of the output file. The
  model refuses a non-seekable input with code 1 and, separately, lets the
  seek in `do_hole` fail on a non-seekable output.
- **No pipes.** Neither end works on a pipe. The decoder refuses a
  non-seekable input with code 1. The encoder's `copy_file_range` refuses an
  output that is not a regular file, so a run over a file holding data stops
  with code 2 after the first header (`Encoder.PipeOutputStopsAtOnce`).
- **Short copies.** The copy is called once and its count is not checked. An
  extent longer than one copy moves gets a header that promises more bytes
  than follow it.

## Model

| member | source | states |
|---|---|---|
| Tokens.SkipBlanks | ursparseness.c:54-58 | the index reached is the first non-blank at or after the start, and everything skipped is a space or newline |
| Tokens.ScanDigits | ursparseness.c:60-80 | the digit loop fails only at a character that is neither digit nor blank. "Need more" consumes the whole window, which is all digits, and returns their fold into the accumulator. "Done" stops at a blank after digits and returns their fold |
| Tokens.ParseUint | ursparseness.c:45-81 | empty window gives -2, other failures -1 at a bad character. The window is done exactly when it is optional blanks (only when the accumulator is 0), digits, then a blank: the value is the digits folded into the accumulator and the count is the delimiter's index. The window needs more exactly when it ends inside that shape, with count = window size |
| Tokens.ParseUintResume | ursparseness.c:52-80 | a number split into two windows parses as in one window, with counts shifted by the first window's length, unless the partial value is 0 and the second window starts with a blank |
| Tokens.ZeroThenBlankRestarts | ursparseness.c:54-58 | the resumption exception happens: "0" then " 5 " yields 5 while "0 5 " in one window yields 0 |
| Tokens.SkipSpaces | ursparseness.c:104-106 | the index reached is the first non-space at or after the start |
| Tokens.ParseNewline | ursparseness.c:96-121 | empty window gives -2. Spaces then a newline are done with the count just past the newline. All spaces need more with count = window size. Any other character after the spaces gives -1, in both directions |
| Tokens.ParseNewlineResume | ursparseness.c:102-120 | a terminator split after a run of spaces parses as in one window, counts shifted |
| Output.DoHole | ursparseness.c:155-164 | on a seekable output the cursor moves to the offset and no byte changes; otherwise -1 |
| Output.Put | ursparseness.c:134-146 | a write advances the cursor by the data's length and keeps the file's kind and limit |
| Output.PutPlaces | ursparseness.c:134-146 | a write places each byte at cursor + index and leaves every other offset as it was |
| Output.DoMeat | ursparseness.c:126-150 | zero bytes give -2 with nothing written. A write that fits succeeds with count = data length, and the file is the data written at the cursor. One that passes the limit fails with -4 after the bytes that fit were written |
| Output.DoMeatWithinLimit | ursparseness.c:134-141 | no write, successful or failed, stores a byte at or past the file's limit |
| Record.Step | ursparseness.c:192-308 | empty window gives -2 with the state untouched. In ERROR a non-empty window gives -5 with no effect. Any negative return leaves the parser in ERROR, and ERROR only comes with one. -7 never happens. Return 0 comes with the zeroed state. Reachable states stay reachable. From a non-ERROR state a non-negative return on a non-empty window reports 1 <= out_sz <= window size |
| Record.Phases | ursparseness.c:199-300 | every phase chain returns a sound result: errors in ERROR with count 0, counts between 1 and the bytes seen, positive codes equal to the count, 0 only with the zeroed state, never -7 |
| Record.MeatPhase | ursparseness.c:275-300 | MEAT asks do_meat for exactly min(window, remaining size) bytes and succeeds iff that is positive and fits. The count is those bytes plus earlier phases' bytes. The record completes, resetting the whole state, iff the remaining size is reached; otherwise the remaining size shrinks by the bytes written and stays positive. A failed write leaves the parser in ERROR |
| Decoder.Drain | ursparseness.c:338-349 | the cursor loop over one block ends in 0 or 4, with 4 exactly when the parser ends in ERROR; the output keeps its kind and limit |
| Decoder.Feed | ursparseness.c:327-351 | the block loop ends in 0 or 4, with 4 exactly when the parser is in ERROR; an empty read ends it with 0 in any state |
| Decoder.Decode | ursparseness.c:310-354 | a non-seekable input gives 1; otherwise 0, or 4 exactly when the parser failed |
| Decoder.DrainBlock | ursparseness.c:338-349 | the imperative cursor loop computes the same result as the functional one |
| Decoder.DoUrsparse | ursparseness.c:310-354 | the imperative driver returns the code and output file that Decode describes |
| Decoder.OneRead | ursparseness.c:327-353 | a non-empty stream read in a single piece decodes to exactly that drain's result, whatever its code |
| Format.Decimal | ursparseness.c:370 | `%ld` of a non-negative number is a non-empty run of digits with no leading zero |
| Format.Header | ursparseness.c:370 | a header is at least four characters and ends in a newline |
| Format.DecimalRoundTrip | ursparseness.c:370 | folding the printed digits back gives the number printed |
| Format.DecimalInjective | ursparseness.c:370 | different numbers print differently |
| Extents.SeekData | ursparseness.c:390 | SEEK_DATA returns the least data offset at or after its argument, and ENXIO exactly when there is none |
| Extents.SeekHole | ursparseness.c:400 | SEEK_HOLE returns the least hole offset at or after its argument, counting end of file as a hole, and ENXIO exactly when the argument is at or past the end |
| Extents.HoleAfter | ursparseness.c:400 | the first hole at or after an offset, or end of file, with data everywhere before it |
| Extents.HeadIsMaximal | ursparseness.c:437-460 | from a hole or the file start, the first extent the scan reports is a maximal data run |
| Extents.ExtentsFromMaximal | ursparseness.c:437-461 | every extent the scan reports from a boundary is a maximal data run, so each has length at least 1 |
| Extents.ExtentsFromSeparated | ursparseness.c:437-461 | reported extents are strictly ascending with a hole between neighbours |
| Extents.ExtentsFromComplete | ursparseness.c:437-461 | every maximal data run at or after a boundary is reported |
| Extents.FileExtentsAreMaximalRuns | ursparseness.c:437-464 | the scan of a whole file reports exactly its maximal data runs, in strictly ascending order |
| Extents.AllDataIsOneExtent | ursparseness.c:437-461 | a file with no holes is one extent covering all of it, or none when empty |
| Extents.AllHoleHasNoExtents | ursparseness.c:437-461 | a file that is all hole has no extents |
| Extents.ExtentsStep | ursparseness.c:438-460 | the extents from an offset are the one found by the two seeks, then those from its end |
| Extents.ListingStep | ursparseness.c:459-460 | the lines printed from an offset are the next extent's line, then those from its end |
| Extents.DoMap | ursparseness.c:428-466 | a non-seekable input gives 1 and prints nothing. Otherwise 0, and the output is one line per extent of the scan, in order. The print after the loop is unreachable |
| Encoder.CopyBytes | ursparseness.c:356-364 | a copy moves the input's bytes from the start, no more than asked, no more than MAX_RW_COUNT and not past end of file; it stops short only at one of those limits |
| Encoder.CopyData | ursparseness.c:356-364 | the copy fails exactly when the sink refuses the extent's offset (always for an output that is not a regular file); otherwise it moves CopyBytes |
| Encoder.DoSparseData | ursparseness.c:366-378 | returns 0 or -1, with -1 exactly when the copy fails. A record is the header followed by the copied bytes; a failed copy leaves the header already written |
| Encoder.EncodingAppend | ursparseness.c:389-416 | the text for some extents and one more is the text for those extents, then that extent's record |
| Encoder.FirstFailure | ursparseness.c:412-414 | the index of the first extent whose copy fails, or the count when none does: every extent before it copies |
| Encoder.PipeOutputStopsAtOnce | ursparseness.c:356-364 | on an output that is not a regular file the first extent's copy already fails, so the run stops there with no record before that extent's header |
| Encoder.EncodingStep | ursparseness.c:389-416 | the text written from an offset is the next extent's record, then the text from its end |
| Encoder.CopiedOne | ursparseness.c:389-416 | a loop turn whose copy succeeds moves its extent from those still to visit to those written, and appends its record to the text |
| Encoder.StopAt | ursparseness.c:389-414 | a loop turn whose copy fails, after every earlier copy succeeded, is at the file's first failing extent, and the extents before it are those already written |
| Encoder.CleanAppend | ursparseness.c:412-415 | extents that all copied stay so with one more extent that copies |
| Encoder.FailureAt | ursparseness.c:412-414 | a failing extent after extents that all copy is the first failing one |
| Encoder.DoSparse | ursparseness.c:380-426 | a non-seekable input gives 1 and writes nothing. Otherwise code 2 exactly when some extent's copy fails: the output is then the records of the extents before the first failing one, then that extent's header. Otherwise 0, with one record per extent of the scan, in the same extent order as DoMap. The record after the loop (code 3) is unreachable |
| Encoder.HeaderStep | ursparseness.c:204-277 | a header fed from the start state is consumed exactly: the output is seeked to the offset and the parser is in MEAT with the header's size, on the bytes after the header |
| Encoder.PhasesOfHeader | ursparseness.c:204-273 | when the token scanners end at the offset's delimiter, the size's delimiter and the newline, the phases chain into MEAT at the parsed offset and size |
| Encoder.HeaderTokens | ursparseness.c:45-121 | the scanners split a printed header into its offset, its size (with the space before it) and its newline, returning the printed numbers |
| Encoder.OffsetPhase | ursparseness.c:204-225 | an offset done within the window moves the parser to SIZE after the offset's digits |
| Encoder.SizePhase | ursparseness.c:227-245 | a size done within the window moves the parser to NEWLINE after its digits |
| Encoder.NewlinePhase | ursparseness.c:247-273 | a newline done within the window seeks to the offset and moves the parser to MEAT after it |
| Encoder.OffsetDone | ursparseness.c:60-72 | printed digits followed by a space scan as that number, stopping at the space |
| Encoder.SizeDone | ursparseness.c:54-72 | a space, printed digits and a newline scan as that number, stopping at the newline |
| Encoder.NewlineDone | ursparseness.c:108-111 | a newline is a complete terminator of one byte |
| Encoder.RecordStep | ursparseness.c:204-300 | a whole record in one window is one parser call. It returns 0 with count = header + payload, the payload written at the offset, and the state zeroed |
| Encoder.FitsOneCopyStep | ursparseness.c:389-415 | when every extent from an offset fits one copy, the next extent does and so does every one after it |
| Encoder.RunBytes | ursparseness.c:358 | the copy of a data run no longer than MAX_RW_COUNT is exactly the run's bytes |
| Encoder.DrainRecord | ursparseness.c:338-349 | the cursor loop passes a whole record and continues at the start state after it, with the payload written |
| Encoder.CopyRunLength | ursparseness.c:358 | the copy of a data run no longer than MAX_RW_COUNT moves as many bytes as the run holds |
| Encoder.RecordOfRun | ursparseness.c:389-415 | decoding the first record from an offset writes that extent's stored bytes and continues with the records after it |
| Encoder.RecordText | ursparseness.c:338-349 | the cursor loop over the text from an offset writes the next run's copy at its offset and continues with the text after the run |
| Encoder.RecordBytes | ursparseness.c:389-415 | the run's copy at its offset, followed by the stored bytes after the run, is the stored bytes from the offset on |
| Encoder.DrainRecords | ursparseness.c:338-349 | decoding the records of the extents from an offset writes exactly the stored bytes from that offset on, and ends cleanly at the start state |
| Encoder.RoundTrip | ursparseness.c:310-426 | encoding a file whose every maximal data run is at most MAX_RW_COUNT bytes (the file itself may be larger), then decoding the text read in one piece into an empty seekable output, gives code 0. Every data byte lands at its offset and nothing lands where the input has holes |
| Encoder.LongExtentShortPayload | ursparseness.c:356-364 | a data run longer than MAX_RW_COUNT is copied short, so its header promises more bytes than follow |
| Scenarios.ExampleHeaders | ursparseness.c:370 | the example stream is the headers "0 4\n" and "10 3\n" with their payloads |
| Scenarios.TwoRecords | ursparseness.c:338-349 | two whole records in one read write both payloads and end at the start state |
| Scenarios.ExampleDecodes | ursparseness.c:9-20 | the example stream in one read decodes with code 0 to "ABCD" at 0 and "XYZ" at 10 |
| Scenarios.FirstRead | ursparseness.c:275-300 | a read ending inside a payload writes the bytes it has and leaves the parser owing the rest |
| Scenarios.PayloadEnds | ursparseness.c:291-297 | the owed payload bytes complete the record, and the rest of the read starts a new header |
| Scenarios.OffsetThenPartialSize | ursparseness.c:221-243 | a read ending inside the size reports only the size phase's bytes, not the offset's |
| Scenarios.SizeReadAgain | ursparseness.c:229-255 | the size's bytes handed back a second time end the size at once and fail at the terminator |
| Scenarios.SecondRead | ursparseness.c:241-243 | the read's last bytes, as many as the offset took, are parsed again and the decode fails |
| Scenarios.SizeDigitsReadTwice | ursparseness.c:236-243 | "12 34" in one read reports 3 bytes rather than 5, so the driver parses the size's digits "34" again and the size becomes 3434 |
| Scenarios.ReadBoundariesMatter | ursparseness.c:338-348 | the example stream decodes with 0 in one read and with 4 in three reads |
| Scenarios.TrailingHoleLost | ursparseness.c:155-164 | a data byte followed by a hole decodes with code 0 to that one byte and nothing else: the trailing hole is lost |
| Scenarios.HeaderAloneFails | ursparseness.c:277-282 | a header whose newline ends the read asks for zero payload bytes and fails with 4 |
| Scenarios.EmptyRecordFails | ursparseness.c:126-129 | a record of length zero fails with 4 |
| Scenarios.TruncatedStreamAccepted | ursparseness.c:336-353 | a stream that ends inside a payload still decodes with 0, the parser left in MEAT owing bytes |
| Scenarios.MalformedSizeFails | ursparseness.c:229-234 | a size that is not a number fails with 4 before anything is written |

## Left out

- `main`, `usage`, option parsing, `atoi` of the block size and its check: command-line glue. The block size only shapes the reads, and the decoder takes those as given blocks.
- `byte_from_char`, `byte_from_hex` and the hole-byte option: `do_sparse_data` never reads the hole byte.
- Real system calls. `read`, `write`, `lseek`, `copy_file_range`, `dprintf` and `malloc` become the abstract effects described above. Errno values other than ENXIO are not modelled: a seek in the extent scan never fails otherwise, and a read never fails (the driver's code 3).
- The decoder's allocation failure (code 2).
- Null-pointer checks of the C functions (returns -1, -3, -4): sequences have no null. The zero-length checks (-2) are kept.
- The `default: return -6` branch of the parser: the state is a datatype with no other value.
- Diagnostics printed to stderr.
- Fixed-width integers: numbers are unbounded. `off_t` overflow while accumulating digits, and the `size_t` to `int` truncation of the returned counts, are not modelled.
- On a negative return the parser's count is 0 in the model. The C leaves `*out_sz` stale, and the driver never reads it then.
- `parse_ursparse` and `do_meat` write and seek on descriptor 1 rather than on `fd_out`. The model has one output file, which is what `main` passes.
- Output.DoMeat: `write` may return short counts, which the loop retries. The model writes everything that fits below the limit, then fails with -4 if anything is left; how the bytes were split across calls is not modelled.
- Encoder.DoSparseData: a `dprintf` that prints fewer than four characters (-1) is not modelled; the header is always written.
- `copy_file_range` errors: which extents fail is an input (the sink's failing offsets), not derived from disk space or descriptor flags, and the errno itself is not modelled.
- Encoder.CopyBytes: a short count from `copy_file_range` other than the MAX_RW_COUNT and end-of-file limits is not modelled.
- Encoder.RoundTrip: proved for an encoding read in one piece, and for files whose maximal data runs each fit one copy; a longer run is copied short (`Encoder.LongExtentShortPayload`). Other read boundaries can fail, as `Scenarios.ReadBoundariesMatter` shows, so no general statement holds.
- Encoder.RoundTrip: the output's length is not modelled (`Output.File` has no size), and a hole at the end of the input is not restored, since the text carries no file size (`Scenarios.TrailingHoleLost`). The lemma promises which offsets hold which bytes and which hold none, not the length of the decoded file.
- Encoder.Encoding: the text function has no contract of its own; `Encoder.EncodingAppend`, `Encoder.EncodingStep` and `Encoder.DoSparse` state what it is.
- Extents.Listing: the listing function has no contract of its own; `Extents.ListingStep` and `Extents.DoMap` state what it is.
- Extents.ExtentsFrom: the scan function has no contract of its own; the `Extents` lemmas state what it computes.
