# CycFilt FASTQ quality and length filter, modelled in Dafny

CycFilt reads FASTQ records (header, sequence, plus line and quality line)
and keeps those whose quality value meets a minimum and whose sequence meets a
minimum length. The quality value is embedded in the header: it is the text
after the header's last `_`, parsed as a float. The kept records go to a
gzip-compressed output. Two counters are printed at the end.

The repository holds three releases of the filter, and each is modelled:

- `src/v0.1.0.rs` is one sequential loop. It checks the `@` header, and
  reads each record's four lines strictly: a stream that ends inside a record
  makes `unwrap()` panic. `total_reads` counts every record, and
  `filtered_reads` counts every record not written.
- `src/v1.0.0.rs` has a reader that checks the `@` and worker threads that
  test and write records. A missing trailing line reads as empty text.
  `total_reads` counts only the records handed to a worker.
- `src/main.rs` has a reader that tests each record (there is no `@` check),
  workers that test each forwarded record again, and an async writer task.
  `filtered_reads` counts the records that pass. The writer emits a record as
  three lines: the header runs straight into the sequence.

The model is layered:

- `text.dfy` covers bytes, lines, `split('_')`, `slice::last` and the line
  reader.
- `records.dfy` covers records, the two ways of framing lines into records,
  and order-keeping selection.
- `quality.dfy` covers `get_quality_value` and the per-record tests. This
  function is identical in all three releases.
- `sink.dfy` covers the writer, the atomic counters and both output formats.
- `filter_v010.dfy`, `filter_v100.dfy` and `filter_main.dfy` model one
  release each.

In each release file:

- a function `Spec` states what a whole run produces: output bytes and
  counters;
- a method `FilterFastq` runs the release's loops, imperatively, over a
  writer object and counters;
- `FilterFastq` is proved to produce exactly `Spec`;
- lemmas prove what `Spec` implies: accounting identities, input order,
  re-filtering and the line count of the output.

Parsing a float and comparing floats are parameters of the model: `parse`
and `atLeast` in `Quality.Thresholds`. Every result therefore holds for any
parser and comparison, NaN behaviour included.

## Model

| member | source | states |
|---|---|---|
| Quality.GetQualityValue | src/v0.1.0.rs:76-83 | the result is the parse of the text after the header's last `_` (the whole header when it has none), it is an error exactly when that parse fails, and the error is never "No underscore found" |
| Text.LastOfSplit | src/v0.1.0.rs:77-78 | `split('_')` always has a last piece, and that piece is the text after the last `_` |
| Text.LastSegment | src/main.rs:135-137 | the quality token holds no `_` and is no longer than the header |
| Text.LastSegmentSuffix | src/v1.0.0.rs:123-125 | the quality token is a suffix of the header that is either the whole header or preceded by `_`, so it is the longest `_`-free suffix |
| Text.SegmentOfTail | src/v0.1.0.rs:77-78 | the text after the last `_` does not change when a prefix ending in `_` is dropped |
| Text.SegmentOfSepFree | src/v0.1.0.rs:77-79 | a header without `_` is its own quality token |
| Text.SplitOnJoin | src/v0.1.0.rs:77 | `split('_')` loses nothing: joining its pieces with `_` gives the header back, and no piece holds `_` |
| Text.IndexOf | src/v0.1.0.rs:77 | the position found is the first occurrence of the byte, or the length when the byte does not occur |
| Text.SplitOn | src/v0.1.0.rs:77 | `split` yields at least one piece |
| Text.SplitLines | src/v0.1.0.rs:26 | every line the line reader yields is free of newlines |
| Text.StripCR | src/v1.0.0.rs:86 | on a newline-terminated line, the line reader drops exactly one final `\r` when there is one and changes nothing otherwise, and the line stays newline-free |
| Text.StripEachAt | src/v1.0.0.rs:86 | each line read back is the written line, less its final `\r` when it ends in one |
| Text.StripEachVerbatim | src/v1.0.0.rs:86 | lines that do not end in `\r` lose nothing when read back |
| Text.SplitLinesTerminated | src/v0.1.0.rs:26 | newline-terminated lines are read back one for one, each less a final `\r`, whatever follows them |
| Text.AppendLine | src/v0.1.0.rs:52-53 | writing a line and then a newline extends the output by that line's terminated form |
| Records.Flatten | src/v0.1.0.rs:30-33 | a run of records has four lines per record |
| Records.FrameComplete | src/v0.1.0.rs:30-33 | strict framing yields one record per complete group of four lines |
| Records.FramePadded | src/v1.0.0.rs:88-91 | padded framing yields one record per started group of four lines |
| Records.FrameCompleteFlatten | src/v0.1.0.rs:30-33 | the records read by strict framing hold exactly the input lines of the complete groups, in order |
| Records.FlattenFrame | src/v0.1.0.rs:30-33 | framing the lines of whole records gives back those records |
| Records.FrameCompletePrefix | src/v0.1.0.rs:30-33 | strict framing ignores the lines of an incomplete final group |
| Records.FramePaddedLines | src/v1.0.0.rs:88-91 | padded framing reads line i as input line i, or as empty text past the end of input |
| Records.FramePaddedComplete | src/main.rs:100-103 | on whole groups of four, padded framing and strict framing agree |
| Records.FrameCompleteFields | src/v0.1.0.rs:30-33 | the fields of records framed strictly are input lines, so they keep any property every input line has |
| Records.FramePaddedFields | src/v1.0.0.rs:88-91 | the fields of records framed with padding are input lines or empty text, so they keep any property those all have |
| Records.FrameCompleteAt | src/v0.1.0.rs:30-33 | strict framing from line i is the record at lines i to i+3, followed by framing from line i+4 |
| Records.FramePaddedAt | src/main.rs:100-103 | padded framing from line i is the padded record at i, followed by framing from the next header |
| Records.Filter | src/v0.1.0.rs:30-67 | selecting records never yields more than it is given |
| Records.FilterSound | src/v0.1.0.rs:51-59 | every selected record was in the input and passes the test |
| Records.FilterKeepsAll | src/v0.1.0.rs:51-59 | when every record passes, selection returns the input unchanged |
| Records.FilterComplete | src/v0.1.0.rs:30-67 | every record that passes the test is selected (with FilterSound: selected exactly when it passes) |
| Records.FilterAppend | src/v0.1.0.rs:30-67 | selection keeps input order: selecting from two runs of records joined is selecting from each and joining |
| Records.FilterIdempotent | src/main.rs:88-89 | selecting twice by the same test selects once |
| Records.FilterMonotone | src/v1.0.0.rs:96-101 | a stricter test selects no more records |
| Records.FilterAgree | src/main.rs:118-121 | two tests that agree on every record select the same records |
| Sink.Writer.WriteAll | src/v0.1.0.rs:52 | `write_all` appends its bytes to the output and does nothing else |
| Sink.Counter.FetchAdd | src/v1.0.0.rs:57 | `fetch_add` returns the old value and adds to it |
| Sink.WriteRecord | src/v0.1.0.rs:52-59 | the eight writes append the record as four newline-terminated lines |
| Sink.ReadBackSerialized | src/v1.0.0.rs:70-77 | when no line ends in `\r`, the four-line output reads back as exactly the kept records' lines, in order |
| Sink.JoinedLine | src/main.rs:20-21 | header and sequence written with nothing between them form one line, which ends in `\r` only if one of the two does |
| Sink.ReadBackJoined | src/main.rs:20-26 | when no line ends in `\r`, `async_write`'s output reads back as three lines per record: header and sequence joined, then plus, then quality |
| Sink.JoinedLineCount | src/main.rs:20-26 | whatever the lines end in, `async_write`'s output reads back as three lines per record |
| Sink.JoinedLines | src/main.rs:20-26 | the three-line form has three lines per record |
| Sink.SerializeAllCons | src/v0.1.0.rs:52-59 | writing one more record extends the output by that record's serialisation |
| Sink.SerializeAllJoinedCons | src/main.rs:18-26 | writing one more record in the three-line form extends the output by that record's serialisation |
| FilterV010.FilterFastq | src/v0.1.0.rs:26-67 | the run's outcome is `Spec`; it panics exactly when the line count is not a multiple of four; otherwise `total_reads` is the number of records, and kept plus `filtered_reads` equals `total_reads` |
| FilterV010.ProgressStep | src/v0.1.0.rs:35-66 | handling one record (written iff it passes the `@` and threshold tests, counted as filtered otherwise) keeps the loop's invariant |
| FilterV010.RefilterKeepsAll | src/v0.1.0.rs:30-67 | when no input line ends in `\r`, filtering the output again with the same thresholds writes the same bytes and filters nothing |
| FilterV010.SpecOfOneRecord | src/v0.1.0.rs:30-66 | a run on one record writes its four lines when it is kept, and otherwise writes nothing and counts it as filtered |
| FilterV010.CRRecordReadBack | src/v0.1.0.rs:26 | the written record with sequence `ACGT\r` reads back with the sequence `ACGT` |
| FilterV010.RefilterDropsCRSequence | src/v0.1.0.rs:26-66 | with a minimum length of 5 and every quality accepted, the record with sequence `ACGT\r` is written, and filtering the output again writes nothing and filters it |
| FilterV010.PanicKeepsCompleteRecords | src/v0.1.0.rs:30-33 | a truncated final record leaves the output of the records before it unchanged |
| FilterV100.WorkerStep | src/v1.0.0.rs:56-81 | the worker counts the record in `total_reads`, then either appends the record's four lines (thresholds met) or counts it as filtered, and never both |
| FilterV100.JudgeRecord | src/v1.0.0.rs:59-80 | a record is written exactly when its quality parses and meets both thresholds; otherwise `filtered_reads` grows by one |
| FilterV100.ProgressStep | src/v1.0.0.rs:88-101 | handling one padded record (forwarded iff it has an `@` header) keeps the loop's invariant |
| FilterV100.FilterFastq | src/v1.0.0.rs:86-114 | the run's result is `Spec`; `total_reads` counts the `@` records; kept plus `filtered_reads` equals `total_reads` plus the non-`@` records |
| FilterV100.AgreesWithV010 | src/v1.0.0.rs:96-101 | on whole records, release 1.0.0 writes what release 0.1.0 writes and filters the same records; only `total_reads` leaves out the non-`@` records |
| FilterV100.RefilterKeepsAll | src/v1.0.0.rs:68-80 | when no input line ends in `\r`, filtering the output again with the same thresholds writes the same bytes and filters nothing |
| FilterMain.ReaderLoop | src/main.rs:100-122 | the reader sends exactly the passing records, in order; `total_reads` counts every framed record; `filtered_reads` counts the sent ones and is at most `total_reads` |
| FilterMain.ReaderStep | src/main.rs:105-121 | counting one record, and sending it iff it passes, keeps the reader loop's invariant |
| FilterMain.PassesFilters | src/main.rs:110-118 | the test passes exactly when the quality parses and meets both thresholds |
| FilterMain.Worker | src/main.rs:79-90 | the workers pass on exactly the received records that pass the test, in order |
| FilterMain.RecheckStep | src/main.rs:80-89 | handling one received record keeps the worker loop's invariant |
| FilterMain.AsyncWrite | src/main.rs:18-27 | the writer task appends every received record in the three-line form, in order |
| FilterMain.WriteJoinedRecord | src/main.rs:19-26 | the seven writes append header and sequence with no newline between them, then plus and quality, each of the three lines newline-terminated |
| FilterMain.FilterFastq | src/main.rs:95-131 | the run's result is `Spec`, and `filtered_reads` (records passing) is at most `total_reads` |
| FilterMain.WorkerRecheckPasses | src/main.rs:88-89 | the worker's re-check passes every record the reader sends |
| FilterMain.OutputLineCount | src/main.rs:20-26 | the output reads back as three lines per passing record |
| FilterMain.OutputReadsBack | src/main.rs:18-26 | when no input line ends in `\r`, the output reads back as each passing record's header and sequence joined, its plus line and its quality line |
| FilterMain.OutputNotRecordAligned | src/main.rs:20-26 | when the passing count is not a multiple of four, release 0.1.0 panics on truncation if run on this output |
| FilterMain.AgreesWithV100OnAtHeaders | src/main.rs:118-121 | when every header starts with `@`, this release passes the same records, in the same order, as release 1.0.0 writes |

## Left out

- Threads, channels, the barrier, `Arc`/`Mutex` and atomics are not modelled. The worker steps of release 1.0.0 and the stages of the current release run one after another, in input order. With several workers, the real output order and the order of writes can differ; the counters cannot.
- In `src/main.rs` the spawned writer task is never awaited, so the real program may exit before the writer task has written everything or finished the gzip stream. The model runs the writer task to completion.
- Gzip detection, decompression and compression are not modelled, and neither is `finish`/`try_finish`. The output is the byte stream handed to the encoder. In release 0.1.0 the encoder is finished when it is dropped during the panic, so the output of a panicking run is the bytes written before the panic.
- With `num_threads` equal to 0, releases 1.0.0 and current make a channel of capacity 0 (src/v1.0.0.rs:43, src/main.rs:64) and spawn no worker, so the first `send` (src/v1.0.0.rs:97, src/main.rs:120) blocks forever and the run never ends. The model assumes at least one worker and returns a report for these inputs.
- An input file shorter than two bytes makes `read_exact` panic before the output file is created (src/v0.1.0.rs:16, src/v1.0.0.rs:27-30, src/main.rs:49). The model's empty line sequence stands only for a stream that decodes to no lines.
- File opening, reading and creating are not modelled. The input is the sequence of lines the line reader yields. An I/O error or invalid UTF-8 would end the `while let` loop or make `expect` panic; these are not modelled either.
- FilterV010.RefilterKeepsAll, FilterV100.RefilterKeepsAll: the round trip is promised only when no input line ends in `\r`. The program reads its input with `BufRead::lines`, which drops one `\r` before each newline. So a line that still ends in `\r` (read from `\r\r\n`) is written with its `\r`, and the second run's reader drops it. For example, a sequence `ACGT\r` of length 5 that met a minimum length of 5 reads back as `ACGT`, and the second run filters it; FilterV010.RefilterDropsCRSequence proves this. FilterMain.OutputReadsBack carries the same condition; FilterMain.OutputLineCount does not need it.
- `str::parse::<f64>` and the float `>=` are not modelled; they are the `parse` and `atLeast` parameters. The comparison of a NaN is therefore whatever `atLeast` says.
- `min_length` is a `usize` and the model uses an unbounded natural number. Sequence lengths never approach the 64-bit limit.
- In releases 0.1.0 and current the counters have no type annotation, so they are `i32`, Rust's default integer type (src/v0.1.0.rs:27-28, src/main.rs:95-96). Past 2^31 − 1 records, a debug build panics on overflow and a release build prints a negative count. The `AtomicUsize` counters of release 1.0.0 (src/v1.0.0.rs:45-46) wrap at 2^64. The model's counters are unbounded naturals, and none of this is modelled.
- The `eprintln!`/`println!` diagnostics, command-line parsing and `main` are not modelled. The run's printed counters are the `total` and `filtered` fields of the report.
- `scripts/CycFqFilter.py` is not part of this model.
- The code has no adapter trimming, no batches and no chunk merging, so none of these are modelled.
- A missing line in a record does not always abort the run. Only release 0.1.0 aborts (it panics). Releases 1.0.0 and current read the missing lines as empty text, and the model follows that code.
- The float parse does not tolerate trailing whitespace: it is exactly `parse` applied to the token. A header without `_` is not an error: its whole text is parsed.
- The current release writes each record as three lines, not four. A quality parse failure there is counted in `total_reads` but not as filtered, and its `filtered_reads` counts passing records. The model keeps all of this as written.
