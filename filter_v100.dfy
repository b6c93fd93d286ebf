/**
 * Release 1.0.0 of the filter, run one record at a time: the reader drops
 * records whose header lacks a leading `@` (counting them as filtered) and
 * hands the others to a worker, which counts each in `total_reads` and then
 * either writes it or counts it as filtered. A missing trailing line reads
 * as empty text.
 */
module FilterV100 {
  import opened Text
  import opened Records
  import opened Quality
  import opened Sink
  import FilterV010

  /** The records the reader hands to a worker. */
  function Forwarded(recs: seq<Record>): seq<Record> {
    Filter(recs, HasAtHeader)
  }

  /**
   * What a run on `lines` produces: the kept records' bytes, one `total_reads`
   * per forwarded record, one `filtered_reads` per record not written.
   */
  function Spec<Q>(t: Thresholds<Q>, lines: seq<Line>): Report {
    var recs := FramePadded(lines);
    var kept := Kept(t, true, recs);
    Report(SerializeAll(kept), |Forwarded(recs)|, |recs| - |kept|)
  }

  /**
   * The worker's handling of one received record: count it in `total_reads`,
   * then judge it.
   */
  method WorkerStep<Q>(t: Thresholds<Q>, rec: Record, writer: Writer, totalReads: Counter, filteredReads: Counter)
    requires totalReads != filteredReads
    modifies writer, totalReads, filteredReads
    ensures totalReads.value == old(totalReads.value) + 1
    ensures MeetsThresholds(t, rec) ==>
      writer.written == old(writer.written) + SerializeRecord(rec) && filteredReads.value == old(filteredReads.value)
    ensures !MeetsThresholds(t, rec) ==>
      writer.written == old(writer.written) && filteredReads.value == old(filteredReads.value) + 1
  {
    var _ := totalReads.FetchAdd(1);
    JudgeRecord(t, rec, writer, filteredReads);
  }

  /**
   * The worker's quality and length test: a record whose quality parses and
   * meets both thresholds is written (under the writer's lock); any other is
   * counted in `filtered_reads`.
   */
  method JudgeRecord<Q>(t: Thresholds<Q>, rec: Record, writer: Writer, filteredReads: Counter)
    modifies writer, filteredReads
    ensures MeetsThresholds(t, rec) ==>
      writer.written == old(writer.written) + SerializeRecord(rec) && filteredReads.value == old(filteredReads.value)
    ensures !MeetsThresholds(t, rec) ==>
      writer.written == old(writer.written) && filteredReads.value == old(filteredReads.value) + 1
  {
    match GetQualityValue(rec.header, t.parse)
    case Err(_) =>
      var _ := filteredReads.FetchAdd(1);
    case Ok(qualityValue) =>
      if t.atLeast(qualityValue, t.minQuality) && |rec.sequence| >= t.minLength {
        WriteRecord(writer, rec);
      } else {
        var _ := filteredReads.FetchAdd(1);
      }
  }

  /**
   * The loop's state after the records before line `i`: output and counters,
   * each completed by what the rest of the input would add, give the run's.
   */
  ghost predicate Progress<Q>(t: Thresholds<Q>, lines: seq<Line>, i: nat,
                              written: seq<Byte>, total: nat, filtered: nat)
    requires i <= |lines|
  {
    var recs, rest := FramePadded(lines), FramePadded(lines[i..]);
    && written + SerializeAll(Kept(t, true, rest)) == SerializeAll(Kept(t, true, recs))
    && total + |Forwarded(rest)| == |Forwarded(recs)|
    && filtered + (|rest| - |Kept(t, true, rest)|) == |recs| - |Kept(t, true, recs)|
  }

  /** Handling the record at line `i` as the reader and worker do keeps Progress. */
  lemma ProgressStep<Q>(t: Thresholds<Q>, lines: seq<Line>, i: nat,
                        written: seq<Byte>, total: nat, filtered: nat,
                        written': seq<Byte>, total': nat, filtered': nat)
    requires i < |lines|
    requires Progress(t, lines, i, written, total, filtered)
    requires var rec := RecordAt(lines, i);
      && total' == total + (if HasAtHeader(rec) then 1 else 0)
      && (Keeps(t, true, rec) ==> written' == written + SerializeRecord(rec) && filtered' == filtered)
      && (!Keeps(t, true, rec) ==> written' == written && filtered' == filtered + 1)
    ensures Progress(t, lines, NextHeader(lines, i), written', total', filtered')
  {
    var rec := RecordAt(lines, i);
    var rest := FramePadded(lines[NextHeader(lines, i)..]);
    FramePaddedAt(lines, i);
    FilterCons(rec, rest, KeepRule(t, true));
    FilterCons(rec, rest, HasAtHeader);
    assert KeepRule(t, true)(rec) == Keeps(t, true, rec);
    if Keeps(t, true, rec) {
      assert Kept(t, true, FramePadded(lines[i..])) == [rec] + Kept(t, true, rest);
      SerializeAllCons(written, rec, Kept(t, true, rest));
    } else {
      assert Kept(t, true, FramePadded(lines[i..])) == Kept(t, true, rest);
    }
  }

  /**
   * `filter_fastq_by_quality_and_length` with its reader loop and the
   * workers' steps run in input order; the output is the bytes given to the
   * encoder.
   */
  method FilterFastq<Q>(t: Thresholds<Q>, lines: seq<Line>) returns (report: Report)
    ensures report == Spec(t, lines)
    ensures report.total == |Forwarded(FramePadded(lines))|
    ensures |Kept(t, true, FramePadded(lines))| + report.filtered
      == report.total + (|FramePadded(lines)| - |Forwarded(FramePadded(lines))|)
  {
    var writer := new Writer();
    var totalReads := new Counter();
    var filteredReads := new Counter();
    var i := 0;
    while i < |lines|
      invariant i <= |lines|
      invariant Progress(t, lines, i, writer.written, totalReads.value, filteredReads.value)
    {
      // `while let Some(Ok(header))`, then three `lines.next().unwrap_or(Ok(String::new()))`
      var header := lines[i];
      var sequence, plus, quality := LineOrEmpty(lines, i + 1), LineOrEmpty(lines, i + 2), LineOrEmpty(lines, i + 3);
      var rec := Record(header, sequence, plus, quality);
      ghost var written, total, filtered := writer.written, totalReads.value, filteredReads.value;

      if |header| > 0 && header[0] == AT {
        WorkerStep(t, rec, writer, totalReads, filteredReads);
      } else {
        var _ := filteredReads.FetchAdd(1);
      }
      ProgressStep(t, lines, i, written, total, filtered, writer.written, totalReads.value, filteredReads.value);
      i := NextHeader(lines, i);
    }
    assert lines[i..] == [];
    FilterSound(FramePadded(lines), KeepRule(t, true));
    FilterMonotone(FramePadded(lines), KeepRule(t, true), HasAtHeader);
    report := Report(writer.written, totalReads.value, filteredReads.value);
  }

  /**
   * On input of whole records, this release writes what release 0.1.0
   * writes and counts the same filtered records; its `total_reads` leaves
   * out the records whose header lacks the `@`.
   */
  lemma AgreesWithV010<Q>(t: Thresholds<Q>, lines: seq<Line>)
    requires |lines| % 4 == 0
    ensures var recs := FrameComplete(lines);
      FilterV010.Spec(t, lines)
        == FilterV010.Finished(Report(Spec(t, lines).output,
                                      Spec(t, lines).total + (|recs| - |Forwarded(recs)|),
                                      Spec(t, lines).filtered))
  {
    FramePaddedComplete(lines);
  }

  /**
   * Filtering this release's output again, with the same thresholds, keeps
   * every record and filters none, provided no input line ends in `\r`
   * (the line reader would drop it when it reads the output back).
   */
  lemma RefilterKeepsAll<Q>(t: Thresholds<Q>, lines: seq<Line>)
    requires AllVerbatim(lines)
    ensures var out := Spec(t, lines).output;
      Spec(t, SplitLines(out)) == Report(out, |Kept(t, true, FramePadded(lines))|, 0)
  {
    var kept := Kept(t, true, FramePadded(lines));
    FramePaddedFields(lines, Verbatim);
    FilterSound(FramePadded(lines), KeepRule(t, true));
    ReadBackSerialized(kept);
    FlattenFrame(kept);
    FramePaddedComplete(Flatten(kept));
    FilterKeepsAll(kept, KeepRule(t, true));
    FilterKeepsAll(kept, HasAtHeader);
  }
}
