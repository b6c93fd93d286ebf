/**
 * The current release of the filter, run one stage at a time: the reader
 * frames records (a missing trailing line reads as empty text), counts each,
 * and forwards those that pass the quality and length test; a worker tests
 * each forwarded record again and hands it on; the writer task emits each
 * record as three lines, its header running straight into its sequence.
 * Here `filtered_reads` counts the records that pass, not those dropped.
 */
module FilterMain {
  import opened Text
  import opened Records
  import opened Quality
  import opened Sink
  import FilterV010

  /**
   * What a run on `lines` produces: the passing records in the writer's
   * three-line form, one `total_reads` per framed record, one
   * `filtered_reads` per passing record.
   */
  function Spec<Q>(t: Thresholds<Q>, lines: seq<Line>): Report {
    var recs := FramePadded(lines);
    var passing := Kept(t, false, recs);
    Report(SerializeAllJoined(passing), |recs|, |passing|)
  }

  /** The reader loop's state before line `i`, completed by what the rest of the input adds. */
  ghost predicate ReaderProgress<Q>(t: Thresholds<Q>, lines: seq<Line>, i: nat,
                                    sent: seq<Record>, total: nat, passing: nat)
    requires i <= |lines|
  {
    var recs, rest := FramePadded(lines), FramePadded(lines[i..]);
    && sent + Kept(t, false, rest) == Kept(t, false, recs)
    && total + |rest| == |recs|
    && passing == |sent|
  }

  /** Handling the record at line `i` (counted, and sent iff it passes) keeps ReaderProgress. */
  lemma ReaderStep<Q>(t: Thresholds<Q>, lines: seq<Line>, i: nat,
                      sent: seq<Record>, total: nat, passing: nat,
                      sent': seq<Record>, passing': nat)
    requires i < |lines|
    requires ReaderProgress(t, lines, i, sent, total, passing)
    requires var rec := RecordAt(lines, i);
      && (MeetsThresholds(t, rec) ==> sent' == sent + [rec] && passing' == passing + 1)
      && (!MeetsThresholds(t, rec) ==> sent' == sent && passing' == passing)
    ensures ReaderProgress(t, lines, NextHeader(lines, i), sent', total + 1, passing')
  {
    var rec := RecordAt(lines, i);
    var rest := FramePadded(lines[NextHeader(lines, i)..]);
    FramePaddedAt(lines, i);
    FilterCons(rec, rest, KeepRule(t, false));
    assert KeepRule(t, false)(rec) == MeetsThresholds(t, rec);
    if MeetsThresholds(t, rec) {
      assert Kept(t, false, FramePadded(lines[i..])) == [rec] + Kept(t, false, rest);
      ConcatAssoc(sent, [rec], Kept(t, false, rest));
    } else {
      assert Kept(t, false, FramePadded(lines[i..])) == Kept(t, false, rest);
    }
  }

  /**
   * The reader loop: every framed record counts in `total_reads`; a record
   * whose quality does not parse is skipped; one that meets both thresholds
   * counts in `filtered_reads` and is sent to the workers.
   */
  method ReaderLoop<Q>(t: Thresholds<Q>, lines: seq<Line>) returns (sent: seq<Record>, totalReads: nat, filteredReads: nat)
    ensures sent == Kept(t, false, FramePadded(lines))
    ensures totalReads == |FramePadded(lines)|
    ensures filteredReads == |sent| <= totalReads
  {
    sent, totalReads, filteredReads := [], 0, 0;
    var i := 0;
    while i < |lines|
      invariant i <= |lines|
      invariant ReaderProgress(t, lines, i, sent, totalReads, filteredReads)
    {
      // `while let Some(Ok(header))`, then three `lines.next().unwrap_or(Ok(String::new()))`
      var header := lines[i];
      var sequence, plus, quality := LineOrEmpty(lines, i + 1), LineOrEmpty(lines, i + 2), LineOrEmpty(lines, i + 3);
      var rec := Record(header, sequence, plus, quality);
      ghost var sentBefore, passingBefore := sent, filteredReads;
      ghost var total := totalReads;
      totalReads := totalReads + 1;
      var pass := PassesFilters(t, rec);
      if pass {
        filteredReads := filteredReads + 1;
        sent := sent + [rec];
      }
      ReaderStep(t, lines, i, sentBefore, total, passingBefore, sent, filteredReads);
      i := NextHeader(lines, i);
    }
    assert lines[i..] == [];
  }

  /**
   * The test the reader applies and each worker applies again: the quality
   * parses (a parse failure means `continue`) and meets both thresholds.
   */
  method PassesFilters<Q>(t: Thresholds<Q>, rec: Record) returns (pass: bool)
    ensures pass <==> MeetsThresholds(t, rec)
  {
    match GetQualityValue(rec.header, t.parse) {
      case Err(_) =>
        pass := false;
      case Ok(qualityValue) =>
        pass := t.atLeast(qualityValue, t.minQuality) && |rec.sequence| >= t.minLength;
    }
  }

  /**
   * The workers' loop over the received records: a record that passes the
   * test is passed on to the writer task, in order; any other is dropped.
   */
  method Worker<Q>(t: Thresholds<Q>, received: seq<Record>) returns (forwarded: seq<Record>)
    ensures forwarded == Kept(t, false, received)
  {
    forwarded := [];
    var i := 0;
    while i < |received|
      invariant i <= |received|
      invariant forwarded + Kept(t, false, received[i..]) == Kept(t, false, received)
    {
      var rec := received[i];
      ghost var before := forwarded;
      var pass := PassesFilters(t, rec);
      if pass {
        forwarded := forwarded + [rec];
      }
      RecheckStep(t, received, i, before, forwarded);
      i := i + 1;
    }
    assert received[i..] == [];
  }

  /** Handling the received record at `i` (passed on iff it passes) keeps the worker's invariant. */
  lemma RecheckStep<Q>(t: Thresholds<Q>, received: seq<Record>, i: nat,
                       forwarded: seq<Record>, forwarded': seq<Record>)
    requires i < |received|
    requires forwarded + Kept(t, false, received[i..]) == Kept(t, false, received)
    requires MeetsThresholds(t, received[i]) ==> forwarded' == forwarded + [received[i]]
    requires !MeetsThresholds(t, received[i]) ==> forwarded' == forwarded
    ensures forwarded' + Kept(t, false, received[i + 1..]) == Kept(t, false, received)
  {
    var rec := received[i];
    assert received[i..] == [rec] + received[i + 1..];
    FilterCons(rec, received[i + 1..], KeepRule(t, false));
    assert KeepRule(t, false)(rec) == MeetsThresholds(t, rec);
    if MeetsThresholds(t, rec) {
      ConcatAssoc(forwarded, [rec], Kept(t, false, received[i + 1..]));
    }
  }

  /**
   * `async_write`'s loop: under the writer's lock, each received record is
   * written as header and sequence together, then plus, then quality, each
   * of the three followed by a newline.
   */
  method AsyncWrite(w: Writer, received: seq<Record>)
    modifies w
    ensures w.written == old(w.written) + SerializeAllJoined(received)
  {
    var i := 0;
    while i < |received|
      invariant i <= |received|
      invariant w.written + SerializeAllJoined(received[i..]) == old(w.written) + SerializeAllJoined(received)
    {
      var rec := received[i];
      ghost var before := w.written;
      assert received[i..] == [rec] + received[i + 1..];
      WriteJoinedRecord(w, rec);
      SerializeAllJoinedCons(before, rec, received[i + 1..]);
      i := i + 1;
    }
    assert received[i..] == [];
  }

  /** The seven `write_all` calls that emit one received record. */
  method WriteJoinedRecord(w: Writer, r: Record)
    modifies w
    ensures w.written == old(w.written) + SerializeJoinedRecord(r)
  {
    ghost var start := w.written;
    assert JoinedFields(r) == [r.header + r.sequence] + [r.plus, r.quality];
    assert [r.plus, r.quality] == [r.plus] + [r.quality];
    assert [r.quality] == [r.quality] + [];
    w.WriteAll(r.header);
    w.WriteAll(r.sequence);
    w.WriteAll([NEWLINE]);
    assert w.written == start + (r.header + r.sequence) + [NEWLINE];
    AppendLine(start, r.header + r.sequence, [r.plus, r.quality]);
    ghost var mark := w.written;
    w.WriteAll(r.plus);
    w.WriteAll([NEWLINE]);
    AppendLine(mark, r.plus, [r.quality]);
    mark := w.written;
    w.WriteAll(r.quality);
    w.WriteAll([NEWLINE]);
    AppendLine(mark, r.quality, []);
    assert w.written + Terminated([]) == w.written;
  }

  /**
   * `filter_fastq_by_quality_and_length` with its three stages run one after
   * the other: the reader's sends, the workers' re-test, the writer task.
   */
  method FilterFastq<Q>(t: Thresholds<Q>, lines: seq<Line>) returns (report: Report)
    ensures report == Spec(t, lines)
    ensures report.total == |FramePadded(lines)|
    ensures report.filtered <= report.total
  {
    var writer := new Writer();
    var sent, totalReads, filteredReads := ReaderLoop(t, lines);
    var forwarded := Worker(t, sent);
    WorkerRecheckPasses(t, lines);
    AsyncWrite(writer, forwarded);
    report := Report(writer.written, totalReads, filteredReads);
  }

  /**
   * The workers' test is the reader's test again, so it passes every record
   * the reader sends: the writer receives exactly the passing records.
   */
  lemma WorkerRecheckPasses<Q>(t: Thresholds<Q>, lines: seq<Line>)
    ensures var sent := Kept(t, false, FramePadded(lines));
      Kept(t, false, sent) == sent
  {
    FilterIdempotent(FramePadded(lines), KeepRule(t, false));
  }

  /**
   * The output reads back as three lines per passing record, not the four
   * lines of its input.
   */
  lemma OutputLineCount<Q>(t: Thresholds<Q>, lines: seq<Line>)
    requires AllLines(lines)
    ensures |SplitLines(Spec(t, lines).output)| == 3 * Spec(t, lines).filtered
  {
    FramePaddedFields(lines, IsLine);
    FilterSound(FramePadded(lines), KeepRule(t, false));
    JoinedLineCount(Kept(t, false, FramePadded(lines)));
  }

  /**
   * When no input line ends in `\r`, the three lines read back are each
   * passing record's header and sequence joined, its plus line and its
   * quality line.
   */
  lemma OutputReadsBack<Q>(t: Thresholds<Q>, lines: seq<Line>)
    requires AllVerbatim(lines)
    ensures SplitLines(Spec(t, lines).output) == JoinedLines(Kept(t, false, FramePadded(lines)))
  {
    FramePaddedFields(lines, Verbatim);
    FilterSound(FramePadded(lines), KeepRule(t, false));
    ReadBackJoined(Kept(t, false, FramePadded(lines)));
  }

  /**
   * Because each record becomes three lines, the output does not frame as
   * whole FASTQ records unless the passing count is a multiple of four:
   * otherwise release 0.1.0, run on it, ends in its truncation panic.
   */
  lemma OutputNotRecordAligned<Q, R>(t: Thresholds<Q>, u: Thresholds<R>, lines: seq<Line>)
    requires AllLines(lines)
    requires Spec(t, lines).filtered % 4 != 0
    ensures FilterV010.Spec(u, SplitLines(Spec(t, lines).output)).Panicked?
  {
    OutputLineCount(t, lines);
    NotMultipleOfFour(Spec(t, lines).filtered);
  }

  /** Arithmetic step of OutputNotRecordAligned: three lines per record do not make whole groups of four. */
  lemma NotMultipleOfFour(n: nat)
    requires n % 4 != 0
    ensures (3 * n) % 4 != 0
  {
    var q := n / 4;
    if n % 4 == 1 {
      assert 3 * n == 4 * (3 * q) + 3;
    } else if n % 4 == 2 {
      assert 3 * n == 4 * (3 * q + 1) + 2;
    } else {
      assert 3 * n == 4 * (3 * q + 2) + 1;
    }
  }

  /**
   * When every header starts with `@`, this release passes the same records
   * as release 1.0.0 writes, in the same order; only their bytes differ.
   */
  lemma AgreesWithV100OnAtHeaders<Q>(t: Thresholds<Q>, lines: seq<Line>)
    requires forall r :: r in FramePadded(lines) ==> HasAtHeader(r)
    ensures Kept(t, false, FramePadded(lines)) == Kept(t, true, FramePadded(lines))
  {
    FilterAgree(FramePadded(lines), KeepRule(t, false), KeepRule(t, true));
  }
}
