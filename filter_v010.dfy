/**
 * Release 0.1.0 of the filter: one sequential loop over the input lines.
 * Every framed record counts towards `total_reads`; it is then either written
 * or counted in `filtered_reads`, never both. A stream that ends inside a
 * record makes `unwrap()` panic.
 */
module FilterV010 {
  import opened Text
  import opened Records
  import opened Quality
  import opened Sink

  /**
   * How a run ends: normally, with its report, or in the panic of a
   * truncated final record, with the bytes written before it (the encoder
   * is finished when it is dropped, so they reach the output).
   */
  datatype Outcome = Finished(report: Report) | Panicked(written: seq<Byte>)

  function Output(o: Outcome): seq<Byte> {
    match o
    case Finished(report) => report.output
    case Panicked(written) => written
  }

  /** What a run on `lines` produces, stated over whole records. */
  function Spec<Q>(t: Thresholds<Q>, lines: seq<Line>): Outcome {
    var recs := FrameComplete(lines);
    var kept := Kept(t, true, recs);
    if |lines| % 4 == 0 then Finished(Report(SerializeAll(kept), |recs|, |recs| - |kept|))
    else Panicked(SerializeAll(kept))
  }

  /**
   * The loop's state after the records before line `i`: the bytes written
   * and the filtered count, each completed by what the rest of the input
   * would add, give the whole run's.
   */
  ghost predicate Progress<Q>(t: Thresholds<Q>, lines: seq<Line>, i: nat, written: seq<Byte>, filtered: nat)
    requires i <= |lines|
  {
    var recs, rest := FrameComplete(lines), FrameComplete(lines[i..]);
    && written + SerializeAll(Kept(t, true, rest)) == SerializeAll(Kept(t, true, recs))
    && filtered + (|rest| - |Kept(t, true, rest)|) == |recs| - |Kept(t, true, recs)|
  }

  /** Handling the record at line `i` (written iff it is kept) keeps Progress. */
  lemma ProgressStep<Q>(t: Thresholds<Q>, lines: seq<Line>, i: nat, written: seq<Byte>, filtered: nat,
                        written': seq<Byte>, filtered': nat)
    requires i + 4 <= |lines|
    requires Progress(t, lines, i, written, filtered)
    requires var rec := Record(lines[i], lines[i + 1], lines[i + 2], lines[i + 3]);
      if Keeps(t, true, rec) then written' == written + SerializeRecord(rec) && filtered' == filtered
      else written' == written && filtered' == filtered + 1
    ensures Progress(t, lines, i + 4, written', filtered')
  {
    var rec := Record(lines[i], lines[i + 1], lines[i + 2], lines[i + 3]);
    var rest := FrameComplete(lines[i + 4..]);
    FrameCompleteAt(lines, i);
    FilterCons(rec, rest, KeepRule(t, true));
    assert KeepRule(t, true)(rec) == Keeps(t, true, rec);
    if Keeps(t, true, rec) {
      assert Kept(t, true, FrameComplete(lines[i..])) == [rec] + Kept(t, true, rest);
      SerializeAllCons(written, rec, Kept(t, true, rest));
    } else {
      assert Kept(t, true, FrameComplete(lines[i..])) == Kept(t, true, rest);
    }
  }

  /**
   * `filter_fastq_by_quality_and_length`, with the decoded input lines as
   * `lines` and the bytes given to the encoder as the output.
   */
  method FilterFastq<Q>(t: Thresholds<Q>, lines: seq<Line>) returns (outcome: Outcome)
    ensures outcome == Spec(t, lines)
    ensures outcome.Panicked? <==> |lines| % 4 != 0
    ensures outcome.Finished? ==> outcome.report.total == |lines| / 4
    ensures outcome.Finished? ==>
      |Kept(t, true, FrameComplete(lines))| + outcome.report.filtered == outcome.report.total
  {
    var writer := new Writer();
    var totalReads: nat := 0;
    var filteredReads: nat := 0;
    var i := 0;
    while i < |lines|
      invariant i <= |lines| && i == 4 * totalReads
      invariant Progress(t, lines, i, writer.written, filteredReads)
    {
      // `while let Some(Ok(header))`, then three `lines.next().unwrap()`
      var header := lines[i];
      if i + 1 == |lines| || i + 2 == |lines| || i + 3 == |lines| {
        assert FrameComplete(lines[i..]) == [];
        return Panicked(writer.written);
      }
      var sequence, plus, quality := lines[i + 1], lines[i + 2], lines[i + 3];
      ghost var rec := Record(header, sequence, plus, quality);
      ghost var written, filtered := writer.written, filteredReads;
      totalReads := totalReads + 1;

      if |header| > 0 && header[0] == AT {
        match GetQualityValue(header, t.parse)
        case Err(_) =>
          filteredReads := filteredReads + 1;
        case Ok(qualityValue) =>
          if t.atLeast(qualityValue, t.minQuality) && |sequence| >= t.minLength {
            WriteRecord(writer, Record(header, sequence, plus, quality));
          } else {
            filteredReads := filteredReads + 1;
          }
      } else {
        filteredReads := filteredReads + 1;
      }
      ProgressStep(t, lines, i, written, filtered, writer.written, filteredReads);
      i := i + 4;
    }
    assert lines[i..] == [];
    outcome := Finished(Report(writer.written, totalReads, filteredReads));
  }

  /**
   * Filtering this release's output again, with the same thresholds, keeps
   * every record: the output reads back as whole records, all of which pass,
   * so the second run writes the same bytes and filters nothing. This needs
   * input lines that do not end in `\r`: the line reader would drop that
   * `\r` when it reads the output back.
   */
  lemma RefilterKeepsAll<Q>(t: Thresholds<Q>, lines: seq<Line>)
    requires AllVerbatim(lines)
    ensures var out := Output(Spec(t, lines));
      Spec(t, SplitLines(out)) == Finished(Report(out, |Kept(t, true, FrameComplete(lines))|, 0))
  {
    var kept := Kept(t, true, FrameComplete(lines));
    FrameCompleteFields(lines, Verbatim);
    FilterSound(FrameComplete(lines), KeepRule(t, true));
    ReadBackSerialized(kept);
    FlattenFrame(kept);
    FilterKeepsAll(kept, KeepRule(t, true));
  }

  /**
   * Thresholds that accept every quality: the parse always yields 0 and the
   * comparison always holds; the minimum length is 5.
   */
  function AnyQualityMinLength5(): Thresholds<int> {
    Thresholds((l: Line) => Some(0), (a: int, b: int) => true, 0, 5)
  }

  /** A run on one record writes its four lines when it is kept and counts it as filtered otherwise. */
  lemma SpecOfOneRecord<Q>(t: Thresholds<Q>, lines: seq<Line>)
    requires |lines| == 4
    ensures var rec := Record(lines[0], lines[1], lines[2], lines[3]);
      Spec(t, lines) == if Keeps(t, true, rec) then Finished(Report(Terminated(lines), 1, 0))
                        else Finished(Report([], 1, 1))
  {
    var rec := Record(lines[0], lines[1], lines[2], lines[3]);
    FrameCompleteAt(lines, 0);
    assert lines[0..] == lines;
    assert FrameComplete(lines[4..]) == [];
    assert FrameComplete(lines) == [rec];
    FilterCons(rec, [], KeepRule(t, true));
    assert KeepRule(t, true)(rec) == Keeps(t, true, rec);
    if Keeps(t, true, rec) {
      assert Kept(t, true, [rec]) == [rec];
      assert [rec][1..] == [];
      assert SerializeAll([rec]) == SerializeRecord(rec);
      assert Fields(rec) == lines;
    } else {
      assert Kept(t, true, [rec]) == [];
    }
  }

  /** The record of RefilterDropsCRSequence: its sequence line `ACGT\r` is five bytes long. */
  function CRRecordLines(): seq<Line> {
    [[AT, 0x72, UNDERSCORE, 0x31], [0x41, 0x43, 0x47, 0x54, CR], [0x2B], [0x49, 0x49, 0x49, 0x49, 0x49]]
  }

  lemma CRRecordReadBack()
    ensures SplitLines(Terminated(CRRecordLines()))
      == [CRRecordLines()[0], [0x41, 0x43, 0x47, 0x54], CRRecordLines()[2], CRRecordLines()[3]]
  {
    var lines: seq<Line> := CRRecordLines();
    assert AllLines(lines) by {
      forall i | 0 <= i < 4 ensures IsLine(lines[i]) {
        assert forall j :: 0 <= j < |lines[i]| ==> lines[i][j] != NEWLINE;
      }
    }
    SplitLinesTerminated(lines, []);
    var back := SplitLines(Terminated(lines));
    assert Terminated(lines) + [] == Terminated(lines);
    assert SplitLines([]) == [];
    assert back == StripEach(lines) + [];
    forall i | 0 <= i < 4 ensures back[i] == StripCR(lines[i]) {
      StripEachAt(lines, i);
    }
    assert StripCR(lines[1]) == [0x41, 0x43, 0x47, 0x54];
  }

  /**
   * Why RefilterKeepsAll needs lines that do not end in `\r`: a record whose
   * sequence line is `ACGT\r` (read from `ACGT\r\r\n`) meets a minimum
   * length of 5 and is written, but its output reads back with the sequence
   * `ACGT`, which is too short, so the second run writes nothing and filters
   * it.
   */
  lemma RefilterDropsCRSequence()
    ensures var t, lines := AnyQualityMinLength5(), CRRecordLines();
      && Spec(t, lines) == Finished(Report(Terminated(lines), 1, 0))
      && Spec(t, SplitLines(Terminated(lines))) == Finished(Report([], 1, 1))
  {
    var t, lines := AnyQualityMinLength5(), CRRecordLines();
    SpecOfOneRecord(t, lines);
    assert Keeps(t, true, Record(lines[0], lines[1], lines[2], lines[3]));
    CRRecordReadBack();
    var back := SplitLines(Terminated(lines));
    SpecOfOneRecord(t, back);
    assert !Keeps(t, true, Record(back[0], back[1], back[2], back[3]));
  }

  /**
   * A truncated final record does not disturb what was already written: the
   * panicking run has output exactly what the run on the complete records
   * before it outputs.
   */
  lemma PanicKeepsCompleteRecords<Q>(t: Thresholds<Q>, lines: seq<Line>)
    requires |lines| % 4 != 0
    ensures Spec(t, lines[..|lines| / 4 * 4]).Finished?
    ensures Output(Spec(t, lines)) == Output(Spec(t, lines[..|lines| / 4 * 4]))
  {
    FrameCompletePrefix(lines);
  }
}
