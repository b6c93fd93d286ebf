/**
 * The output side: the writer every variant appends to, the atomic counters
 * of the threaded variant, and the two ways a kept record is turned into
 * output bytes. Compression is not modelled: the writer holds the bytes that
 * go into the gzip stream.
 */
module Sink {
  import opened Text
  import opened Records

  /** The output stream: `write_all` appends bytes and nothing else. */
  class Writer {
    var written: seq<Byte>

    constructor ()
      ensures written == []
    {
      written := [];
    }

    method WriteAll(bytes: seq<Byte>)
      modifies this
      ensures written == old(written) + bytes
    {
      written := written + bytes;
    }
  }

  /** An `AtomicUsize` used only through `fetch_add`. */
  class Counter {
    var value: nat

    constructor ()
      ensures value == 0
    {
      value := 0;
    }

    method FetchAdd(n: nat) returns (previous: nat)
      modifies this
      ensures previous == old(value)
      ensures value == old(value) + n
    {
      previous := value;
      value := value + n;
    }
  }

  /** What a run reports: the output bytes and its two printed counters. */
  datatype Report = Report(output: seq<Byte>, total: nat, filtered: nat)

  /** A record as four newline-terminated lines. */
  function SerializeRecord(r: Record): seq<Byte> {
    Terminated(Fields(r))
  }

  function SerializeAll(recs: seq<Record>): seq<Byte> {
    if recs == [] then [] else SerializeRecord(recs[0]) + SerializeAll(recs[1..])
  }

  /** The three lines a record becomes when its header runs straight into its sequence. */
  function JoinedFields(r: Record): seq<Line> {
    [r.header + r.sequence, r.plus, r.quality]
  }

  /** A record as the asynchronous writer emits it: three newline-terminated lines. */
  function SerializeJoinedRecord(r: Record): seq<Byte> {
    Terminated(JoinedFields(r))
  }

  function SerializeAllJoined(recs: seq<Record>): seq<Byte> {
    if recs == [] then [] else SerializeJoinedRecord(recs[0]) + SerializeAllJoined(recs[1..])
  }

  /** The lines of a run of records under SerializeJoinedRecord, three per record. */
  function JoinedLines(recs: seq<Record>): (lines: seq<Line>)
    ensures |lines| == 3 * |recs|
  {
    if recs == [] then [] else JoinedFields(recs[0]) + JoinedLines(recs[1..])
  }

  /** Writing one more record extends the output by that record's serialisation. */
  lemma SerializeAllCons(out: seq<Byte>, r: Record, recs: seq<Record>)
    ensures out + SerializeRecord(r) + SerializeAll(recs) == out + SerializeAll([r] + recs)
  {
    assert ([r] + recs)[1..] == recs;
    ConcatAssoc(out, SerializeRecord(r), SerializeAll(recs));
  }

  lemma SerializeAllJoinedCons(out: seq<Byte>, r: Record, recs: seq<Record>)
    ensures out + SerializeJoinedRecord(r) + SerializeAllJoined(recs) == out + SerializeAllJoined([r] + recs)
  {
    assert ([r] + recs)[1..] == recs;
    ConcatAssoc(out, SerializeJoinedRecord(r), SerializeAllJoined(recs));
  }

  /**
   * Output written as SerializeAll reads back as exactly the records' lines,
   * four per record in order, when no line ends in `\r`.
   */
  lemma {:induction false} ReadBackSerialized(recs: seq<Record>)
    requires forall r :: r in recs ==> FieldsSatisfy(r, Verbatim)
    ensures SplitLines(SerializeAll(recs)) == Flatten(recs)
    decreases |recs|
  {
    if recs != [] {
      ReadBackSerialized(recs[1..]);
      var r := recs[0];
      assert FieldsSatisfy(r, Verbatim);
      assert AllVerbatim(Fields(r));
      SplitLinesTerminated(Fields(r), SerializeAll(recs[1..]));
      StripEachVerbatim(Fields(r));
    }
  }

  /** Header and sequence run together make one line; it ends in `\r` only if one of them does. */
  lemma JoinedLine(r: Record)
    requires IsLine(r.header) && IsLine(r.sequence)
    ensures IsLine(r.header + r.sequence)
    ensures Verbatim(r.header) && Verbatim(r.sequence) ==> Verbatim(r.header + r.sequence)
  {
    var hs := r.header + r.sequence;
    assert IsLine(hs) by {
      forall i | 0 <= i < |hs| ensures hs[i] != NEWLINE {
        if i < |r.header| {
          assert hs[i] == r.header[i];
        } else {
          assert hs[i] == r.sequence[i - |r.header|];
        }
      }
    }
    if r.sequence == [] {
      assert hs == r.header;
    } else {
      assert hs[|hs| - 1] == r.sequence[|r.sequence| - 1];
    }
  }

  /**
   * Output written as SerializeAllJoined reads back as three lines per record,
   * the first of them the header and the sequence run together, when no line
   * ends in `\r`.
   */
  lemma {:induction false} ReadBackJoined(recs: seq<Record>)
    requires forall r :: r in recs ==> FieldsSatisfy(r, Verbatim)
    ensures SplitLines(SerializeAllJoined(recs)) == JoinedLines(recs)
    decreases |recs|
  {
    if recs != [] {
      ReadBackJoined(recs[1..]);
      var r := recs[0];
      assert FieldsSatisfy(r, Verbatim);
      assert Verbatim(r.header) && Verbatim(r.sequence) && Verbatim(r.plus) && Verbatim(r.quality);
      JoinedLine(r);
      assert AllVerbatim(JoinedFields(r));
      SplitLinesTerminated(JoinedFields(r), SerializeAllJoined(recs[1..]));
      StripEachVerbatim(JoinedFields(r));
    }
  }

  /** Whatever the lines end in, output written as SerializeAllJoined reads back as three lines per record. */
  lemma {:induction false} JoinedLineCount(recs: seq<Record>)
    requires forall r :: r in recs ==> FieldsSatisfy(r, IsLine)
    ensures |SplitLines(SerializeAllJoined(recs))| == 3 * |recs|
    decreases |recs|
  {
    if recs != [] {
      JoinedLineCount(recs[1..]);
      var r := recs[0];
      assert FieldsSatisfy(r, IsLine);
      assert IsLine(r.header) && IsLine(r.sequence) && IsLine(r.plus) && IsLine(r.quality);
      JoinedLine(r);
      assert AllLines(JoinedFields(r));
      SplitLinesTerminated(JoinedFields(r), SerializeAllJoined(recs[1..]));
    }
  }

  /**
   * The eight `write_all` calls that emit one kept record: each of its four
   * lines followed by a newline, contiguously.
   */
  method WriteRecord(w: Writer, r: Record)
    modifies w
    ensures w.written == old(w.written) + SerializeRecord(r)
  {
    ghost var start := w.written;
    assert Fields(r) == [r.header] + [r.sequence, r.plus, r.quality];
    assert [r.sequence, r.plus, r.quality] == [r.sequence] + [r.plus, r.quality];
    assert [r.plus, r.quality] == [r.plus] + [r.quality];
    assert [r.quality] == [r.quality] + [];
    w.WriteAll(r.header);
    w.WriteAll([NEWLINE]);
    AppendLine(start, r.header, [r.sequence, r.plus, r.quality]);
    ghost var mark := w.written;
    w.WriteAll(r.sequence);
    w.WriteAll([NEWLINE]);
    AppendLine(mark, r.sequence, [r.plus, r.quality]);
    mark := w.written;
    w.WriteAll(r.plus);
    w.WriteAll([NEWLINE]);
    AppendLine(mark, r.plus, [r.quality]);
    mark := w.written;
    w.WriteAll(r.quality);
    w.WriteAll([NEWLINE]);
    AppendLine(mark, r.quality, []);
    assert w.written + Terminated([]) == w.written;
  }
}
