/**
 * FASTQ records and the two ways the filters group input lines into them:
 * strictly (a missing trailing line is fatal) and padded (a missing trailing
 * line reads as empty text). Also the order-keeping selection of records.
 */
module Records {
  import opened Text

  /** One read: header, sequence, separator ("plus") line and quality line. */
  datatype Record = Record(header: Line, sequence: Line, plus: Line, quality: Line)

  /** The four lines of a record, in input order. */
  function Fields(r: Record): seq<Line> {
    [r.header, r.sequence, r.plus, r.quality]
  }

  /** Each of the record's four lines satisfies `ok` (for instance IsLine or Verbatim). */
  predicate FieldsSatisfy(r: Record, ok: Line -> bool) {
    ok(r.header) && ok(r.sequence) && ok(r.plus) && ok(r.quality)
  }

  /** The lines of a run of records, four per record. */
  function Flatten(recs: seq<Record>): (lines: seq<Line>)
    ensures |lines| == 4 * |recs|
  {
    if recs == [] then [] else Fields(recs[0]) + Flatten(recs[1..])
  }

  /**
   * Strict framing: consecutive groups of four lines, each one record. Lines
   * past the last complete group form no record (the caller treats them as a
   * fatal truncation).
   */
  function FrameComplete(lines: seq<Line>): (recs: seq<Record>)
    ensures |recs| == |lines| / 4
  {
    if |lines| < 4 then []
    else [Record(lines[0], lines[1], lines[2], lines[3])] + FrameComplete(lines[4..])
  }

  /** `lines.next().unwrap_or(Ok(String::new()))`: the i-th line, or empty text past the end. */
  function LineOrEmpty(lines: seq<Line>, i: nat): Line {
    if i < |lines| then lines[i] else []
  }

  /**
   * Padded framing: every line that starts a group of four is a header, and a
   * sequence, plus or quality line missing at the end of input is empty text.
   */
  function FramePadded(lines: seq<Line>): (recs: seq<Record>)
    ensures |recs| == (|lines| + 3) / 4
  {
    if lines == [] then []
    else
      var next := if |lines| < 4 then |lines| else 4;
      [Record(lines[0], LineOrEmpty(lines, 1), LineOrEmpty(lines, 2), LineOrEmpty(lines, 3))]
        + FramePadded(lines[next..])
  }

  /** Strict framing reads exactly the complete groups: their lines come back in order. */
  lemma {:induction false} FrameCompleteFlatten(lines: seq<Line>)
    ensures Flatten(FrameComplete(lines)) == lines[..|lines| / 4 * 4]
    decreases |lines|
  {
    if |lines| >= 4 {
      FrameCompleteFlatten(lines[4..]);
      var recs := FrameComplete(lines);
      assert recs[1..] == FrameComplete(lines[4..]);
      assert lines[..|lines| / 4 * 4] == lines[..4] + lines[4..][..|lines[4..]| / 4 * 4];
    }
  }

  /** Framing the lines of whole records gives those records back. */
  lemma {:induction false} FlattenFrame(recs: seq<Record>)
    ensures FrameComplete(Flatten(recs)) == recs
    decreases |recs|
  {
    if recs != [] {
      FlattenFrame(recs[1..]);
      var lines := Flatten(recs);
      assert lines[4..] == Flatten(recs[1..]);
      assert recs == [recs[0]] + recs[1..];
    }
  }

  /** Strict framing never looks at the lines of an incomplete final group. */
  lemma {:induction false} FrameCompletePrefix(lines: seq<Line>)
    ensures FrameComplete(lines[..|lines| / 4 * 4]) == FrameComplete(lines)
    decreases |lines|
  {
    if |lines| >= 4 {
      FrameCompletePrefix(lines[4..]);
      var cut := lines[..|lines| / 4 * 4];
      assert cut[4..] == lines[4..][..|lines[4..]| / 4 * 4];
    }
  }

  /**
   * Padded framing reads the input lines in order and pads only the final
   * group: line i of the framed records is input line i, or empty text past
   * the end of input.
   */
  lemma {:induction false} FramePaddedLines(lines: seq<Line>)
    ensures forall i :: 0 <= i < |Flatten(FramePadded(lines))| ==>
      Flatten(FramePadded(lines))[i] == LineOrEmpty(lines, i)
    decreases |lines|
  {
    if lines != [] {
      var next := if |lines| < 4 then |lines| else 4;
      var rest := lines[next..];
      FramePaddedLines(rest);
      var r := Record(lines[0], LineOrEmpty(lines, 1), LineOrEmpty(lines, 2), LineOrEmpty(lines, 3));
      assert FramePadded(lines) == [r] + FramePadded(rest);
      var flat := Flatten(FramePadded(lines));
      assert flat == Fields(r) + Flatten(FramePadded(rest));
      forall i | 0 <= i < |flat| ensures flat[i] == LineOrEmpty(lines, i) {
        if i >= 4 {
          assert flat[i] == Flatten(FramePadded(rest))[i - 4];
          assert LineOrEmpty(rest, i - 4) == LineOrEmpty(lines, i);
        }
      }
    }
  }

  /** On whole groups of four, padded framing is strict framing. */
  lemma {:induction false} FramePaddedComplete(lines: seq<Line>)
    requires |lines| % 4 == 0
    ensures FramePadded(lines) == FrameComplete(lines)
    decreases |lines|
  {
    if lines != [] {
      FramePaddedComplete(lines[4..]);
    }
  }

  /** Records framed from lines that satisfy `ok` have fields that satisfy it. */
  lemma {:induction false} FrameCompleteFields(lines: seq<Line>, ok: Line -> bool)
    requires forall i :: 0 <= i < |lines| ==> ok(lines[i])
    ensures forall r :: r in FrameComplete(lines) ==> FieldsSatisfy(r, ok)
    decreases |lines|
  {
    if |lines| >= 4 {
      assert forall i :: 0 <= i < |lines[4..]| ==> ok(lines[4..][i]) by {
        forall i | 0 <= i < |lines[4..]| ensures ok(lines[4..][i]) {
          assert lines[4..][i] == lines[i + 4];
        }
      }
      FrameCompleteFields(lines[4..], ok);
      assert ok(lines[0]) && ok(lines[1]) && ok(lines[2]) && ok(lines[3]);
    }
  }

  /** As FrameCompleteFields, for padded framing, when the empty padding line satisfies `ok`. */
  lemma {:induction false} FramePaddedFields(lines: seq<Line>, ok: Line -> bool)
    requires ok([])
    requires forall i :: 0 <= i < |lines| ==> ok(lines[i])
    ensures forall r :: r in FramePadded(lines) ==> FieldsSatisfy(r, ok)
    decreases |lines|
  {
    if lines != [] {
      var next := if |lines| < 4 then |lines| else 4;
      assert forall i :: 0 <= i < |lines[next..]| ==> ok(lines[next..][i]) by {
        forall i | 0 <= i < |lines[next..]| ensures ok(lines[next..][i]) {
          assert lines[next..][i] == lines[i + next];
        }
      }
      FramePaddedFields(lines[next..], ok);
      assert forall i: nat :: ok(LineOrEmpty(lines, i));
    }
  }

  /** Strict framing of the input from line `i` on, one record at a time. */
  lemma FrameCompleteAt(lines: seq<Line>, i: nat)
    requires i + 4 <= |lines|
    ensures FrameComplete(lines[i..])
      == [Record(lines[i], lines[i + 1], lines[i + 2], lines[i + 3])] + FrameComplete(lines[i + 4..])
  {
    assert lines[i..][4..] == lines[i + 4..];
  }

  /** The record starting at line `i` under padded framing: missing lines read as empty text. */
  function RecordAt(lines: seq<Line>, i: nat): Record
    requires i < |lines|
  {
    Record(lines[i], LineOrEmpty(lines, i + 1), LineOrEmpty(lines, i + 2), LineOrEmpty(lines, i + 3))
  }

  /** Where the header after the record at line `i` would be, or the end of input. */
  function NextHeader(lines: seq<Line>, i: nat): nat {
    if i + 4 <= |lines| then i + 4 else |lines|
  }

  /** Padded framing of the input from line `i` on, one record at a time. */
  lemma FramePaddedAt(lines: seq<Line>, i: nat)
    requires i < |lines|
    ensures FramePadded(lines[i..]) == [RecordAt(lines, i)] + FramePadded(lines[NextHeader(lines, i)..])
  {
    var rest := lines[i..];
    var next := NextHeader(lines, i);
    assert rest[next - i..] == lines[next..];
    assert forall k: nat :: LineOrEmpty(rest, k) == LineOrEmpty(lines, i + k);
  }

  /** The elements of `s` that satisfy `p`, in their order in `s`. */
  function Filter<T>(s: seq<T>, p: T -> bool): (kept: seq<T>)
    ensures |kept| <= |s|
  {
    if s == [] then [] else (if p(s[0]) then [s[0]] else []) + Filter(s[1..], p)
  }

  lemma FilterCons<T>(x: T, s: seq<T>, p: T -> bool)
    ensures Filter([x] + s, p) == (if p(x) then [x] else []) + Filter(s, p)
  {
    assert ([x] + s)[1..] == s;
  }

  /** Selecting from a sequence whose every element qualifies changes nothing. */
  lemma {:induction false} FilterKeepsAll<T>(s: seq<T>, p: T -> bool)
    requires forall x :: x in s ==> p(x)
    ensures Filter(s, p) == s
    decreases |s|
  {
    if s != [] {
      FilterKeepsAll(s[1..], p);
      assert s == [s[0]] + s[1..];
    }
  }

  /** Every selected element is an element of `s` that passes the test. */
  lemma {:induction false} FilterSound<T>(s: seq<T>, p: T -> bool)
    ensures forall x :: x in Filter(s, p) ==> x in s && p(x)
    decreases |s|
  {
    if s != [] {
      FilterSound(s[1..], p);
    }
  }

  /** Every element of `s` that passes the test is selected. */
  lemma {:induction false} FilterComplete<T>(s: seq<T>, p: T -> bool)
    ensures forall x :: x in s && p(x) ==> x in Filter(s, p)
    decreases |s|
  {
    if s != [] {
      FilterComplete(s[1..], p);
      assert forall x :: x in s ==> x == s[0] || x in s[1..];
    }
  }

  /** Selection keeps order: selecting from `a + b` is selecting from `a`, then from `b`. */
  lemma {:induction false} FilterAppend<T>(a: seq<T>, b: seq<T>, p: T -> bool)
    ensures Filter(a + b, p) == Filter(a, p) + Filter(b, p)
    decreases |a|
  {
    if a == [] {
      assert a + b == b;
    } else {
      var head: seq<T> := if p(a[0]) then [a[0]] else [];
      FilterAppend(a[1..], b, p);
      assert a + b == [a[0]] + (a[1..] + b);
      FilterCons(a[0], a[1..] + b, p);
      FilterCons(a[0], a[1..], p);
      assert a == [a[0]] + a[1..];
      assert head + (Filter(a[1..], p) + Filter(b, p)) == (head + Filter(a[1..], p)) + Filter(b, p);
    }
  }

  /** Selecting twice by the same test is selecting once. */
  lemma FilterIdempotent<T>(s: seq<T>, p: T -> bool)
    ensures Filter(Filter(s, p), p) == Filter(s, p)
  {
    FilterSound(s, p);
    FilterKeepsAll(Filter(s, p), p);
  }

  /** Two tests that agree on every element of `s` select the same elements. */
  lemma {:induction false} FilterAgree<T>(s: seq<T>, p: T -> bool, q: T -> bool)
    requires forall x :: x in s ==> p(x) == q(x)
    ensures Filter(s, p) == Filter(s, q)
    decreases |s|
  {
    if s != [] {
      FilterAgree(s[1..], p, q);
    }
  }

  /** A stricter test selects no more elements than a looser one. */
  lemma {:induction false} FilterMonotone<T>(s: seq<T>, p: T -> bool, q: T -> bool)
    requires forall x :: p(x) ==> q(x)
    ensures |Filter(s, p)| <= |Filter(s, q)|
    decreases |s|
  {
    if s != [] {
      FilterMonotone(s[1..], p, q);
    }
  }
}
