/**
 * Bytes and lines as the filters see them: each line is the UTF-8 text of one
 * input line without its terminating newline. `str::split` on a single ASCII
 * byte, `slice::last` and the line reader are modelled here.
 */
module Text {

  /** One octet of UTF-8 text. */
  type Byte = b: int | 0 <= b < 256

  /** A line (or any run of text) as bytes; `len()` of a Rust `String` is `|l|`. */
  type Line = seq<Byte>

  const AT: Byte := 0x40          // '@'
  const UNDERSCORE: Byte := 0x5F  // '_'
  const NEWLINE: Byte := 0x0A     // '\n'
  const CR: Byte := 0x0D          // '\r'

  datatype Option<T> = None | Some(value: T)

  /** A line as the line reader yields it: it holds no newline byte. */
  predicate IsLine(l: Line) {
    NEWLINE !in l
  }

  predicate AllLines(lines: seq<Line>) {
    forall i :: 0 <= i < |lines| ==> IsLine(lines[i])
  }

  /**
   * A line that, written with a newline after it, the line reader yields
   * back unchanged: it holds no newline and does not end in `\r`.
   */
  predicate Verbatim(l: Line) {
    IsLine(l) && (l == [] || l[|l| - 1] != CR)
  }

  predicate AllVerbatim(lines: seq<Line>) {
    forall i :: 0 <= i < |lines| ==> Verbatim(lines[i])
  }

  /** Position of the first `b` in `s`, or `|s|` when `s` holds no `b`. */
  function IndexOf(s: Line, b: Byte): (k: nat)
    ensures k <= |s|
    ensures k < |s| ==> s[k] == b
    ensures forall j :: 0 <= j < k ==> s[j] != b
  {
    if s == [] then 0
    else if s[0] == b then 0
    else 1 + IndexOf(s[1..], b)
  }

  /**
   * `s.split(sep).collect()`: the pieces of `s` between separators, in order.
   * Like Rust's `split`, it yields at least one piece (the empty text splits
   * into one empty piece).
   */
  function SplitOn(s: Line, sep: Byte): (parts: seq<Line>)
    ensures |parts| >= 1
    decreases |s|
  {
    var k := IndexOf(s, sep);
    if k == |s| then [s] else [s[..k]] + SplitOn(s[k + 1..], sep)
  }

  /** Joins pieces with one separator between neighbours (the inverse of SplitOn). */
  function JoinOn(parts: seq<Line>, sep: Byte): Line
    requires |parts| >= 1
  {
    if |parts| == 1 then parts[0] else parts[0] + [sep] + JoinOn(parts[1..], sep)
  }

  /** Splitting loses nothing: joining the pieces gives `s` back, and no piece holds `sep`. */
  lemma {:induction false} SplitOnJoin(s: Line, sep: Byte)
    ensures JoinOn(SplitOn(s, sep), sep) == s
    ensures forall i :: 0 <= i < |SplitOn(s, sep)| ==> sep !in SplitOn(s, sep)[i]
    decreases |s|
  {
    var k := IndexOf(s, sep);
    if k < |s| {
      var rest := s[k + 1..];
      SplitOnJoin(rest, sep);
      var parts := SplitOn(s, sep);
      assert parts == [s[..k]] + SplitOn(rest, sep);
      assert parts[1..] == SplitOn(rest, sep);
      assert s == s[..k] + [sep] + rest;
      forall i | 0 <= i < |parts| ensures sep !in parts[i] {
        if i > 0 {
          assert parts[i] == SplitOn(rest, sep)[i - 1];
        }
      }
    }
  }

  /** `slice::last`: the final element, if any. */
  function Last<T>(xs: seq<T>): Option<T> {
    if xs == [] then None else Some(xs[|xs| - 1])
  }

  /**
   * The text after the last `sep` in `s`, or all of `s` when it holds no
   * `sep`: the longest suffix of `s` free of `sep`.
   */
  function LastSegment(s: Line, sep: Byte): (tok: Line)
    ensures sep !in tok
    ensures |tok| <= |s|
    decreases |s|
  {
    if s == [] || s[|s| - 1] == sep then [] else LastSegment(s[..|s| - 1], sep) + [s[|s| - 1]]
  }

  /**
   * LastSegment is a suffix of `s` that is either all of `s` or preceded by
   * `sep`; with `sep !in tok`, this makes it the longest `sep`-free suffix.
   */
  lemma {:induction false} LastSegmentSuffix(s: Line, sep: Byte)
    ensures var tok := LastSegment(s, sep);
      && tok == s[|s| - |tok|..]
      && (|tok| < |s| ==> s[|s| - |tok| - 1] == sep)
    decreases |s|
  {
    if s != [] && s[|s| - 1] != sep {
      var init := s[..|s| - 1];
      LastSegmentSuffix(init, sep);
      var tok := LastSegment(s, sep);
      assert tok == LastSegment(init, sep) + [s[|s| - 1]];
      assert s[|s| - |tok|..] == init[|init| - (|tok| - 1)..] + [s[|s| - 1]];
      if |tok| < |s| {
        assert s[|s| - |tok| - 1] == init[|init| - (|tok| - 1) - 1];
      }
    }
  }

  /** Past a separator at `k`, the text after the last `sep` is the same in `s` and in its tail. */
  lemma {:induction false} SegmentOfTail(s: Line, k: nat, sep: Byte)
    requires k < |s| && s[k] == sep
    ensures LastSegment(s[k + 1..], sep) == LastSegment(s, sep)
    decreases |s|
  {
    var rest := s[k + 1..];
    if k == |s| - 1 {
      assert rest == [];
    } else {
      var init := s[..|s| - 1];
      SegmentOfTail(init, k, sep);
      var last := s[|s| - 1];
      assert rest[..|rest| - 1] == init[k + 1..];
      assert rest[|rest| - 1] == last;
      if last != sep {
        assert LastSegment(rest, sep) == LastSegment(init[k + 1..], sep) + [last];
        assert LastSegment(s, sep) == LastSegment(init, sep) + [last];
      }
    }
  }

  /** Text without `sep` is its own last segment. */
  lemma {:induction false} SegmentOfSepFree(s: Line, sep: Byte)
    requires sep !in s
    ensures LastSegment(s, sep) == s
    decreases |s|
  {
    if s != [] {
      var init := s[..|s| - 1];
      assert sep !in init by {
        forall j | 0 <= j < |init| ensures init[j] != sep {
          assert init[j] == s[j];
        }
      }
      SegmentOfSepFree(init, sep);
      assert init + [s[|s| - 1]] == s;
    }
  }

  /** The last piece of `split(sep)` always exists and is the text after the last `sep`. */
  lemma {:induction false} LastOfSplit(s: Line, sep: Byte)
    ensures Last(SplitOn(s, sep)) == Some(LastSegment(s, sep))
    decreases |s|
  {
    var k := IndexOf(s, sep);
    if k == |s| {
      assert sep !in s by {
        assert forall j :: 0 <= j < |s| ==> s[j] != sep;
      }
      SegmentOfSepFree(s, sep);
    } else {
      LastOfSplit(s[k + 1..], sep);
      SplitOnStep(s, sep);
      SegmentOfTail(s, k, sep);
      LastOfCons(s[..k], SplitOn(s[k + 1..], sep));
    }
  }

  /** Unfolds SplitOn at the first separator. */
  lemma SplitOnStep(s: Line, sep: Byte)
    requires IndexOf(s, sep) < |s|
    ensures SplitOn(s, sep) == [s[..IndexOf(s, sep)]] + SplitOn(s[IndexOf(s, sep) + 1..], sep)
  {
  }

  lemma LastOfCons<T>(x: T, xs: seq<T>)
    requires xs != []
    ensures Last([x] + xs) == Last(xs)
  {
  }

  /** `BufRead::lines` drops one `\r` that stands right before a line's newline. */
  function StripCR(l: Line): (r: Line)
    ensures IsLine(l) ==> IsLine(r)
    ensures r == l || l == r + [CR]
    ensures r == l <==> l == [] || l[|l| - 1] != CR
  {
    if l != [] && l[|l| - 1] == CR then l[..|l| - 1] else l
  }

  /** StripCR applied to each line. */
  function StripEach(lines: seq<Line>): (stripped: seq<Line>)
    ensures |stripped| == |lines|
  {
    if lines == [] then [] else [StripCR(lines[0])] + StripEach(lines[1..])
  }

  /**
   * The lines `BufRead::lines` yields from `b`: each newline ends a line and
   * is dropped together with one `\r` before it; a non-empty unterminated
   * tail is one more line, kept as it is.
   */
  function SplitLines(b: seq<Byte>): (lines: seq<Line>)
    ensures forall i :: 0 <= i < |lines| ==> IsLine(lines[i])
    decreases |b|
  {
    if b == [] then []
    else
      var k := IndexOf(b, NEWLINE);
      if k == |b| then [b] else [StripCR(b[..k])] + SplitLines(b[k + 1..])
  }

  /** A newline-terminated line is read back as that line, less a final `\r`. */
  lemma SplitLinesCons(l: Line, rest: seq<Byte>)
    requires IsLine(l)
    ensures SplitLines(l + [NEWLINE] + rest) == [StripCR(l)] + SplitLines(rest)
  {
    var b := l + [NEWLINE] + rest;
    assert IndexOf(b, NEWLINE) == |l| by {
      assert b[|l|] == NEWLINE;
      assert forall j :: 0 <= j < |l| ==> b[j] == l[j];
    }
    assert b[..|l|] == l;
    assert b[|l| + 1..] == rest;
  }

  /** Line `i` of StripEach is line `i` less a final `\r`. */
  lemma {:induction false} StripEachAt(lines: seq<Line>, i: nat)
    requires i < |lines|
    ensures StripEach(lines)[i] == StripCR(lines[i])
    decreases i
  {
    if i > 0 {
      StripEachAt(lines[1..], i - 1);
    }
  }

  /** Lines that do not end in `\r` lose nothing to StripCR. */
  lemma {:induction false} StripEachVerbatim(lines: seq<Line>)
    requires AllVerbatim(lines)
    ensures StripEach(lines) == lines
    decreases |lines|
  {
    if lines != [] {
      assert Verbatim(lines[0]);
      assert AllVerbatim(lines[1..]) by {
        forall i | 0 <= i < |lines[1..]| ensures Verbatim(lines[1..][i]) {
          assert lines[1..][i] == lines[i + 1];
        }
      }
      StripEachVerbatim(lines[1..]);
      assert lines == [lines[0]] + lines[1..];
    }
  }

  /** Lines written out, each followed by a newline. */
  function Terminated(lines: seq<Line>): seq<Byte> {
    if lines == [] then [] else lines[0] + [NEWLINE] + Terminated(lines[1..])
  }

  /** Regrouping a concatenation; named so that proofs can ask for the step explicitly. */
  lemma ConcatAssoc<T>(x: seq<T>, y: seq<T>, z: seq<T>)
    ensures (x + y) + z == x + (y + z)
  {
  }

  lemma TerminatedCons(l: Line, lines: seq<Line>)
    ensures Terminated([l] + lines) == l + [NEWLINE] + Terminated(lines)
  {
    assert ([l] + lines)[1..] == lines;
  }

  /** Appending one line and its newline to `out` advances it through Terminated by one line. */
  lemma AppendLine(out: seq<Byte>, l: Line, lines: seq<Line>)
    ensures out + l + [NEWLINE] + Terminated(lines) == out + Terminated([l] + lines)
  {
    TerminatedCons(l, lines);
    ConcatAssoc(out, l, [NEWLINE]);
    ConcatAssoc(out, l + [NEWLINE], Terminated(lines));
  }

  /**
   * Newline-terminated lines are read back one for one, each less a final
   * `\r`, whatever follows them.
   */
  lemma {:induction false} SplitLinesTerminated(lines: seq<Line>, rest: seq<Byte>)
    requires AllLines(lines)
    ensures SplitLines(Terminated(lines) + rest) == StripEach(lines) + SplitLines(rest)
    decreases |lines|
  {
    if lines != [] {
      var head, tail := lines[0], lines[1..];
      var after := Terminated(tail) + rest;
      assert AllLines(tail) by {
        forall i | 0 <= i < |tail| ensures IsLine(tail[i]) {
          assert tail[i] == lines[i + 1];
        }
      }
      SplitLinesTerminated(tail, rest);
      TerminatedCons(head, tail);
      assert lines == [head] + tail;
      ConcatAssoc(head + [NEWLINE], Terminated(tail), rest);
      assert Terminated(lines) + rest == head + [NEWLINE] + after;
      assert IsLine(head);
      SplitLinesCons(head, after);
      ConcatAssoc([StripCR(head)], StripEach(tail), SplitLines(rest));
    } else {
      assert Terminated(lines) + rest == rest;
    }
  }
}
