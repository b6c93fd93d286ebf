/**
 * The quality value embedded in a FASTQ header, and the per-record tests the
 * filters apply. Parsing the token as a 64-bit float and comparing floats are
 * left to the caller: they are the `parse` and `atLeast` of Thresholds.
 */
module Quality {
  import opened Text
  import opened Records

  /** Why `get_quality_value` gave no number. */
  datatype QualityError =
    | ParseFloatError  // the last `_`-token is not a float
    | NoUnderscore     // `split` yielded no piece at all

  datatype QualityResult<Q> = Ok(value: Q) | Err(error: QualityError)

  /**
   * `get_quality_value`: split the header on `_`, take the last piece and
   * parse it. The result is the parse of the text after the last `_` (the
   * whole header when it has none), and because `split` always yields a
   * piece, the "no underscore" error never occurs.
   */
  function GetQualityValue<Q>(header: Line, parse: Line -> Option<Q>): (r: QualityResult<Q>)
    ensures r.Ok? <==> parse(LastSegment(header, UNDERSCORE)).Some?
    ensures r.Ok? ==> r.value == parse(LastSegment(header, UNDERSCORE)).value
    ensures r.Err? ==> r.error == ParseFloatError
  {
    var parts := SplitOn(header, UNDERSCORE);
    LastOfSplit(header, UNDERSCORE);
    match Last(parts)
    case Some(lastPart) =>
      (match parse(lastPart)
       case Some(q) => Ok(q)
       case None => Err(ParseFloatError))
    case None => Err(NoUnderscore)
  }

  /**
   * The run's parameters. `parse` stands for `str::parse::<f64>`, `atLeast`
   * for the float comparison `>=` (so a NaN quality may fail it), and
   * `minLength` for the `usize` length threshold.
   */
  datatype Thresholds<!Q> = Thresholds(
    parse: Line -> Option<Q>,
    atLeast: (Q, Q) -> bool,
    minQuality: Q,
    minLength: nat)

  /** `header.starts_with('@')`. */
  predicate HasAtHeader(r: Record) {
    |r.header| > 0 && r.header[0] == AT
  }

  /**
   * The quality and length test: the text after the last `_` of the header
   * parses, its value is at least `minQuality`, and the sequence line is at
   * least `minLength` bytes long.
   */
  predicate MeetsThresholds<Q>(t: Thresholds<Q>, r: Record) {
    var q := t.parse(LastSegment(r.header, UNDERSCORE));
    q.Some? && t.atLeast(q.value, t.minQuality) && |r.sequence| >= t.minLength
  }

  /** Whether a record is written: the thresholds, plus the `@` test when `checkAt`. */
  predicate Keeps<Q>(t: Thresholds<Q>, checkAt: bool, r: Record) {
    (!checkAt || HasAtHeader(r)) && MeetsThresholds(t, r)
  }

  /** Keeps as a test to select records with. */
  function KeepRule<Q>(t: Thresholds<Q>, checkAt: bool): Record -> bool {
    r => Keeps(t, checkAt, r)
  }

  /** The records a filter writes: those it keeps, in input order. */
  function Kept<Q>(t: Thresholds<Q>, checkAt: bool, recs: seq<Record>): seq<Record> {
    Filter(recs, KeepRule(t, checkAt))
  }
}
