/**
 * The relative-duration parser behind `--since` (awslog.py, `durationpy_from_str`
 * and `string_to_timestamp`).  Durations are integers in nanoseconds and the
 * clock reading `now` is a parameter, in nanoseconds since the epoch.
 */
module Duration {
  import opened Wrappers

  // Sizes of the units, in nanoseconds.
  const Nanosecond: nat := 1
  const Microsecond: nat := 1000 * Nanosecond
  const Millisecond: nat := 1000 * Microsecond
  const Second: nat := 1000 * Millisecond
  const Minute: nat := 60 * Second
  const Hour: nat := 60 * Minute
  const Day: nat := 24 * Hour
  const Week: nat := 7 * Day
  const Month: nat := 30 * Day
  const Year: nat := 365 * Day

  /** U+00B5 MICRO SIGN and U+03BC GREEK SMALL LETTER MU, both accepted for "µs". */
  const MicroSign: char := '\U{00B5}'
  const GreekMu: char := '\U{03BC}'

  /** The unit table; keys are exactly the letter runs the source accepts. */
  const Units: map<string, nat> := map[
    "ns" := Nanosecond,
    "us" := Microsecond,
    [MicroSign, 's'] := Microsecond,
    [GreekMu, 's'] := Microsecond,
    "ms" := Millisecond,
    "s" := Second,
    "m" := Minute,
    "h" := Hour,
    "d" := Day,
    "w" := Week,
    "mm" := Month,
    "y" := Year
  ]

  datatype DurationError =
    | EmptyDuration               // `duration[0]` on the empty string
    | NoMatch                     // no (number)(unit) pair anywhere
    | UnknownUnit(unit: string)   // a matched letter run that is not in the table
    | InvalidValue(value: string) // a matched number that is not a plain digit string

  // ---------------------------------------------------------------------------
  // The pair scanner: `re.findall("([\d\.]+)([a-zµμ]+)", duration)`.

  predicate IsDigit(c: char) { '0' <= c <= '9' }

  /** The class `[\d\.]`. */
  predicate IsValueChar(c: char) { IsDigit(c) || c == '.' }

  /** The class `[a-zµμ]`. */
  predicate IsUnitChar(c: char) { 'a' <= c <= 'z' || c == MicroSign || c == GreekMu }

  datatype CharClass = ValueChars | UnitChars

  predicate InClass(c: char, cls: CharClass)
  {
    match cls
    case ValueChars => IsValueChar(c)
    case UnitChars => IsUnitChar(c)
  }

  /** End of the longest run of `cls` characters starting at `i` (a greedy `+`). */
  function RunEnd(s: string, i: nat, cls: CharClass): (j: nat)
    requires i <= |s|
    ensures i <= j <= |s|
    ensures forall k :: i <= k < j ==> InClass(s[k], cls)
    ensures j == |s| || !InClass(s[j], cls)
    decreases |s| - i
  {
    if i < |s| && InClass(s[i], cls) then RunEnd(s, i + 1, cls) else i
  }

  /** One match: the number is `s[start..mid]`, the unit `s[mid..end]`. */
  datatype Span = Span(start: nat, mid: nat, end: nat)

  /**
   * A match found by scanning from `from`: a non-empty number run that the scan
   * could not have entered in the middle, followed by the longest unit run.
   */
  predicate WellFormed(s: string, from: nat, sp: Span)
  {
    && from <= sp.start < sp.mid < sp.end <= |s|
    && (forall k :: sp.start <= k < sp.mid ==> IsValueChar(s[k]))
    && (forall k :: sp.mid <= k < sp.end ==> IsUnitChar(s[k]))
    && (sp.end == |s| || !IsUnitChar(s[sp.end]))
    && (sp.start == from || !IsValueChar(s[sp.start - 1]))
  }

  /**
   * The matches of the pattern from position `i` on, left to right and
   * non-overlapping.  Where a number run is not followed by a letter, the regex
   * engine retries at every later position inside the run; each such attempt
   * fails in the same way, so the scan resumes after the run.
   */
  function Scan(s: string, i: nat): seq<Span>
    requires i <= |s|
    decreases |s| - i
  {
    if i == |s| then []
    else if !IsValueChar(s[i]) then Scan(s, i + 1)
    else
      var j := RunEnd(s, i, ValueChars);
      var k := RunEnd(s, j, UnitChars);
      if j < k then [Span(i, j, k)] + Scan(s, k) else Scan(s, j)
  }

  /** Every match is well formed and the matches are in order and do not overlap. */
  lemma {:induction false} ScanWellFormed(s: string, i: nat)
    requires i <= |s|
    ensures forall k :: 0 <= k < |Scan(s, i)| ==> WellFormed(s, i, Scan(s, i)[k])
    ensures forall k :: 0 < k < |Scan(s, i)| ==> Scan(s, i)[k - 1].end <= Scan(s, i)[k].start
    decreases |s| - i
  {
    if i == |s| {
    } else if !IsValueChar(s[i]) {
      ScanWellFormed(s, i + 1);
      WidenFrom(s, i, i + 1, Scan(s, i + 1));
    } else {
      var j := RunEnd(s, i, ValueChars);
      var k := RunEnd(s, j, UnitChars);
      if j < k {
        ScanWellFormed(s, k);
        UnitNotValue(s[k - 1]);
        WidenFrom(s, i, k, Scan(s, k));
        var r := Scan(s, i);
        assert r == [Span(i, j, k)] + Scan(s, k);
        assert WellFormed(s, i, r[0]);
        forall m | 0 < m < |r| ensures r[m - 1].end <= r[m].start {
          if m > 1 { assert r[m - 1] == Scan(s, k)[m - 2] && r[m] == Scan(s, k)[m - 1]; }
          else { assert WellFormed(s, k, Scan(s, k)[0]); }
        }
      } else {
        ScanWellFormed(s, j);
        WidenFrom(s, i, j, Scan(s, j));
      }
    }
  }

  lemma ValueNotUnit(c: char)
    requires IsValueChar(c)
    ensures !IsUnitChar(c)
  {
  }

  lemma UnitNotValue(c: char)
    requires IsUnitChar(c)
    ensures !IsValueChar(c)
  {
  }

  /** Matches found from `k` are matches from any earlier `i` when the scan cannot enter a run at `k`. */
  lemma WidenFrom(s: string, i: nat, k: nat, spans: seq<Span>)
    requires i <= k <= |s|
    requires k == i || k == |s| || !IsValueChar(s[k]) || !IsValueChar(s[k - 1])
    requires forall m :: 0 <= m < |spans| ==> WellFormed(s, k, spans[m])
    ensures forall m :: 0 <= m < |spans| ==> WellFormed(s, i, spans[m])
  {
  }

  /** `p` starts a maximal number run that is immediately followed by a letter. */
  predicate PairStart(s: string, p: int)
  {
    && 0 <= p < |s|
    && IsValueChar(s[p])
    && (p == 0 || !IsValueChar(s[p - 1]))
    && RunEnd(s, p, ValueChars) < |s|
    && IsUnitChar(s[RunEnd(s, p, ValueChars)])
  }

  /** Every maximal number run followed by a letter, at or after `i`, is found. */
  lemma {:induction false} ScanFindsPair(s: string, i: nat, p: nat)
    requires i <= p < |s|
    requires IsValueChar(s[p]) && (p == i || !IsValueChar(s[p - 1]))
    requires RunEnd(s, p, ValueChars) < |s| && IsUnitChar(s[RunEnd(s, p, ValueChars)])
    ensures exists k :: 0 <= k < |Scan(s, i)| && Scan(s, i)[k].start == p
    decreases |s| - i, 1
  {
    if !IsValueChar(s[i]) {
      assert Scan(s, i) == Scan(s, i + 1);
      ScanFindsPair(s, i + 1, p);
    } else if p == i {
      FoundAtStart(s, i);
    } else {
      NoEntryInsideRun(s, i, p);
      ScanFindsPairAfterRun(s, i, p);
    }
  }

  /** The case of `ScanFindsPair` where the scan stands on an earlier number run. */
  lemma {:induction false} ScanFindsPairAfterRun(s: string, i: nat, p: nat)
    requires i < p < |s| && IsValueChar(s[i])
    requires p >= RunEnd(s, i, ValueChars)
    requires IsValueChar(s[p]) && !IsValueChar(s[p - 1])
    requires RunEnd(s, p, ValueChars) < |s| && IsUnitChar(s[RunEnd(s, p, ValueChars)])
    ensures exists k :: 0 <= k < |Scan(s, i)| && Scan(s, i)[k].start == p
    decreases |s| - i, 0
  {
    var j := RunEnd(s, i, ValueChars);
    var k := RunEnd(s, j, UnitChars);
    if j < k {
      ValueNotUnit(s[p]);
      assert p >= k;
      ScanFindsPair(s, k, p);
      var m :| 0 <= m < |Scan(s, k)| && Scan(s, k)[m].start == p;
      assert Scan(s, i) == [Span(i, j, k)] + Scan(s, k);
      assert Scan(s, i)[m + 1] == Scan(s, k)[m];
    } else {
      assert Scan(s, i) == Scan(s, j);
      ScanFindsPair(s, j, p);
    }
  }

  /** A number run followed by a letter, where the scan stands, is matched at once. */
  lemma FoundAtStart(s: string, i: nat)
    requires i < |s| && IsValueChar(s[i])
    requires RunEnd(s, i, ValueChars) < |s| && IsUnitChar(s[RunEnd(s, i, ValueChars)])
    ensures |Scan(s, i)| > 0 && Scan(s, i)[0].start == i
  {
    var j := RunEnd(s, i, ValueChars);
    var k := RunEnd(s, j, UnitChars);
    assert j < k;
  }

  /** A position strictly inside a number run is preceded by a number character. */
  lemma NoEntryInsideRun(s: string, i: nat, p: nat)
    requires i < p < |s| && IsValueChar(s[i])
    requires !IsValueChar(s[p - 1])
    ensures p >= RunEnd(s, i, ValueChars)
  {
  }

  /** The matches start exactly at the maximal number runs that are followed by a letter. */
  lemma ScanStartsIff(s: string, p: int)
    ensures (exists k :: 0 <= k < |Scan(s, 0)| && Scan(s, 0)[k].start == p) <==> PairStart(s, p)
  {
    if exists k :: 0 <= k < |Scan(s, 0)| && Scan(s, 0)[k].start == p {
      var k :| 0 <= k < |Scan(s, 0)| && Scan(s, 0)[k].start == p;
      MatchIsPairStart(s, k);
    }
    if PairStart(s, p) {
      ScanFindsPair(s, 0, p);
    }
  }

  /** The forward half of `ScanStartsIff`, for one match. */
  lemma MatchIsPairStart(s: string, k: nat)
    requires k < |Scan(s, 0)|
    ensures PairStart(s, Scan(s, 0)[k].start)
  {
    var sp := Scan(s, 0)[k];
    ScanWellFormed(s, 0);
    assert WellFormed(s, 0, sp);
    UnitNotValue(s[sp.mid]);
    assert RunEnd(s, sp.start, ValueChars) == sp.mid;
  }

  /** A matched (number, unit) pair, as `findall` returns it. */
  datatype Pair = Pair(value: string, unit: string)

  function PairsOf(s: string, spans: seq<Span>): (r: seq<Pair>)
    requires forall k :: 0 <= k < |spans| ==> spans[k].start <= spans[k].mid <= spans[k].end <= |s|
    ensures |r| == |spans|
    ensures forall k :: 0 <= k < |spans| ==>
      r[k] == Pair(s[spans[k].start..spans[k].mid], s[spans[k].mid..spans[k].end])
  {
    if spans == [] then []
    else
      [Pair(s[spans[0].start..spans[0].mid], s[spans[0].mid..spans[0].end])] + PairsOf(s, spans[1..])
  }

  /** `pattern.findall(duration)`. */
  function FindAll(s: string): seq<Pair>
  {
    var spans := Scan(s, 0);
    ScanWellFormed(s, 0);
    assert forall k :: 0 <= k < |spans| ==> WellFormed(s, 0, spans[k]);
    PairsOf(s, spans)
  }

  /** A found unit is the whole letter run after its number: "1hm" yields the unit "hm". */
  lemma FoundUnitIsMaximal(s: string, k: nat)
    requires k < |FindAll(s)|
    ensures |FindAll(s)[k].unit| > 0
    ensures forall c :: c in FindAll(s)[k].unit ==> IsUnitChar(c)
    ensures exists sp :: WellFormed(s, 0, sp) && FindAll(s)[k].unit == s[sp.mid..sp.end]
  {
    var sp := Scan(s, 0)[k];
    ScanWellFormed(s, 0);
    assert WellFormed(s, 0, sp);
    assert FindAll(s)[k].unit == s[sp.mid..sp.end];
    forall c | c in FindAll(s)[k].unit ensures IsUnitChar(c) {
      var q :| 0 <= q < |s[sp.mid..sp.end]| && s[sp.mid..sp.end][q] == c;
      assert s[sp.mid + q] == c;
    }
  }

  // ---------------------------------------------------------------------------
  // Numbers.  Only plain digit strings are given a value (see README, Left out).

  predicate AllDigits(v: string) { forall k :: 0 <= k < |v| ==> IsDigit(v[k]) }

  function DigitValue(c: char): nat requires IsDigit(c) { (c as int) - ('0' as int) }

  function DigitChar(d: nat): (c: char)
    requires d < 10
    ensures IsDigit(c) && DigitValue(c) == d
  {
    (('0' as int) + d) as char
  }

  /** Decimal value of a digit string, most significant digit first. */
  function DigitsToNat(v: string): nat
    requires AllDigits(v)
  {
    if v == [] then 0 else DigitsToNat(v[..|v| - 1]) * 10 + DigitValue(v[|v| - 1])
  }

  /** `float(value)` for the values the model supports. */
  function DecimalValue(v: string): Option<nat>
  {
    if |v| > 0 && AllDigits(v) then Some(DigitsToNat(v)) else None
  }

  /** Decimal rendering of a natural, the inverse of the parse. */
  function NatToDigits(n: nat): (r: string)
    ensures |r| > 0 && AllDigits(r)
  {
    if n < 10 then [DigitChar(n)] else NatToDigits(n / 10) + [DigitChar(n % 10)]
  }

  /** Every natural survives rendering and parsing back. */
  lemma {:induction false} DecimalRoundTrip(n: nat)
    ensures DecimalValue(NatToDigits(n)) == Some(n)
  {
    var r := NatToDigits(n);
    if n >= 10 {
      DecimalRoundTrip(n / 10);
      assert r[..|r| - 1] == NatToDigits(n / 10);
      assert DigitValue(r[|r| - 1]) == n % 10;
      assert DigitsToNat(r) == DigitsToNat(NatToDigits(n / 10)) * 10 + n % 10;
    } else {
      assert DigitsToNat(r) == DigitsToNat([]) * 10 + n;
    }
  }

  // ---------------------------------------------------------------------------
  // The duration itself.

  /** The literal forms that mean "no time at all". */
  predicate IsZeroForm(s: string) { s == "0" || s == "+0" || s == "-0" }

  /** -1 exactly when the first character is '-'. */
  function Sign(s: string): int requires |s| > 0 { if s[0] == '-' then -1 else 1 }

  predicate ValidPair(p: Pair) { p.unit in Units && DecimalValue(p.value).Some? }

  /** The error raised for a pair: the unit is checked before the value. */
  function PairError(p: Pair): DurationError
  {
    if p.unit !in Units then UnknownUnit(p.unit) else InvalidValue(p.value)
  }

  function PairNanos(p: Pair): int
    requires ValidPair(p)
  {
    DecimalValue(p.value).value * Units[p.unit]
  }

  /** Reference sum of the durations of all pairs. */
  function Total(ms: seq<Pair>): int
    requires forall k :: 0 <= k < |ms| ==> ValidPair(ms[k])
  {
    if ms == [] then 0 else PairNanos(ms[0]) + Total(ms[1..])
  }

  /** The source's accumulation loop: add each pair to `total`, stopping at the first bad one. */
  function Accumulate(ms: seq<Pair>, total: int): Result<int, DurationError>
  {
    if ms == [] then Ok(total)
    else if ms[0].unit !in Units then Err(UnknownUnit(ms[0].unit))
    else if DecimalValue(ms[0].value).None? then Err(InvalidValue(ms[0].value))
    else Accumulate(ms[1..], total + PairNanos(ms[0]))
  }

  /** `durationpy_from_str`, as a value: the signed total in nanoseconds, or the error raised. */
  function ParseDuration(s: string): Result<int, DurationError>
  {
    if IsZeroForm(s) then Ok(0)
    else if |s| == 0 then Err(EmptyDuration)
    else
      var ms := FindAll(s);
      if |ms| == 0 then Err(NoMatch)
      else
        match Accumulate(ms, 0)
        case Ok(t) => Ok(Sign(s) * t)
        case Err(e) => Err(e)
  }

  /** When every pair is valid, the loop adds the reference sum to its accumulator. */
  lemma {:induction false} AccumulateValid(ms: seq<Pair>, total: int)
    requires forall k :: 0 <= k < |ms| ==> ValidPair(ms[k])
    ensures Accumulate(ms, total) == Ok(total + Total(ms))
  {
    if ms != [] {
      assert ValidPair(ms[0]);
      AccumulateValid(ms[1..], total + PairNanos(ms[0]));
    }
  }

  /** The loop stops at the first invalid pair and reports its error. */
  lemma {:induction false} AccumulateFirstError(ms: seq<Pair>, total: int, k: nat)
    requires k < |ms| && !ValidPair(ms[k])
    requires forall j :: 0 <= j < k ==> ValidPair(ms[j])
    ensures Accumulate(ms, total) == Err(PairError(ms[k]))
  {
    if k > 0 {
      assert ValidPair(ms[0]);
      assert ms[1..][k - 1] == ms[k];
      assert forall j :: 0 <= j < k - 1 ==> ms[1..][j] == ms[j + 1];
      AccumulateFirstError(ms[1..], total + PairNanos(ms[0]), k - 1);
    }
  }

  /**
   * The meaning of a parse: a zero form is zero; otherwise the parse succeeds
   * exactly when the string is non-empty, has at least one pair and every pair
   * is valid, and then yields sign × the sum over all pairs; a failure reports
   * the first bad pair.
   */
  lemma ParseDurationMeaning(s: string)
    ensures IsZeroForm(s) ==> ParseDuration(s) == Ok(0)
    ensures !IsZeroForm(s) ==>
      (ParseDuration(s).Ok? <==>
        |s| > 0 && |FindAll(s)| > 0 && forall k :: 0 <= k < |FindAll(s)| ==> ValidPair(FindAll(s)[k]))
    ensures !IsZeroForm(s) && ParseDuration(s).Ok? ==> ParseDuration(s).value == Sign(s) * Total(FindAll(s))
    ensures !IsZeroForm(s) && |s| == 0 ==> ParseDuration(s) == Err(EmptyDuration)
    ensures !IsZeroForm(s) && |s| > 0 && |FindAll(s)| == 0 ==> ParseDuration(s) == Err(NoMatch)
    ensures !IsZeroForm(s) ==>
      forall k :: (0 <= k < |FindAll(s)| && !ValidPair(FindAll(s)[k]) &&
                   (forall j :: 0 <= j < k ==> ValidPair(FindAll(s)[j]))) ==>
        ParseDuration(s) == Err(PairError(FindAll(s)[k]))
  {
    var ms := FindAll(s);
    if forall k :: 0 <= k < |ms| ==> ValidPair(ms[k]) {
      AccumulateValid(ms, 0);
    } else {
      var k := FirstInvalid(ms);
      AccumulateFirstError(ms, 0, k);
    }
  }

  /** Index of the first invalid pair. */
  lemma FirstInvalid(ms: seq<Pair>) returns (k: nat)
    requires exists k :: 0 <= k < |ms| && !ValidPair(ms[k])
    ensures k < |ms| && !ValidPair(ms[k]) && forall j :: 0 <= j < k ==> ValidPair(ms[j])
  {
    k := 0;
    while ValidPair(ms[k])
      invariant k < |ms|
      invariant forall j :: 0 <= j < k ==> ValidPair(ms[j])
      invariant exists m :: k <= m < |ms| && !ValidPair(ms[m])
      decreases |ms| - k
    {
      k := k + 1;
    }
  }

  /** `durationpy_from_str`: the accumulation loop over the matched pairs. */
  method DurationFromStr(duration: string) returns (r: Result<int, DurationError>)
    ensures r == ParseDuration(duration)
  {
    if IsZeroForm(duration) {
      return Ok(0);
    }
    if |duration| == 0 {
      return Err(EmptyDuration);
    }
    var total := 0;
    var sign: int := if duration[0] == '-' then -1 else 1;
    var matches := FindAll(duration);
    if |matches| == 0 {
      return Err(NoMatch);
    }
    for k := 0 to |matches|
      invariant Accumulate(matches, 0) == Accumulate(matches[k..], total)
    {
      var pair := matches[k];
      if pair.unit !in Units {
        return Err(UnknownUnit(pair.unit));
      }
      var value := DecimalValue(pair.value);
      if value.None? {
        return Err(InvalidValue(pair.value));
      }
      assert matches[k..][0] == pair && matches[k..][1..] == matches[k + 1..];
      assert ValidPair(pair);
      total := total + PairNanos(pair);
    }
    assert matches[|matches|..] == [];
    r := Ok(sign * total);
  }

  // ---------------------------------------------------------------------------
  // From a duration to a timestamp.

  /** Epoch seconds of 0001-01-01T00:00:00 and of 9999-12-31T23:59:59, the range of a `datetime`. */
  const MinEpochSecond: int := -62135596800
  const MaxEpochSecond: int := 253402300799

  /**
   * `string_to_timestamp`: whole epoch seconds of `now - duration`, rounded down;
   * an unparseable string, or a point outside the range of a `datetime`, gives 0.
   */
  function StringToTimestamp(s: string, now: int): (ts: int)
    ensures ParseDuration(s).Err? ==> ts == 0
    ensures ParseDuration(s).Ok? ==>
      var past := now - ParseDuration(s).value;
      if MinEpochSecond * Second <= past < (MaxEpochSecond + 1) * Second
      then ts * Second <= past < ts * Second + Second
      else ts == 0
  {
    match ParseDuration(s)
    case Err(_) => 0
    case Ok(delta) =>
      var seconds := (now - delta) / Second;
      if MinEpochSecond <= seconds <= MaxEpochSecond then seconds else 0
  }

  /** The `--since` default: one hundred thousand seconds back. */
  const DefaultSince: string := "100000s"

  // ---------------------------------------------------------------------------
  // Worked examples.

  lemma OneHourThirtyMinutes()
    ensures FindAll("1h30m") == [Pair("1", "h"), Pair("30", "m")]
    ensures ParseDuration("1h30m") == Ok(90 * Minute)
  {
    var s := "1h30m";
    assert RunEnd(s, 0, ValueChars) == 1;
    assert RunEnd(s, 1, UnitChars) == 2;
    assert RunEnd(s, 2, ValueChars) == 4;
    assert RunEnd(s, 4, UnitChars) == 5;
    assert Scan(s, 5) == [];
    assert Scan(s, 2) == [Span(2, 4, 5)];
    assert Scan(s, 0) == [Span(0, 1, 2), Span(2, 4, 5)];
    var ms := FindAll(s);
    assert ms[0] == Pair(s[0..1], s[1..2]) && s[0..1] == "1" && s[1..2] == "h";
    assert ms[1] == Pair(s[2..4], s[4..5]) && s[2..4] == "30" && s[4..5] == "m";
    assert ms == [Pair("1", "h"), Pair("30", "m")];
    assert DigitsToNat("3") == 3;
    assert DigitsToNat("30") == 30;
    assert Accumulate(ms[2..], 90 * Minute) == Ok(90 * Minute);
    assert Accumulate(ms[1..], Hour) == Ok(90 * Minute);
  }

  lemma LetterRunIsOneUnit()
    ensures FindAll("1hm") == [Pair("1", "hm")]
    ensures ParseDuration("1hm") == Err(UnknownUnit("hm"))
  {
    var s := "1hm";
    assert RunEnd(s, 0, ValueChars) == 1;
    assert RunEnd(s, 1, UnitChars) == 3;
    assert Scan(s, 3) == [];
    assert Scan(s, 0) == [Span(0, 1, 3)];
    var ms := FindAll(s);
    assert ms[0] == Pair(s[0..1], s[1..3]) && s[0..1] == "1" && s[1..3] == "hm";
    assert "hm" !in Units;
  }

  lemma NoPairIsAnError()
    ensures ParseDuration("bogus") == Err(NoMatch)
  {
    var s := "bogus";
    assert Scan(s, 5) == [];
    assert Scan(s, 4) == [];
    assert Scan(s, 3) == [];
    assert Scan(s, 2) == [];
    assert Scan(s, 1) == [];
    assert Scan(s, 0) == [];
  }

  lemma HundredThousand()
    ensures DecimalValue("100000") == Some(100000)
  {
    assert DigitsToNat("1") == 1;
    assert DigitsToNat("10") == 10;
    assert DigitsToNat("100") == 100;
    assert "1000"[..3] == "100";
    assert DigitsToNat("1000") == 1000;
    assert "10000"[..4] == "1000";
    assert DigitsToNat("10000") == 10000;
    assert "100000"[..5] == "10000";
  }

  lemma ParseDefaultSince()
    ensures ParseDuration(DefaultSince) == Ok(100000 * Second)
  {
    var s := DefaultSince;
    assert RunEnd(s, 0, ValueChars) == 6;
    assert RunEnd(s, 6, UnitChars) == 7;
    assert Scan(s, 7) == [];
    assert Scan(s, 0) == [Span(0, 6, 7)];
    var ms := FindAll(s);
    assert ms[0] == Pair(s[0..6], s[6..7]) && s[0..6] == "100000" && s[6..7] == "s";
    HundredThousand();
    assert Accumulate(ms, 0) == Ok(100000 * Second);
  }

  /** With the default `--since`, tailing starts 100000 whole seconds before the current second. */
  lemma DefaultSinceIsBehindNow(now: int)
    requires MinEpochSecond * Second <= now - 100000 * Second < (MaxEpochSecond + 1) * Second
    ensures StringToTimestamp(DefaultSince, now) == now / Second - 100000
  {
    ParseDefaultSince();
    var past := now - 100000 * Second;
    ShiftWholeSeconds(now, 100000);
    SecondInRange(past);
    assert StringToTimestamp(DefaultSince, now) == past / Second;
  }

  /** An instant inside the representable range falls in a representable second. */
  lemma SecondInRange(x: int)
    requires MinEpochSecond * Second <= x < (MaxEpochSecond + 1) * Second
    ensures MinEpochSecond <= x / Second <= MaxEpochSecond
  {
    var q := x / Second;
    var r := x % Second;
    assert x == q * Second + r && 0 <= r < Second;
  }

  /** Going back `k` whole seconds moves the second an instant falls in back by `k`. */
  lemma ShiftWholeSeconds(n: int, k: int)
    ensures (n - k * Second) / Second == n / Second - k
  {
    var q := n / Second;
    var r := n % Second;
    assert n == q * Second + r && 0 <= r < Second;
    assert n - k * Second == (q - k) * Second + r;
  }
}
