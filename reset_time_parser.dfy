/** The reset-duration decoder: OpenAI reports when a rate window resets as a compact
    duration such as `1m`, `0s100ms` or `3s10ms`, and the limiter turns it into a count of
    milliseconds. */
module ResetTimeParser {
  import opened Wrappers
  import opened PyInt

  /** `_RATIO`: milliseconds per unit. */
  const RATIO: map<string, int> := map[
    "ms" := 1,
    "s" := 1000,
    "m" := 60 * 1000,
    "h" := 60 * 60 * 1000,
    "d" := 24 * 60 * 60 * 1000
  ]

  /** What `reset_time_to_ms` raises: `AssertionError` on an odd number of pieces,
      `ValueError` from `int` on a number position that is not an integer, `KeyError` from
      the table on a unit position that is not a unit. */
  datatype ParseError = OddPieceCount | NotAnInteger(piece: string) | UnknownUnit(piece: string)

  predicate IsUnitChar(c: char) { c == 'd' || c == 'h' || c == 'm' || c == 's' }

  /** A piece between two delimiters: it holds no character a unit can start with. */
  predicate IsText(p: string) {
    forall i :: 0 <= i < |p| ==> !IsUnitChar(p[i])
  }

  /** Length of the delimiter that the pattern `(d|h|ms|m|s)` matches at the start of `s`,
      or 0 when none does. The alternatives are tried in order, so `ms` wins over `m`. */
  function UnitLength(s: string): (n: nat)
    ensures n > 0 <==> |s| > 0 && IsUnitChar(s[0])
    ensures n <= |s|
  {
    if |s| == 0 then 0
    else if s[0] == 'd' || s[0] == 'h' then 1
    else if s[0] == 'm' then (if |s| >= 2 && s[1] == 's' then 2 else 1)
    else if s[0] == 's' then 1
    else 0
  }

  /** `re.split(r'(d|h|ms|m|s)', s)`: the text between delimiters at even positions and the
      captured delimiters at odd positions, always one more text piece than delimiters. */
  function Split(s: string): (r: seq<string>)
    ensures |r| % 2 == 1
    decreases |s|
  {
    if s == [] then [""]
    else if UnitLength(s) > 0 then
      [""] + [s[..UnitLength(s)]] + Split(s[UnitLength(s)..])
    else
      var rest := Split(s[1..]);
      [[s[0]] + rest[0]] + rest[1..]
  }

  lemma UnitTokenInRatio(s: string)
    requires UnitLength(s) > 0
    ensures s[..UnitLength(s)] in RATIO
  {
    if UnitLength(s) == 1 {
      assert s[..1] == [s[0]];
    } else {
      assert s[..2] == [s[0], s[1]];
    }
  }

  /** The split alternates: text without delimiter characters at even positions, a unit of
      the table at odd positions. */
  lemma {:induction false} SplitShape(s: string)
    ensures forall i :: 0 <= i < |Split(s)| && i % 2 == 0 ==> IsText(Split(s)[i])
    ensures forall i :: 0 <= i < |Split(s)| && i % 2 == 1 ==> Split(s)[i] in RATIO
    decreases |s|
  {
    var r := Split(s);
    if s == [] {
    } else if UnitLength(s) > 0 {
      var n := UnitLength(s);
      var rest := Split(s[n..]);
      SplitShape(s[n..]);
      assert r == [""] + [s[..n]] + rest;
      UnitTokenInRatio(s);
      forall i | 2 <= i < |r| ensures r[i] == rest[i - 2] { }
    } else {
      var rest := Split(s[1..]);
      SplitShape(s[1..]);
      assert r == [[s[0]] + rest[0]] + rest[1..];
      assert IsText(r[0]) by {
        assert IsText(rest[0]);
        forall i | 0 <= i < |r[0]| ensures !IsUnitChar(r[0][i]) {
          if i > 0 { assert r[0][i] == rest[0][i - 1]; }
        }
      }
      forall i | 1 <= i < |r| ensures r[i] == rest[i] { }
    }
  }

  lemma SplitOfEmpty()
    ensures Split("") == [""]
  {
  }

  /** The concatenation of a sequence of strings. */
  function Join(parts: seq<string>): string {
    if parts == [] then "" else parts[0] + Join(parts[1..])
  }

  /** The filtering comprehension `[part for part in parts if part]`. */
  function NonEmpty(parts: seq<string>): (r: seq<string>)
    ensures forall i :: 0 <= i < |r| ==> r[i] != ""
    ensures |r| <= |parts|
    ensures forall p :: p != "" ==> multiset(r)[p] == multiset(parts)[p]
  {
    if parts == [] then []
    else
      assert parts == [parts[0]] + parts[1..];
      (if parts[0] == "" then [] else [parts[0]]) + NonEmpty(parts[1..])
  }

  /** The filter keeps the order of the pieces: filtering a concatenation is concatenating
      the filtered halves. */
  lemma {:induction false} NonEmptyConcat(a: seq<string>, b: seq<string>)
    ensures NonEmpty(a + b) == NonEmpty(a) + NonEmpty(b)
    decreases |a|
  {
    if a == [] {
      assert a + b == b;
    } else {
      assert (a + b)[0] == a[0];
      assert (a + b)[1..] == a[1..] + b;
      NonEmptyConcat(a[1..], b);
    }
  }

  /** The pieces `reset_time_to_ms` works on. */
  function Pieces(s: string): seq<string> {
    NonEmpty(Split(s))
  }

  /** One `int(number) * _RATIO[number_type]` step. */
  function PairValue(number: string, unit: string): (r: Result<int, ParseError>)
    ensures ParseInt(number).None? ==> r == Failure(NotAnInteger(number))
    ensures ParseInt(number).Some? && unit !in RATIO ==> r == Failure(UnknownUnit(unit))
    ensures r.Success? <==> ParseInt(number).Some? && unit in RATIO
    ensures r.Success? ==> r.value == ParseInt(number).value * RATIO[unit]
  {
    match ParseInt(number)
    case None => Failure(NotAnInteger(number))
    case Some(n) => if unit in RATIO then Success(n * RATIO[unit]) else Failure(UnknownUnit(unit))
  }

  /** Adds `acc` to a successful partial sum; a failure stays that failure. */
  function Shift(acc: int, r: Result<int, ParseError>): Result<int, ParseError> {
    match r
    case Success(v) => Success(acc + v)
    case Failure(e) => Failure(e)
  }

  /** The sum of `number * ratio[unit]` over consecutive (number, unit) pairs, failing with
      the error of the first pair that fails. */
  function SumPairs(parts: seq<string>): (r: Result<int, ParseError>)
    requires |parts| % 2 == 0
    ensures r.Success? <==> AllPairsParse(parts)
    ensures r.Failure? ==> !r.error.OddPieceCount?
    decreases |parts|
  {
    if parts == [] then Success(0)
    else
      var rest := parts[2..];
      AllPairsCons(parts);
      var v :- PairValue(parts[0], parts[1]);
      Shift(v, SumPairs(rest))
  }

  predicate AllPairsParse(parts: seq<string>)
    requires |parts| % 2 == 0
  {
    forall j :: 0 <= j < |parts| / 2 ==> PairValue(parts[2 * j], parts[2 * j + 1]).Success?
  }

  lemma AllPairsCons(parts: seq<string>)
    requires |parts| % 2 == 0 && parts != []
    ensures AllPairsParse(parts) <==> PairValue(parts[0], parts[1]).Success? && AllPairsParse(parts[2..])
  {
    var rest := parts[2..];
    if AllPairsParse(parts) {
      assert PairValue(parts[2 * 0], parts[2 * 0 + 1]).Success?;
      forall j | 0 <= j < |rest| / 2 ensures PairValue(rest[2 * j], rest[2 * j + 1]).Success? {
        assert rest[2 * j] == parts[2 * (j + 1)] && rest[2 * j + 1] == parts[2 * (j + 1) + 1];
      }
    }
    if PairValue(parts[0], parts[1]).Success? && AllPairsParse(rest) {
      forall j | 0 <= j < |parts| / 2 ensures PairValue(parts[2 * j], parts[2 * j + 1]).Success? {
        if j > 0 {
          assert parts[2 * j] == rest[2 * (j - 1)] && parts[2 * j + 1] == rest[2 * (j - 1) + 1];
        }
      }
    }
  }

  /** What `reset_time_to_ms(s)` returns or raises. */
  function ResetTimeMs(s: string): (r: Result<int, ParseError>)
    ensures r == Failure(OddPieceCount) <==> |Pieces(s)| % 2 != 0
    ensures r.Success? <==> |Pieces(s)| % 2 == 0 && AllPairsParse(Pieces(s))
  {
    var parts := Pieces(s);
    if |parts| % 2 != 0 then Failure(OddPieceCount) else SumPairs(parts)
  }

  /** `reset_time_to_ms`: split, drop the empty pieces, check there is an even number of
      them, and accumulate over the pairs. */
  method ResetTimeToMs(resetTime: string) returns (r: Result<int, ParseError>)
    ensures r == ResetTimeMs(resetTime)
  {
    var parts := Pieces(resetTime);
    if |parts| % 2 != 0 {
      return Failure(OddPieceCount);
    }
    r := AccumulatePairs(parts);
  }

  /** The loop of `reset_time_to_ms`: `int` of each number times the factor of its unit,
      added up pair by pair, stopping at the first pair that raises. */
  method AccumulatePairs(parts: seq<string>) returns (r: Result<int, ParseError>)
    requires |parts| % 2 == 0
    ensures r == SumPairs(parts)
  {
    var result := 0;
    for i := 0 to |parts| / 2
      invariant SumPairs(parts) == Shift(result, SumPairs(parts[2 * i..]))
    {
      SumPairsStep(parts, i);
      var number := ParseInt(parts[2 * i]);
      if number.None? {
        return Failure(NotAnInteger(parts[2 * i]));
      }
      var numberType := parts[2 * i + 1];
      if numberType !in RATIO {
        return Failure(UnknownUnit(numberType));
      }
      result := result + number.value * RATIO[numberType];
    }
    assert parts[2 * (|parts| / 2)..] == [];
    return Success(result);
  }

  /** One turn of the loop: the pairs from `i` on are pair `i` followed by the pairs after it. */
  lemma SumPairsStep(parts: seq<string>, i: nat)
    requires |parts| % 2 == 0 && i < |parts| / 2
    ensures 2 * i + 1 < |parts|
    ensures SumPairs(parts[2 * i..]) == match PairValue(parts[2 * i], parts[2 * i + 1])
      case Failure(e) => Failure(e)
      case Success(v) => Shift(v, SumPairs(parts[2 * (i + 1)..]))
  {
    var p := parts[2 * i..];
    assert p[0] == parts[2 * i] && p[1] == parts[2 * i + 1];
    assert p[2..] == parts[2 * (i + 1)..];
  }

  // ---------------------------------------------------------------------------------
  // The unit table and the split

  /** The table holds exactly the five delimiters of the pattern, and each unit is the
      previous one times its conversion factor. */
  lemma RatioTable()
    ensures RATIO.Keys == {"ms", "s", "m", "h", "d"}
    ensures RATIO["ms"] == 1 && RATIO["s"] == 1000 * RATIO["ms"] && RATIO["m"] == 60 * RATIO["s"]
    ensures RATIO["h"] == 60 * RATIO["m"] && RATIO["d"] == 24 * RATIO["h"]
  {
  }

  lemma JoinCons(a: string, rest: seq<string>)
    ensures Join([a] + rest) == a + Join(rest)
  {
    assert ([a] + rest)[1..] == rest;
  }

  lemma JoinSplitUnit(s: string)
    requires UnitLength(s) > 0
    ensures Join(Split(s)) == s[..UnitLength(s)] + Join(Split(s[UnitLength(s)..]))
  {
    var n := UnitLength(s);
    var rest := Split(s[n..]);
    assert Split(s) == [""] + ([s[..n]] + rest);
    JoinCons("", [s[..n]] + rest);
    JoinCons(s[..n], rest);
  }

  lemma JoinUnfold(parts: seq<string>)
    requires parts != []
    ensures Join(parts) == parts[0] + Join(parts[1..])
  {
  }

  lemma PrependAssoc(c: char, a: string, b: string)
    ensures ([c] + a) + b == [c] + (a + b)
  {
  }

  lemma JoinGlue(c: char, rest: seq<string>)
    requires rest != []
    ensures Join([[c] + rest[0]] + rest[1..]) == [c] + Join(rest)
  {
    JoinCons([c] + rest[0], rest[1..]);
    JoinUnfold(rest);
    PrependAssoc(c, rest[0], Join(rest[1..]));
  }

  lemma JoinSplitText(s: string)
    requires s != [] && UnitLength(s) == 0
    ensures Join(Split(s)) == [s[0]] + Join(Split(s[1..]))
  {
    var rest := Split(s[1..]);
    assert Split(s) == [[s[0]] + rest[0]] + rest[1..];
    JoinGlue(s[0], rest);
  }

  /** Splitting loses nothing: the pieces joined back together are the input. */
  lemma {:induction false} SplitJoin(s: string)
    ensures Join(Split(s)) == s
    decreases |s|
  {
    if s == [] {
    } else if UnitLength(s) > 0 {
      var n := UnitLength(s);
      JoinSplitUnit(s);
      SplitJoin(s[n..]);
      TakeDrop(s, n);
    } else {
      JoinSplitText(s);
      SplitJoin(s[1..]);
      TakeDrop(s, 1);
      assert s[..1] == [s[0]];
    }
  }

  lemma TakeDrop(s: string, n: nat)
    requires n <= |s|
    ensures s[..n] + s[n..] == s
  {
  }

  /** `ms` is one delimiter, never `m` followed by `s`. */
  lemma MsIsOneUnit(x: string)
    ensures Split("ms" + x) == ["", "ms"] + Split(x)
  {
    var s := "ms" + x;
    assert UnitLength(s) == 2;
    assert s[..2] == "ms" && s[2..] == x;
  }

  // ---------------------------------------------------------------------------------
  // The `KeyError` on the unit table cannot happen

  /** No two neighbouring pieces are both outside the unit table. */
  predicate Separated(p: seq<string>) {
    forall i :: 0 <= i < |p| - 1 ==> p[i] in RATIO || p[i + 1] in RATIO
  }

  /** A sequence shaped like a split: odd length, a unit at every odd position. */
  predicate UnitsAtOdd(r: seq<string>) {
    |r| % 2 == 1 && forall i :: 0 <= i < |r| && i % 2 == 1 ==> r[i] in RATIO
  }

  lemma SeparatedCons(x: string, w: seq<string>)
    requires Separated(w)
    requires x in RATIO || w == [] || w[0] in RATIO
    ensures Separated([x] + w)
  {
    var p := [x] + w;
    forall i | 0 <= i < |p| - 1
      ensures p[i] in RATIO || p[i + 1] in RATIO
    {
      if i > 0 {
        assert p[i] == w[i - 1] && p[i + 1] == w[i];
      }
    }
  }

  lemma SplitUnitsAtOdd(s: string)
    ensures UnitsAtOdd(Split(s))
  {
    SplitShape(s);
  }

  lemma {:induction false} NonEmptyOfSplitShape(r: seq<string>)
    requires UnitsAtOdd(r)
    ensures Separated(NonEmpty(r))
    ensures |r| > 1 ==> NonEmpty(r[1..]) != [] && NonEmpty(r[1..])[0] == r[1]
    decreases |r|
  {
    if |r| > 1 {
      var tail := r[2..];
      assert UnitsAtOdd(tail) by {
        forall i | 0 <= i < |tail| && i % 2 == 1
          ensures tail[i] in RATIO
        {
          assert tail[i] == r[i + 2];
        }
      }
      NonEmptyOfSplitShape(tail);
      assert r[1] in RATIO;
      assert r[1..][1..] == tail;
      assert NonEmpty(r[1..]) == [r[1]] + NonEmpty(tail);
      SeparatedCons(r[1], NonEmpty(tail));
      if r[0] != "" {
        SeparatedCons(r[0], NonEmpty(r[1..]));
      }
    }
  }

  lemma ParsedIsNotUnit(p: string)
    requires ParseInt(p).Some?
    ensures p !in RATIO
  {
  }

  lemma {:induction false} SumPairsNoUnknownUnit(p: seq<string>)
    requires |p| % 2 == 0 && Separated(p)
    ensures !SumPairs(p).Failure? || !SumPairs(p).error.UnknownUnit?
    decreases |p|
  {
    if p != [] {
      if ParseInt(p[0]).Some? {
        ParsedIsNotUnit(p[0]);
        assert p[1] in RATIO;
        var tail := p[2..];
        assert Separated(tail) by {
          forall i | 0 <= i < |tail| - 1
            ensures tail[i] in RATIO || tail[i + 1] in RATIO
          {
            assert tail[i] == p[i + 2] && tail[i + 1] == p[i + 3];
          }
        }
        SumPairsNoUnknownUnit(tail);
      }
    }
  }

  /** Every unit position the loop reaches holds a unit: the lookup in `_RATIO` never
      raises `KeyError`, so the only errors are the assertion and `int`. */
  lemma NeverUnknownUnit(s: string)
    ensures ResetTimeMs(s).Failure? ==> ResetTimeMs(s).error.OddPieceCount? || ResetTimeMs(s).error.NotAnInteger?
  {
    SplitUnitsAtOdd(s);
    NonEmptyOfSplitShape(Split(s));
    if |Pieces(s)| % 2 == 0 {
      SumPairsNoUnknownUnit(Pieces(s));
    }
  }

  // ---------------------------------------------------------------------------------
  // Well-formed durations: digit runs each followed by a unit

  datatype Term = Term(digits: string, unit: string)

  predicate ValidTerm(t: Term) {
    |t.digits| > 0 && AllDigits(t.digits) && t.unit in RATIO
  }

  predicate ValidTerms(ts: seq<Term>) {
    forall i :: 0 <= i < |ts| ==> ValidTerm(ts[i])
  }

  /** The compact form OpenAI writes: each term's digits followed by its unit. */
  function Render(ts: seq<Term>): string {
    if ts == [] then "" else ts[0].digits + ts[0].unit + Render(ts[1..])
  }

  /** The duration the terms denote, in milliseconds. */
  function Total(ts: seq<Term>): int
    requires ValidTerms(ts)
  {
    if ts == [] then 0 else DigitsValue(ts[0].digits) * RATIO[ts[0].unit] + Total(ts[1..])
  }

  /** The pieces a rendering splits into: digits, unit, digits, unit, ... */
  function Flatten(ts: seq<Term>): (r: seq<string>)
    ensures |r| == 2 * |ts|
  {
    if ts == [] then [] else [ts[0].digits, ts[0].unit] + Flatten(ts[1..])
  }

  lemma {:induction false} SplitText(d: string, x: string)
    requires IsText(d)
    ensures Split(d + x) == [d + Split(x)[0]] + Split(x)[1..]
    decreases |d|
  {
    if d != [] {
      var s := d + x;
      assert s != [] && s[0] == d[0];
      assert UnitLength(s) == 0;
      assert s[1..] == d[1..] + x;
      SplitText(d[1..], x);
      var rest := Split(s[1..]);
      assert rest[0] == d[1..] + Split(x)[0] && rest[1..] == Split(x)[1..];
      assert [s[0]] + (d[1..] + Split(x)[0]) == d + Split(x)[0];
    } else {
      assert d + x == x;
      assert d + Split(x)[0] == Split(x)[0];
      assert [Split(x)[0]] + Split(x)[1..] == Split(x);
    }
  }

  lemma SplitUnit(u: string, x: string)
    requires u in RATIO
    requires x == [] || !(x[0] == 's')
    ensures Split(u + x) == ["", u] + Split(x)
  {
    var s := u + x;
    assert UnitLength(s) == |u|;
    assert s[..|u|] == u && s[|u|..] == x;
  }

  lemma NonEmptyCons(a: string, rest: seq<string>)
    requires a != ""
    ensures NonEmpty([a] + rest) == [a] + NonEmpty(rest)
  {
    assert ([a] + rest)[1..] == rest;
  }

  lemma ValidTail(ts: seq<Term>)
    requires ValidTerms(ts) && ts != []
    ensures ValidTerm(ts[0]) && ValidTerms(ts[1..])
  {
    assert ValidTerm(ts[0]);
    forall i | 0 <= i < |ts[1..]| ensures ValidTerm(ts[1..][i]) { assert ts[1..][i] == ts[i + 1]; }
  }

  /** A rendering starts with a digit, so a final `m` before it is never read as `ms`. */
  lemma RenderStartsWithDigit(ts: seq<Term>)
    requires ValidTerms(ts)
    ensures Render(ts) == [] || IsDigit(Render(ts)[0])
  {
    if ts != [] {
      ValidTail(ts);
      assert Render(ts) == ts[0].digits + (ts[0].unit + Render(ts[1..]));
    }
  }

  /** A digit run, a unit, and text that cannot extend the unit split into those two and
      the split of the rest. */
  lemma SplitDigitsUnit(x: string, d: string, u: string, tail: string)
    requires IsText(d) && u in RATIO
    requires tail == [] || tail[0] != 's'
    requires x == d + (u + tail)
    ensures Split(x) == [d, u] + Split(tail)
  {
    SplitUnit(u, tail);
    SplitText(d, u + tail);
    GlueEmptyHead(d, u, Split(u + tail), Split(tail));
  }

  lemma GlueEmptyHead(d: string, u: string, a: seq<string>, b: seq<string>)
    requires a == ["", u] + b
    ensures [d + a[0]] + a[1..] == [d, u] + b
  {
    assert a[0] == "" && a[1..] == [u] + b;
    assert d + a[0] == d;
  }

  lemma RenderHead(ts: seq<Term>)
    requires ts != []
    ensures Render(ts) == ts[0].digits + (ts[0].unit + Render(ts[1..]))
  {
  }

  lemma RenderHeadShape(ts: seq<Term>)
    requires ValidTerms(ts) && ts != []
    ensures IsText(ts[0].digits) && ts[0].unit in RATIO
    ensures Render(ts[1..]) == [] || Render(ts[1..])[0] != 's'
  {
    ValidTail(ts);
    RenderStartsWithDigit(ts[1..]);
  }

  lemma SplitRenderCons(ts: seq<Term>)
    requires ValidTerms(ts) && ts != []
    ensures Split(Render(ts)) == [ts[0].digits, ts[0].unit] + Split(Render(ts[1..]))
  {
    RenderHead(ts);
    RenderHeadShape(ts);
    SplitDigitsUnit(Render(ts), ts[0].digits, ts[0].unit, Render(ts[1..]));
  }

  lemma {:induction false} SplitOfRender(ts: seq<Term>)
    requires ValidTerms(ts)
    ensures Split(Render(ts)) == Flatten(ts) + [""]
    decreases |ts|
  {
    if ts != [] {
      ValidTail(ts);
      SplitOfRender(ts[1..]);
      SplitRenderCons(ts);
    } else {
      SplitOfEmpty();
    }
  }

  lemma {:induction false} NonEmptyOfFlatten(ts: seq<Term>)
    requires ValidTerms(ts)
    ensures NonEmpty(Flatten(ts) + [""]) == Flatten(ts)
    decreases |ts|
  {
    if ts != [] {
      ValidTail(ts);
      NonEmptyOfFlatten(ts[1..]);
      var rest := Flatten(ts[1..]) + [""];
      assert Flatten(ts) + [""] == [ts[0].digits] + ([ts[0].unit] + rest);
      NonEmptyCons(ts[0].unit, rest);
      NonEmptyCons(ts[0].digits, [ts[0].unit] + rest);
    } else {
      assert Flatten(ts) + [""] == [""];
    }
  }

  /** A duration in the compact form splits into exactly its digit runs and units. */
  lemma PiecesOfRender(ts: seq<Term>)
    requires ValidTerms(ts)
    ensures Pieces(Render(ts)) == Flatten(ts)
  {
    SplitOfRender(ts);
    NonEmptyOfFlatten(ts);
  }

  lemma {:induction false} SumOfFlatten(ts: seq<Term>)
    requires ValidTerms(ts)
    ensures SumPairs(Flatten(ts)) == Success(Total(ts))
    decreases |ts|
  {
    if ts != [] {
      var rest := ts[1..];
      ValidTail(ts);
      SumOfFlatten(rest);
      var f := Flatten(ts);
      assert f[0] == ts[0].digits && f[1] == ts[0].unit && f[2..] == Flatten(rest);
    }
  }

  /** Round trip: a duration written in the compact form reads back as the duration it
      denotes, never negative. */
  lemma RenderRoundTrip(ts: seq<Term>)
    requires ValidTerms(ts)
    ensures ResetTimeMs(Render(ts)) == Success(Total(ts))
    ensures Total(ts) >= 0
  {
    PiecesOfRender(ts);
    var parts := Flatten(ts);
    assert |parts| % 2 == 0 by { FlattenEven(ts); }
    SumOfFlatten(ts);
    assert ResetTimeMs(Render(ts)) == SumPairs(parts);
    TotalNonNegative(ts);
  }

  lemma FlattenEven(ts: seq<Term>)
    ensures |Flatten(ts)| % 2 == 0
  {
    var k := |ts|;
    assert |Flatten(ts)| == k + k;
  }

  lemma {:induction false} TotalNonNegative(ts: seq<Term>)
    requires ValidTerms(ts)
    ensures Total(ts) >= 0
    decreases |ts|
  {
    if ts != [] {
      ValidTail(ts);
      TotalNonNegative(ts[1..]);
    }
  }

  lemma {:induction false} RenderAppend(a: seq<Term>, b: seq<Term>)
    ensures Render(a + b) == Render(a) + Render(b)
    decreases |a|
  {
    if a != [] {
      assert (a + b)[0] == a[0] && (a + b)[1..] == a[1..] + b;
      RenderAppend(a[1..], b);
    } else {
      assert a + b == b;
    }
  }

  lemma {:induction false} TotalAppend(a: seq<Term>, b: seq<Term>)
    requires ValidTerms(a) && ValidTerms(b)
    ensures ValidTerms(a + b) && Total(a + b) == Total(a) + Total(b)
    decreases |a|
  {
    assert ValidTerms(a + b) by {
      forall i | 0 <= i < |a + b| ensures ValidTerm((a + b)[i]) {
        if i < |a| { assert (a + b)[i] == a[i]; } else { assert (a + b)[i] == b[i - |a|]; }
      }
    }
    if a != [] {
      assert (a + b)[0] == a[0] && (a + b)[1..] == a[1..] + b;
      assert ValidTerms(a[1..]) by {
        forall i | 0 <= i < |a[1..]| ensures ValidTerm(a[1..][i]) { assert a[1..][i] == a[i + 1]; }
      }
      TotalAppend(a[1..], b);
    } else {
      assert a + b == b;
    }
  }

  /** For well-formed durations `a` and `b`, the duration of `a + b` is the sum of theirs. */
  lemma ParseConcat(a: seq<Term>, b: seq<Term>)
    requires ValidTerms(a) && ValidTerms(b)
    ensures ResetTimeMs(Render(a) + Render(b)) == Success(Total(a) + Total(b))
    ensures ResetTimeMs(Render(a)).Success? && ResetTimeMs(Render(b)).Success?
    ensures ResetTimeMs(Render(a) + Render(b)).value
            == ResetTimeMs(Render(a)).value + ResetTimeMs(Render(b)).value
  {
    RenderAppend(a, b);
    TotalAppend(a, b);
    RenderRoundTrip(a + b);
    RenderRoundTrip(a);
    RenderRoundTrip(b);
  }

  // ---------------------------------------------------------------------------------
  // The strings the module's documentation names, and the failure cases

  /** The terms of `0s100ms`. */
  lemma ZeroSecondsHundredMsTerms(ts: seq<Term>)
    requires ts == [Term("0", "s"), Term("100", "ms")]
    ensures ValidTerms(ts) && Render(ts) == "0s100ms" && Total(ts) == 100
  {
    assert DigitsValue("100") == 100 by {
      assert "100"[..2] == "10" && "10"[..1] == "1";
    }
    var tail := ts[1..];
    assert tail == [Term("100", "ms")] && tail[1..] == [];
    assert ValidTerms(tail);
    assert Render(tail) == "100" + "ms" + Render([]);
    assert Render(ts) == "0" + "s" + Render(tail);
    assert "0" + "s" + ("100" + "ms" + "") == "0s100ms";
    assert Total(tail) == DigitsValue("100") * RATIO["ms"] + Total([]);
    assert Total(ts) == DigitsValue("0") * RATIO["s"] + Total(tail);
  }

  /** `0s100ms` is 100: `ms` is read before `m` and `s`. */
  lemma ExampleZeroSecondsHundredMs(s: string)
    requires s == "0s100ms"
    ensures ResetTimeMs(s) == Success(100)
  {
    var ts := [Term("0", "s"), Term("100", "ms")];
    ZeroSecondsHundredMsTerms(ts);
    RenderRoundTrip(ts);
  }

  /** The terms of `3s10ms`. */
  lemma ThreeSecondsTenMsTerms(ts: seq<Term>)
    requires ts == [Term("3", "s"), Term("10", "ms")]
    ensures ValidTerms(ts) && Render(ts) == "3s10ms" && Total(ts) == 3010
  {
    assert DigitsValue("10") == 10 by {
      assert "10"[..1] == "1";
    }
    var tail := ts[1..];
    assert tail == [Term("10", "ms")] && tail[1..] == [];
    assert ValidTerms(tail);
    assert Render(tail) == "10" + "ms" + Render([]);
    assert Render(ts) == "3" + "s" + Render(tail);
    assert "3" + "s" + ("10" + "ms" + "") == "3s10ms";
    assert Total(tail) == DigitsValue("10") * RATIO["ms"] + Total([]);
    assert Total(ts) == DigitsValue("3") * RATIO["s"] + Total(tail);
  }

  /** `3s10ms` is 3010. */
  lemma ExampleThreeSecondsTenMs(s: string)
    requires s == "3s10ms"
    ensures ResetTimeMs(s) == Success(3010)
  {
    var ts := [Term("3", "s"), Term("10", "ms")];
    ThreeSecondsTenMsTerms(ts);
    RenderRoundTrip(ts);
  }

  /** `1m` is one minute. */
  lemma ExampleOneMinute(s: string)
    requires s == "1m"
    ensures ResetTimeMs(s) == Success(60000)
  {
    var ts := [Term("1", "m")];
    OneMinuteTerms(ts);
    RenderRoundTrip(ts);
  }

  /** The terms of `1m`. */
  lemma OneMinuteTerms(ts: seq<Term>)
    requires ts == [Term("1", "m")]
    ensures ValidTerms(ts) && Render(ts) == "1m" && Total(ts) == 60000
  {
    assert ts[1..] == [];
    assert Render(ts) == "1" + "m" + Render([]);
    assert "1" + "m" + "" == "1m";
    assert Total(ts) == DigitsValue("1") * RATIO["m"] + Total([]);
  }

  /** The empty string has no pairs and reads as 0. */
  lemma EmptyIsZero(s: string)
    requires s == ""
    ensures ResetTimeMs(s) == Success(0)
  {
    SplitOfEmpty();
    assert Pieces(s) == [];
  }

  /** An odd number of pieces fails the assertion: a number without a unit. */
  lemma NumberWithoutUnitFails(s: string)
    requires s == "5"
    ensures ResetTimeMs(s) == Failure(OddPieceCount)
  {
    NumberWithoutUnitPieces(s);
  }

  lemma NumberWithoutUnitPieces(s: string)
    requires s == "5"
    ensures Pieces(s) == ["5"]
  {
    SplitOfEmpty();
    SplitText("5", "");
    assert "5" + "" == "5";
    assert Split("5") == ["5"];
  }

  /** An odd number of pieces fails the assertion: a unit without a number. */
  lemma UnitWithoutNumberFails(s: string)
    requires s == "ms"
    ensures ResetTimeMs(s) == Failure(OddPieceCount)
  {
    UnitWithoutNumberPieces(s);
  }

  lemma UnitWithoutNumberPieces(s: string)
    requires s == "ms"
    ensures Pieces(s) == ["ms"]
  {
    SplitOfEmpty();
    MsIsOneUnit("");
    assert "ms" + "" == "ms";
    assert Split("ms") == ["", "ms", ""];
  }

  /** An odd number of pieces fails the assertion: a repeated unit. */
  lemma RepeatedUnitFails(s: string)
    requires s == "1msms"
    ensures ResetTimeMs(s) == Failure(OddPieceCount)
  {
    RepeatedUnitPieces(s);
  }

  lemma RepeatedUnitPieces(s: string)
    requires s == "1msms"
    ensures Pieces(s) == ["1", "ms", "ms"]
  {
    SplitOfEmpty();
    MsIsOneUnit("");
    assert "ms" + "" == "ms";
    MsIsOneUnit("ms");
    assert "ms" + "ms" == "msms";
    assert Split("msms") == ["", "ms", "", "ms", ""];
    SplitText("1", "msms");
    assert "1" + "msms" == "1msms";
    assert "1" + "" == "1";
    assert Split("1msms") == ["1", "ms", "", "ms", ""];
  }

  /** A number position that is not an integer fails in `int`: a decimal fraction. */
  lemma FractionFails(s: string)
    requires s == "1.5s"
    ensures ResetTimeMs(s) == Failure(NotAnInteger("1.5"))
  {
    FractionPieces(s);
    assert ParseInt("1.5") == None by {
      assert !IsDigit("1.5"[1]);
    }
  }

  lemma FractionPieces(s: string)
    requires s == "1.5s"
    ensures Pieces(s) == ["1.5", "s"]
  {
    SplitOfEmpty();
    SplitUnit("s", "");
    assert "s" + "" == "s";
    SplitText("1.5", "s");
    assert "1.5" + "s" == "1.5s";
    assert "1.5" + "" == "1.5";
    assert Split("1.5s") == ["1.5", "s", ""];
  }

  /** A number position that is not an integer fails in `int`: the unit comes first. */
  lemma UnitFirstFails(s: string)
    requires s == "s5"
    ensures ResetTimeMs(s) == Failure(NotAnInteger("s"))
  {
    UnitFirstPieces(s);
  }

  lemma UnitFirstPieces(s: string)
    requires s == "s5"
    ensures Pieces(s) == ["s", "5"]
  {
    SplitOfEmpty();
    SplitText("5", "");
    assert "5" + "" == "5";
    assert Split("5") == ["5"];
    SplitUnit("s", "5");
    assert "s" + "5" == "s5";
    assert Split("s5") == ["", "s", "5"];
  }
}
