/** The advanced search of the vector-based version (seqinfo_double.cpp,
    `getParamPair` and `advanced`): the prompt answers become a query, which
    is evaluated over a range of vector positions of read-only data. */
module DoubleAdvanced {
  import opened Records
  import opened DoubleData

  /** `getParamPair<T>`: two values are taken as given; one value v gives
      (v, v), or (minFirst, v) when `oneToMin`; no value gives (minFirst,
      default2). A single value equal to the type maximum `tmax` is the
      "nothing read" marker and also gives the defaults. Then the first is
      raised to minFirst and, unless max2 is `tmax`, the second lowered to
      max2. `lt` is the type's `<`. */
  function ParamPair<T(==)>(e: Entry<T>, minFirst: T, default2: T, max2: T, tmax: T, oneToMin: bool,
                            lt: (T, T) -> bool): (T, T)
  {
    var (first, second) :=
      match e
      case Two(x, y) => (x, y)
      case One(v) => if v != tmax then (if oneToMin then minFirst else v, v) else (minFirst, default2)
      case Blank => (minFirst, default2);
    (if lt(first, minFirst) then minFirst else first,
     if max2 != tmax && lt(max2, second) then max2 else second)
  }

  /** For an irreflexive `<`: the first is never below minFirst, the second
      never above a max2 other than the type maximum, and answers already
      within those bounds come back as the documented pairs. */
  lemma ParamPairSpec<T>(e: Entry<T>, minFirst: T, default2: T, max2: T, tmax: T, oneToMin: bool,
                             lt: (T, T) -> bool)
    requires forall x :: !lt(x, x)
    ensures !lt(ParamPair(e, minFirst, default2, max2, tmax, oneToMin, lt).0, minFirst)
    ensures max2 != tmax ==> !lt(max2, ParamPair(e, minFirst, default2, max2, tmax, oneToMin, lt).1)
    ensures e.Two? && !lt(e.x, minFirst) && (max2 == tmax || !lt(max2, e.y)) ==>
              ParamPair(e, minFirst, default2, max2, tmax, oneToMin, lt) == (e.x, e.y)
    ensures e.One? && e.x != tmax && !lt(e.x, minFirst) && (max2 == tmax || !lt(max2, e.x)) ==>
              ParamPair(e, minFirst, default2, max2, tmax, oneToMin, lt) == (if oneToMin then minFirst else e.x, e.x)
    ensures (e.Blank? || (e.One? && e.x == tmax)) && (max2 == tmax || !lt(max2, default2)) ==>
              ParamPair(e, minFirst, default2, max2, tmax, oneToMin, lt) == (minFirst, default2)
  {
  }

  /** The largest `int32_t`. */
  const Int32Max: int := 0x7fff_ffff

  function Pow2(n: nat): nat {
    if n == 0 then 1 else 2 * Pow2(n - 1)
  }

  /** The largest finite `double`, (2 - 2^-52) * 2^1023. `getParamPair` uses
      it only as the "nothing read" marker and as the cap that is never
      applied: with max2 equal to it, the second value is not capped. */
  const DoubleMax: real := (Pow2(1024) - Pow2(971)) as real

  function IntPair(e: Entry<int>, minFirst: int, default2: int, max2: int, oneToMin: bool): (int, int) {
    ParamPair(e, minFirst, default2, max2, Int32Max, oneToMin, (x: int, y: int) => x < y)
  }

  function CountSpan(e: Entry<int>, default2: int): Span {
    var (lo, hi) := IntPair(e, 0, default2, Int32Max, false);
    Span(lo, hi)
  }

  function RatioSpan(e: Entry<real>): RealSpan {
    var (lo, hi) := ParamPair(e, 0.0, 10000.0, DoubleMax, DoubleMax, false, (x: real, y: real) => x < y);
    RealSpan(lo, hi)
  }

  /** The termination-kind answer: p prime (1), o open (0), c cycle (-1),
      any other character all (2). */
  function KindFromChar(c: char): int {
    match c
    case 'p' => 1
    case 'o' => 0
    case 'c' => -1
    case _ => 2
  }

  /** The answers to the advanced prompts, in prompt order. */
  datatype DoubleForm = DoubleForm(
    modulus: Entry<int>, range: Entry<int>, kind: char,
    iterations: Entry<int>, minima: Entry<int>, maxima: Entry<int>, parity: Entry<int>,
    evenAbundant: Entry<int>, evenDeficient: Entry<int>, oddDeficient: Entry<int>,
    oddAbundant: Entry<int>, downdrivers: Entry<int>,
    minRatio: Entry<real>, maxRatio: Entry<real>, arithRatio: Entry<real>,
    geoRatio: Entry<real>, minDigits: Entry<real>, maxDigits: Entry<real>)

  /** The parameter handling of `advanced` for a vector of `size` records:
      the modulus and range are bounded by indexMax = size - 1, a position
      count rather than a sequence number. */
  function Normalize(f: DoubleForm, size: int): Query
    requires 1 <= size && size - 1 < Int32Max
  {
    var indexMax := size - 1;
    var (a, b) := IntPair(f.modulus, 0, 1, indexMax, true);
    var (c, d) := IntPair(f.range, 2, indexMax, indexMax, false);
    Query(
      a, b, c, d,
      KindFromChar(f.kind),
      CountSpan(f.iterations, 3000),
      CountSpan(f.minima, 10000), CountSpan(f.maxima, 10000), CountSpan(f.parity, 10000),
      CountSpan(f.evenAbundant, 10000), CountSpan(f.evenDeficient, 10000),
      CountSpan(f.oddDeficient, 10000), CountSpan(f.oddAbundant, 10000),
      CountSpan(f.downdrivers, 10000),
      RatioSpan(f.minRatio), RatioSpan(f.maxRatio), RatioSpan(f.arithRatio),
      RatioSpan(f.geoRatio), RatioSpan(f.minDigits), RatioSpan(f.maxDigits))
  }

  /** After normalisation a >= 0, b <= indexMax, the range lies within
      2 .. indexMax, and every lower bound is at least 0. */
  lemma NormalizeBounds(f: DoubleForm, size: int)
    requires 1 <= size && size - 1 < Int32Max
    ensures var q := Normalize(f, size);
            && q.modA >= 0 && q.modB <= size - 1 && q.first >= 2 && q.last <= size - 1
            && q.iterations.lo >= 0 && q.minima.lo >= 0 && q.maxima.lo >= 0 && q.parity.lo >= 0
            && q.evenAbundant.lo >= 0 && q.evenDeficient.lo >= 0 && q.oddDeficient.lo >= 0
            && q.oddAbundant.lo >= 0 && q.downdrivers.lo >= 0
            && q.minRatio.lo >= 0.0 && q.maxRatio.lo >= 0.0 && q.arithRatio.lo >= 0.0
            && q.geoRatio.lo >= 0.0 && q.minDigits.lo >= 0.0 && q.maxDigits.lo >= 0.0
  {
  }

  /** The range never ends past position size - 1. */
  lemma NormalizeLast(f: DoubleForm, size: int)
    requires 1 <= size && size - 1 < Int32Max
    ensures Normalize(f, size).last <= size - 1
  {
    NormalizeBounds(f, size);
  }

  predicate AllBlank(f: DoubleForm) {
    && f.modulus.Blank? && f.range.Blank?
    && f.iterations.Blank? && f.minima.Blank? && f.maxima.Blank? && f.parity.Blank?
    && f.evenAbundant.Blank? && f.evenDeficient.Blank? && f.oddDeficient.Blank?
    && f.oddAbundant.Blank? && f.downdrivers.Blank?
    && f.minRatio.Blank? && f.maxRatio.Blank? && f.arithRatio.Blank?
    && f.geoRatio.Blank? && f.minDigits.Blank? && f.maxDigits.Blank?
  }

  /** With every range answer empty: 0 (mod 1) over positions 2 .. size - 1,
      iterations 0 .. 3000 and every other column 0 .. 10000. */
  lemma NormalizeDefaults(f: DoubleForm, size: int)
    requires AllBlank(f) && f.kind !in {'p', 'o', 'c'} && 2 <= size && size - 1 < Int32Max
    ensures Normalize(f, size) == Query(0, 1, 2, size - 1, 2,
      Span(0, 3000), Span(0, 10000), Span(0, 10000), Span(0, 10000), Span(0, 10000),
      Span(0, 10000), Span(0, 10000), Span(0, 10000), Span(0, 10000),
      RealSpan(0.0, 10000.0), RealSpan(0.0, 10000.0), RealSpan(0.0, 10000.0),
      RealSpan(0.0, 10000.0), RealSpan(0.0, 10000.0), RealSpan(0.0, 10000.0))
  {
  }

  /** The sequence numbers of the records at positions lo .. hi - 1 that
      pass the query, in position order. */
  function Reported(lines: seq<Line>, tags: seq<bool>, q: Query, chained: bool, lo: int, hi: int): seq<int>
    requires q.modB != 0 && 0 <= lo <= hi <= |lines| && |tags| == |lines|
    decreases hi
  {
    if hi == lo then []
    else
      Reported(lines, tags, q, chained, lo, hi - 1)
      + (if Passes(q, lines[hi - 1].elA, lines[hi - 1].row, tags[hi - 1], chained) then [lines[hi - 1].elA] else [])
  }

  /** A number is reported iff some position in range holds it and passes. */
  lemma {:induction false} ReportedSpec(lines: seq<Line>, tags: seq<bool>, q: Query, chained: bool, lo: int, hi: int)
    requires q.modB != 0 && 0 <= lo <= hi <= |lines| && |tags| == |lines|
    ensures forall n :: n in Reported(lines, tags, q, chained, lo, hi) <==>
              exists p :: lo <= p < hi && lines[p].elA == n && Passes(q, n, lines[p].row, tags[p], chained)
    decreases hi
  {
    if hi > lo {
      ReportedSpec(lines, tags, q, chained, lo, hi - 1);
    }
  }

  /** Every element of r is below b. */
  predicate AllBelow(r: seq<int>, b: int) {
    forall k :: 0 <= k < |r| ==> r[k] < b
  }

  predicate StrictlyIncreasing(r: seq<int>) {
    forall k, l :: 0 <= k < l < |r| ==> r[k] < r[l]
  }

  /** Every number reported from positions lo .. hi - 1 of a table without
      holes is below shift + hi, and they increase. */
  lemma {:induction false} ReportedAscending(lines: seq<Line>, tags: seq<bool>, q: Query, chained: bool, shift: int, lo: int, hi: int)
    requires q.modB != 0 && Contiguous(lines, shift) && |tags| == |lines| && 0 <= lo <= hi <= |lines|
    ensures AllBelow(Reported(lines, tags, q, chained, lo, hi), shift + hi)
    ensures StrictlyIncreasing(Reported(lines, tags, q, chained, lo, hi))
    decreases hi
  {
    if hi > lo {
      ReportedAscending(lines, tags, q, chained, shift, lo, hi - 1);
      assert lines[hi - 1].elA == shift + hi - 1;
    }
  }

  /** On a table without holes the search over positions first - shift ..
      hi - 1 reports exactly the sequence numbers first .. shift + hi - 1
      whose records pass, each once and in increasing order. */
  lemma ReportedContiguous(lines: seq<Line>, tags: seq<bool>, q: Query, chained: bool, shift: int, lo: int, hi: int)
    requires q.modB != 0 && Contiguous(lines, shift) && |tags| == |lines|
    requires lo == q.first - shift && 0 <= lo <= hi <= |lines|
    ensures forall n :: n in Reported(lines, tags, q, chained, lo, hi) <==>
              q.first <= n < shift + hi && Passes(q, n, lines[n - shift].row, tags[n - shift], chained)
    ensures StrictlyIncreasing(Reported(lines, tags, q, chained, lo, hi))
    ensures AllBelow(Reported(lines, tags, q, chained, lo, hi), shift + hi)
  {
    ReportedSpec(lines, tags, q, chained, lo, hi);
    ReportedAscending(lines, tags, q, chained, shift, lo, hi);
    var r := Reported(lines, tags, q, chained, lo, hi);
    forall n | q.first <= n < shift + hi && Passes(q, n, lines[n - shift].row, tags[n - shift], chained)
      ensures n in r
    {
      assert lines[n - shift].elA == n;
    }
  }

  /** The numbers `advanced` reports for the query q on a vector whose
      first record is sequence `shift`: positions q.first - shift through
      q.last - shift. */
  function AdvancedReport(lines: seq<Line>, tags: seq<bool>, q: Query, chained: bool, shift: int): seq<int>
    requires q.modB != 0 && 0 <= q.first - shift <= q.last - shift + 1 <= |lines| && |tags| == |lines|
  {
    Reported(lines, tags, q, chained, q.first - shift, q.last - shift + 1)
  }

  /** The range is bounded by size - 1, a position count: with indexShift
      above zero, the last indexShift sequences of a table without holes
      are never reported. */
  lemma AdvancedUnreachableTail(lines: seq<Line>, tags: seq<bool>, q: Query, chained: bool, shift: int)
    requires q.modB != 0 && Contiguous(lines, shift) && |tags| == |lines|
    requires 0 <= q.first - shift <= q.last - shift + 1 <= |lines| && q.last <= |lines| - 1
    ensures AllBelow(AdvancedReport(lines, tags, q, chained, shift), |lines|)
  {
    ReportedAscending(lines, tags, q, chained, shift, q.first - shift, q.last - shift + 1);
  }

  /** The counting loop of `advanced`: each record in the range that
      passes is reported and counted, in position order. */
  method Report(lines: seq<Line>, tags: seq<bool>, q: Query, chained: bool, shift: int)
    returns (matches: seq<int>, rcount: int)
    requires q.modB != 0 && 0 <= q.first - shift <= q.last - shift + 1 <= |lines| && |tags| == |lines|
    ensures matches == AdvancedReport(lines, tags, q, chained, shift)
    ensures rcount == |matches|
  {
    var lo, hi := q.first - shift, q.last - shift + 1;
    matches := [];
    rcount := 0;
    var p := lo;
    while p < hi
      invariant lo <= p <= hi
      invariant matches == Reported(lines, tags, q, chained, lo, p)
      invariant rcount == |matches|
    {
      var line := lines[p];
      if Passes(q, line.elA, line.row, tags[p], chained) {
        matches := matches + [line.elA];
        rcount := rcount + 1;
      }
      p := p + 1;
    }
  }

  /** `advanced` on read-only data: the query is normalised, then the
      records at positions c - indexShift .. d - indexShift are tested in
      order and the sequence numbers of those that pass are reported and
      counted. Requires a range the iterators can span (c at least
      indexShift, c at most d + 1), a non-zero modulus, and a vector whose
      size - 1 fits in `int32_t`. */
  method Advanced(data: ReginaData, f: DoubleForm, uselist: bool) returns (q: Query, matches: seq<int>, rcount: int)
    requires data.Valid()
    requires 1 <= |data.regina| && |data.regina| - 1 < Int32Max
    requires Normalize(f, |data.regina|).modB != 0
    requires data.indexShift <= Normalize(f, |data.regina|).first <= Normalize(f, |data.regina|).last + 1
    ensures q == Normalize(f, |data.regina|)
    ensures matches == AdvancedReport(data.regina, data.tags, q, uselist, data.indexShift)
    ensures rcount == |matches|
  {
    q := Normalize(f, |data.regina|);
    NormalizeLast(f, |data.regina|);
    matches, rcount := Report(data.regina, data.tags, q, uselist, data.indexShift);
  }
}
