/** Values shared by both versions of the aliquot-sequence query tool: one row
    of statistics, the advanced-search query, and the row predicate that the
    advanced search evaluates. */
module Records {

  /** The statistics kept for one sequence. `D` is the representation of the
      terminal value elD (a decimal string in one version, an exact integer in
      the other). elA is kept by the version that stores it; elE and elF are
      never read by the core and are not modelled. */
  datatype Row<D> = Row(
    elB: int,   // termination kind: < 0 cycle, 0 open ended, 1 prime
    elC: int,   // number of iterations
    elD: D,     // cycle entry, smallest merged sequence, or terminating prime
    elG: int,   // relative minima
    elH: int,   // relative maxima
    elI: int,   // parity changes
    elJ: int,   // record run of even abundant terms
    elK: int,   // record run of even deficient terms
    elL: int,   // record run of odd deficient terms
    elM: int,   // record run of odd abundant terms
    elN: int,   // downdriver extracts
    elO: real,  // smallest quotient of consecutive terms
    elP: real,  // largest quotient of consecutive terms
    elQ: real,  // arithmetic mean of the quotients
    elR: real,  // geometric mean of the quotients
    elS: real,  // mean digit count of the minima
    elT: real)  // mean digit count of the maxima

  datatype Option<T> = None | Some(value: T)

  /** An inclusive interval test `lo <= x <= hi` on an integer column. */
  datatype Span = Span(lo: int, hi: int)

  /** An inclusive interval test on a floating-point column. */
  datatype RealSpan = RealSpan(lo: real, hi: real)

  /** The normalised parameters of one advanced search: the sequence range
      [first, last], the filter `n % modB == modA`, the termination-kind
      selector and the fifteen column intervals. */
  datatype Query = Query(
    modA: int, modB: int,
    first: int, last: int,
    kind: int,
    iterations: Span,
    minima: Span, maxima: Span, parity: Span,
    evenAbundant: Span, evenDeficient: Span, oddDeficient: Span, oddAbundant: Span,
    downdrivers: Span,
    minRatio: RealSpan, maxRatio: RealSpan, arithRatio: RealSpan,
    geoRatio: RealSpan, minDigits: RealSpan, maxDigits: RealSpan)

  predicate InSpan(x: int, s: Span) {
    !(x < s.lo || x > s.hi)
  }

  predicate InRealSpan(x: real, s: RealSpan) {
    !(x < s.lo || x > s.hi)
  }

  function Abs(x: int): nat {
    if x < 0 then -x else x
  }

  function Min(x: int, y: int): int {
    if x <= y then x else y
  }

  function Max(x: int, y: int): int {
    if x >= y then x else y
  }

  /** The C++ `%` on integers: the remainder takes the sign of the dividend
      (division truncates toward zero), unlike Dafny's Euclidean `%`. */
  function CRem(x: int, y: int): (r: int)
    requires y != 0
    ensures Abs(r) < Abs(y)
    ensures x >= 0 ==> r >= 0
    ensures x <= 0 ==> r <= 0
    ensures (x - r) % Abs(y) == 0
  {
    var m := Abs(y);
    if x >= 0 then
      RemainderMultiple(x, m, 1);
      x % m
    else
      RemainderMultiple(-x, m, -1);
      -((-x) % m)
  }

  /** Removing the remainder from z, with either sign, leaves a multiple
      of m. */
  lemma RemainderMultiple(z: int, m: nat, sign: int)
    requires 0 < m && (sign == 1 || sign == -1)
    ensures (sign * (z - z % m)) % m == 0
  {
    assert z - z % m == z / m * m;
    assert sign * (z - z % m) == (sign * (z / m)) * m;
    MultipleMod(sign * (z / m), m);
  }

  /** A multiple of m leaves no remainder. */
  lemma MultipleMod(q: int, m: nat)
    requires 0 < m
    ensures (q * m) % m == 0
  {
    var x := q * m;
    var d := q - x / m;
    assert x == x / m * m + x % m;
    assert d * m == x % m;
  }

  /** The termination-kind selector: 2 accepts every row; otherwise the row's
      elB must equal the selector, and selector -1 additionally rejects any
      elB above -1. */
  predicate KindPasses(e: int, elB: int) {
    !(e == -1 && elB > -1) && !(e != elB && e != 2)
  }

  /** The advanced-search test for the row of sequence `n`. `tagged` is the
      row's result-list flag, consulted only when the search is chained. */
  predicate Passes<D>(q: Query, n: int, row: Row<D>, tagged: bool, chained: bool)
    requires q.modB != 0
  {
    && q.modA == CRem(n, q.modB)
    && !(chained && !tagged)
    && KindPasses(q.kind, row.elB)
    && InSpan(row.elC, q.iterations)
    && InSpan(row.elG, q.minima)
    && InSpan(row.elH, q.maxima)
    && InSpan(row.elI, q.parity)
    && InSpan(row.elJ, q.evenAbundant)
    && InSpan(row.elK, q.evenDeficient)
    && InSpan(row.elL, q.oddDeficient)
    && InSpan(row.elM, q.oddAbundant)
    && InSpan(row.elN, q.downdrivers)
    && InRealSpan(row.elO, q.minRatio)
    && InRealSpan(row.elP, q.maxRatio)
    && InRealSpan(row.elQ, q.arithRatio)
    && InRealSpan(row.elR, q.geoRatio)
    && InRealSpan(row.elS, q.minDigits)
    && InRealSpan(row.elT, q.maxDigits)
  }

  /** What each selector value accepts: all rows, exactly one kind, and for
      the cycle selector only elB == -1 (not every negative kind). */
  lemma KindSelector(e: int, elB: int)
    ensures e == 2 ==> KindPasses(e, elB)
    ensures e == 1 || e == 0 ==> (KindPasses(e, elB) <==> elB == e)
    ensures e == -1 ==> (KindPasses(e, elB) <==> elB == -1)
    ensures e == -1 && elB < -1 ==> !KindPasses(e, elB)
  {
  }

  /** A chained search never accepts a row whose result-list flag is clear. */
  lemma ChainedNeedsTag<D>(q: Query, n: int, row: Row<D>, tagged: bool)
    requires q.modB != 0
    ensures Passes(q, n, row, tagged, true) ==> tagged
    ensures Passes(q, n, row, tagged, true) ==> Passes(q, n, row, tagged, false)
  {
  }

  /** Number of set flags. */
  function CountTrue(s: seq<bool>): (r: nat)
    ensures r <= |s|
  {
    if s == [] then 0 else CountTrue(s[..|s| - 1]) + (if s[|s| - 1] then 1 else 0)
  }

  lemma {:induction false} CountTrueAllFalse(s: seq<bool>)
    requires forall i :: 0 <= i < |s| ==> !s[i]
    ensures CountTrue(s) == 0
  {
    if s != [] {
      CountTrueAllFalse(s[..|s| - 1]);
    }
  }

  /** Sign of the termination kind, the key of the prime/open/cycle counters. */
  function Sign(x: int): (r: int)
    ensures r == -1 || r == 0 || r == 1
    ensures (r > 0 <==> x > 0) && (r == 0 <==> x == 0) && (r < 0 <==> x < 0)
  {
    if x > 0 then 1 else if x == 0 then 0 else -1
  }

  /** The flags an equality scan leaves: row k is flagged when its terminal
      value is `v`. */
  function Matches<D(==)>(rows: seq<Row<D>>, v: D): (r: seq<bool>)
    ensures |r| == |rows|
    ensures forall k :: 0 <= k < |rows| ==> r[k] == (rows[k].elD == v)
  {
    seq(|rows|, k requires 0 <= k < |rows| => rows[k].elD == v)
  }

  /** A row holding `v` is among the flagged ones, so a scan for the value of
      one of its own rows finds at least that row. */
  lemma {:induction false} MatchesSelf<D>(rows: seq<Row<D>>, k: int)
    requires 0 <= k < |rows|
    ensures CountTrue(Matches(rows, rows[k].elD)) >= 1
  {
    var m := Matches(rows, rows[k].elD);
    if k < |rows| - 1 {
      MatchesSelf(rows[..|rows| - 1], k);
      assert m[..|m| - 1] == Matches(rows[..|rows| - 1], rows[k].elD);
    }
  }

  /** `std::string::find` of one character from position `from`: the first
      position at or after `from` holding `ch`, or None for `npos` (also when
      `from` is past the end). */
  function FindFrom(s: string, ch: char, from: nat): (r: Option<nat>)
    ensures r.Some? ==> from <= r.value < |s| && s[r.value] == ch
    ensures r.Some? ==> forall i :: from <= i < r.value ==> s[i] != ch
    ensures r.None? ==> forall i :: from <= i < |s| ==> s[i] != ch
    decreases |s| - from
  {
    if from >= |s| then None
    else if s[from] == ch then Some(from)
    else FindFrom(s, ch, from + 1)
  }

  /** Appending one flag adds one to the count exactly when it is set. */
  lemma {:induction false} CountTrueSnoc(s: seq<bool>, b: bool)
    ensures CountTrue(s + [b]) == CountTrue(s) + (if b then 1 else 0)
  {
    assert (s + [b])[..|s|] == s;
  }

  /** Scanning one more row extends the flags by that row's test. */
  lemma {:induction false} MatchesNext<D>(rows: seq<Row<D>>, lo: int, j: int, v: D)
    requires 0 <= lo <= j < |rows|
    ensures Matches(rows[lo..j + 1], v) == Matches(rows[lo..j], v) + [rows[j].elD == v]
    ensures CountTrue(Matches(rows[lo..j + 1], v)) == CountTrue(Matches(rows[lo..j], v)) + (if rows[j].elD == v then 1 else 0)
  {
    CountTrueSnoc(Matches(rows[lo..j], v), rows[j].elD == v);
  }

  /** The flags a membership scan leaves: row k is flagged when its terminal
      value is in `s`. */
  function InSet<D(==)>(rows: seq<Row<D>>, s: set<D>): (r: seq<bool>)
    ensures |r| == |rows|
    ensures forall k :: 0 <= k < |rows| ==> r[k] == (rows[k].elD in s)
  {
    seq(|rows|, k requires 0 <= k < |rows| => rows[k].elD in s)
  }

  /** Scanning one more row extends the flags by that row's test, and the
      count by one exactly when it is flagged. */
  lemma {:induction false} InSetNext<D>(rows: seq<Row<D>>, lo: int, j: int, s: set<D>)
    requires 0 <= lo <= j < |rows|
    ensures InSet(rows[lo..j + 1], s) == InSet(rows[lo..j], s) + [rows[j].elD in s]
    ensures CountTrue(InSet(rows[lo..j + 1], s)) == CountTrue(InSet(rows[lo..j], s)) + (if rows[j].elD in s then 1 else 0)
  {
    CountTrueSnoc(InSet(rows[lo..j], s), rows[j].elD in s);
  }

  /** One prompt answer after numeric conversion: no value, one value, or
      two values. */
  datatype Entry<T> = Blank | One(x: T) | Two(x: T, y: T)

  /** The flag sequence written slot by slot, read back as slices. */
  lemma FlagsFromPointwise<D>(u: seq<bool>, saved: seq<bool>, rows: seq<Row<D>>, lo: int, hi: int, v: D)
    requires 0 <= lo <= hi <= |u| == |saved| <= |rows|
    requires forall t :: 0 <= t < |u| ==> u[t] == if lo <= t < hi then rows[t].elD == v else saved[t]
    ensures u[lo..hi] == Matches(rows[lo..hi], v)
    ensures u[..lo] == saved[..lo] && u[hi..] == saved[hi..]
  {
  }

  /** The size of `size_t`: unsigned arithmetic on positions wraps modulo
      this. */
  const SizeT: int := 0x1_0000_0000_0000_0000

  /** `a - b` on `size_t` operands below `SizeT`: a negative difference
      wraps to a huge length. */
  function SizeSub(a: nat, b: nat): (r: nat)
    requires a < SizeT && b < SizeT
    ensures r < SizeT && (r == a - b || r == a - b + SizeT)
  {
    if a >= b then a - b else SizeT - (b - a)
  }

  /** `a + b` on `size_t` operands below `SizeT`: a sum past the largest
      value wraps around to a small one. */
  function SizeAdd(a: nat, b: nat): (r: nat)
    requires a < SizeT && b < SizeT
    ensures r < SizeT && (r == a + b || r == a + b - SizeT)
  {
    if a + b < SizeT then a + b else a + b - SizeT
  }

  /** `npos`, what `find` returns when the character does not occur. */
  const Npos: int := SizeT - 1

  /** `std::string::substr(pos, len)`: None when `pos` is past the end (the
      library throws), otherwise at most `len` characters from `pos`. */
  function Substr(s: string, pos: nat, len: nat): (r: Option<string>)
    ensures r.None? <==> pos > |s|
    ensures r.Some? ==> pos + |r.value| <= |s| && |r.value| <= len && r.value == s[pos..pos + |r.value|]
    ensures r.Some? && pos + len >= |s| ==> r.value == s[pos..]
    ensures r.Some? && pos + len < |s| ==> r.value == s[pos..pos + len]
  {
    if pos > |s| then None
    else if len < |s| - pos then Some(s[pos..pos + len])
    else Some(s[pos..])
  }
}
