/** The advanced search of the string-valued version (seqinfo.cpp,
    `advanced`): seventeen prompt answers are normalised into a query, which
    is then evaluated over a range of the table without writing any flag. */
module SeqInfoAdvanced {
  import opened Records

  /** The answers to the advanced prompts, in prompt order. */
  datatype Form = Form(
    modulus: Entry<int>, range: Entry<int>, kind: string,
    iterations: Entry<int>, minima: Entry<int>, maxima: Entry<int>, parity: Entry<int>,
    evenAbundant: Entry<int>, evenDeficient: Entry<int>, oddDeficient: Entry<int>,
    oddAbundant: Entry<int>, downdrivers: Entry<int>,
    minRatio: Entry<real>, maxRatio: Entry<real>, arithRatio: Entry<real>,
    geoRatio: Entry<real>, minDigits: Entry<real>, maxDigits: Entry<real>)

  /** The termination-kind selector from the first character of its answer:
      p prime (1), o open (0), c cycle (-1), anything else all (2). */
  function KindFromReply(s: string): (e: int)
    ensures |s| > 0 && s[0] == 'p' ==> e == 1
    ensures |s| > 0 && s[0] == 'o' ==> e == 0
    ensures |s| > 0 && s[0] == 'c' ==> e == -1
    ensures (|s| == 0 || (s[0] != 'p' && s[0] != 'o' && s[0] != 'c')) ==> e == 2
  {
    if |s| > 0 && s[0] == 'p' then 1
    else if |s| > 0 && s[0] == 'o' then 0
    else if |s| > 0 && s[0] == 'c' then -1
    else 2
  }

  /** An integer range answer: empty gives (0, defaultHi), one value v gives
      (v, v); the lower end is then raised to 0. */
  function CountSpan(e: Entry<int>, defaultHi: int): (r: Span)
    ensures r.lo >= 0
    ensures e.Blank? ==> r == Span(0, defaultHi)
    ensures e.One? && e.x >= 0 ==> r == Span(e.x, e.x)
    ensures e.Two? ==> r.hi == e.y && (e.x >= 0 ==> r.lo == e.x)
  {
    match e
    case Blank => Span(0, defaultHi)
    case One(v) => Span(if v < 0 then 0 else v, v)
    case Two(x, y) => Span(if x < 0 then 0 else x, y)
  }

  /** A floating-point range answer: empty gives (0, 10000), one value v
      gives (v, v); the lower end is then raised to 0. */
  function RatioSpan(e: Entry<real>): (r: RealSpan)
    ensures r.lo >= 0.0
    ensures e.Blank? ==> r == RealSpan(0.0, 10000.0)
    ensures e.One? && e.x >= 0.0 ==> r == RealSpan(e.x, e.x)
    ensures e.Two? ==> r.hi == e.y && (e.x >= 0.0 ==> r.lo == e.x)
  {
    match e
    case Blank => RealSpan(0.0, 10000.0)
    case One(v) => RealSpan(if v < 0.0 then 0.0 else v, v)
    case Two(x, y) => RealSpan(if x < 0.0 then 0.0 else x, y)
  }

  predicate AllBlank(f: Form) {
    && f.modulus.Blank? && f.range.Blank? && f.kind == ""
    && f.iterations.Blank? && f.minima.Blank? && f.maxima.Blank? && f.parity.Blank?
    && f.evenAbundant.Blank? && f.evenDeficient.Blank? && f.oddDeficient.Blank?
    && f.oddAbundant.Blank? && f.downdrivers.Blank?
    && f.minRatio.Blank? && f.maxRatio.Blank? && f.arithRatio.Blank?
    && f.geoRatio.Blank? && f.minDigits.Blank? && f.maxDigits.Blank?
  }

  /** The modulus answer: empty gives 0 (mod 1), one value b gives 0 (mod b);
      a is then raised to 0 and b lowered to seqscount - 1. */
  function ModulusPair(e: Entry<int>, seqscount: int): (r: (int, int))
    ensures r.0 >= 0 && r.1 <= seqscount - 1
    ensures e.Blank? ==> r == (0, Min(1, seqscount - 1))
    ensures e.One? ==> r == (0, Min(e.x, seqscount - 1))
    ensures e.Two? ==> r == (Max(e.x, 0), Min(e.y, seqscount - 1))
  {
    match e
    case Blank => (0, Min(1, seqscount - 1))
    case One(b) => (0, Min(b, seqscount - 1))
    case Two(a, b) => (Max(a, 0), Min(b, seqscount - 1))
  }

  /** The range answer: empty gives the whole table 2 .. seqscount - 1, one
      value v gives v .. v; the ends are then clamped into the table. */
  function RangePair(e: Entry<int>, seqscount: int): (r: (int, int))
    ensures r.0 >= 2 && r.1 <= seqscount - 1
    ensures e.Blank? ==> r == (2, seqscount - 1)
    ensures e.One? && 2 <= e.x <= seqscount - 1 ==> r == (e.x, e.x)
    ensures e.Two? ==> r == (Max(e.x, 2), Min(e.y, seqscount - 1))
  {
    match e
    case Blank => (2, seqscount - 1)
    case One(v) => (Max(v, 2), Min(v, seqscount - 1))
    case Two(c, d) => (Max(c, 2), Min(d, seqscount - 1))
  }

  /** The downdriver answer: like any count range, except that a single value
      u gives the upper end `s`, the lower odd-abundant bound, not u. */
  function DowndriverSpan(e: Entry<int>, s: int): (r: Span)
    ensures r.lo >= 0
    ensures e.Blank? ==> r == Span(0, 10000)
    ensures e.One? && e.x >= 0 ==> r == Span(e.x, s)
    ensures e.Two? ==> r.hi == e.y && (e.x >= 0 ==> r.lo == e.x)
  {
    match e
    case Blank => Span(0, 10000)
    case One(u) => Span(Max(u, 0), s)
    case Two(u, v) => Span(Max(u, 0), v)
  }

  /** The parameter handling of `advanced` for a table whose last sequence is
      seqscount - 1. */
  function Normalize(f: Form, seqscount: int): (q: Query)
    ensures q.modA >= 0 && q.modB <= seqscount - 1
    ensures q.first >= 2 && q.last <= seqscount - 1
    ensures (q.modA, q.modB) == ModulusPair(f.modulus, seqscount)
    ensures (q.first, q.last) == RangePair(f.range, seqscount)
    ensures q.kind == KindFromReply(f.kind)
    ensures q.oddAbundant == CountSpan(f.oddAbundant, 10000)
    ensures q.downdrivers == DowndriverSpan(f.downdrivers, q.oddAbundant.lo)
    ensures q.iterations == CountSpan(f.iterations, 30000)
    ensures q.minima.lo >= 0 && q.maxima.lo >= 0 && q.parity.lo >= 0
    ensures q.evenAbundant.lo >= 0 && q.evenDeficient.lo >= 0 && q.oddDeficient.lo >= 0
    ensures q.minRatio.lo >= 0.0 && q.maxRatio.lo >= 0.0 && q.arithRatio.lo >= 0.0
    ensures q.geoRatio.lo >= 0.0 && q.minDigits.lo >= 0.0 && q.maxDigits.lo >= 0.0
  {
    var (a, b) := ModulusPair(f.modulus, seqscount);
    var (c, d) := RangePair(f.range, seqscount);
    var oddAbundant := CountSpan(f.oddAbundant, 10000);
    Query(
      a, b, c, d,
      KindFromReply(f.kind),
      CountSpan(f.iterations, 30000),
      CountSpan(f.minima, 10000), CountSpan(f.maxima, 10000), CountSpan(f.parity, 10000),
      CountSpan(f.evenAbundant, 10000), CountSpan(f.evenDeficient, 10000),
      CountSpan(f.oddDeficient, 10000), oddAbundant,
      DowndriverSpan(f.downdrivers, oddAbundant.lo),
      RatioSpan(f.minRatio), RatioSpan(f.maxRatio), RatioSpan(f.arithRatio),
      RatioSpan(f.geoRatio), RatioSpan(f.minDigits), RatioSpan(f.maxDigits))
  }

  /** With every answer left empty, the query is the documented default:
      0 (mod 1) over the whole table, all kinds, iterations 0 .. 30000 and
      every other column 0 .. 10000. */
  lemma NormalizeDefaults(f: Form, seqscount: int)
    requires AllBlank(f) && seqscount >= 2
    ensures Normalize(f, seqscount) == Query(0, 1, 2, seqscount - 1, 2,
      Span(0, 30000), Span(0, 10000), Span(0, 10000), Span(0, 10000), Span(0, 10000),
      Span(0, 10000), Span(0, 10000), Span(0, 10000), Span(0, 10000),
      RealSpan(0.0, 10000.0), RealSpan(0.0, 10000.0), RealSpan(0.0, 10000.0),
      RealSpan(0.0, 10000.0), RealSpan(0.0, 10000.0), RealSpan(0.0, 10000.0))
  {
  }

  /** The sequence numbers q.first .. hi whose rows pass the query, in the
      order the scan meets them. */
  function Selected(rows: seq<Row<string>>, tags: seq<bool>, q: Query, chained: bool, hi: int): seq<int>
    requires q.first <= hi ==> q.modB != 0 && 0 <= q.first && hi < |rows| && hi < |tags|
    decreases hi - q.first
  {
    if hi < q.first then []
    else
      Selected(rows, tags, q, chained, hi - 1)
      + (if Passes(q, hi, rows[hi], tags[hi], chained) then [hi] else [])
  }

  /** The selection holds exactly the sequence numbers of q.first .. hi whose
      rows pass, each once and in increasing order. */
  lemma {:induction false} SelectedSpec(rows: seq<Row<string>>, tags: seq<bool>, q: Query, chained: bool, hi: int)
    requires q.first <= hi ==> q.modB != 0 && 0 <= q.first && hi < |rows| && hi < |tags|
    ensures var r := Selected(rows, tags, q, chained, hi);
            && (forall k :: 0 <= k < |r| ==> q.first <= r[k] <= hi)
            && (forall i :: i in r <==> q.first <= i <= hi && Passes(q, i, rows[i], tags[i], chained))
            && (forall k, l :: 0 <= k < l < |r| ==> r[k] < r[l])
    decreases hi - q.first
  {
    if hi >= q.first {
      SelectedSpec(rows, tags, q, chained, hi - 1);
    }
  }

  /** One more sequence number extends the selection by it exactly when its
      row passes. */
  lemma {:induction false} SelectedNext(rows: seq<Row<string>>, tags: seq<bool>, q: Query, chained: bool, hi: int, show: bool)
    requires q.modB != 0 && 0 <= q.first <= hi < |rows| && hi < |tags|
    requires show == Passes(q, hi, rows[hi], tags[hi], chained)
    ensures Selected(rows, tags, q, chained, hi) == Selected(rows, tags, q, chained, hi - 1) + (if show then [hi] else [])
  {
  }

  /** A chained search returns only flagged rows, each of which the same
      query without chaining also returns. */
  lemma ChainedWithinTagged(rows: seq<Row<string>>, tags: seq<bool>, q: Query, hi: int)
    requires q.first <= hi ==> q.modB != 0 && 0 <= q.first && hi < |rows| && hi < |tags|
    ensures forall i :: i in Selected(rows, tags, q, true, hi) ==>
              q.first <= i <= hi && tags[i] && i in Selected(rows, tags, q, false, hi)
  {
    SelectedSpec(rows, tags, q, true, hi);
    SelectedSpec(rows, tags, q, false, hi);
  }

  /** The row test of the filter loop, in the order the source applies it:
      each failed check clears `show`, and later checks run only while it is
      still set. */
  method RowShown(q: Query, i: int, row: Row<string>, tagged: bool, uselist: bool) returns (show: bool)
    requires q.modB != 0
    ensures show == Passes(q, i, row, tagged, uselist)
  {
    show := true;
    if q.modA != CRem(i, q.modB) { show := false; }
    if show && uselist && !tagged { show := false; }
    if show && q.kind == -1 && row.elB > -1 { show := false; }
    if show && q.kind != row.elB && q.kind != 2 { show := false; }
    if show && !InSpan(row.elC, q.iterations) { show := false; }
    if show && !InSpan(row.elG, q.minima) { show := false; }
    if show && !InSpan(row.elH, q.maxima) { show := false; }
    if show && !InSpan(row.elI, q.parity) { show := false; }
    if show && !InSpan(row.elJ, q.evenAbundant) { show := false; }
    if show && !InSpan(row.elK, q.evenDeficient) { show := false; }
    if show && !InSpan(row.elL, q.oddDeficient) { show := false; }
    if show && !InSpan(row.elM, q.oddAbundant) { show := false; }
    if show && !InSpan(row.elN, q.downdrivers) { show := false; }
    if show && !InRealSpan(row.elO, q.minRatio) { show := false; }
    if show && !InRealSpan(row.elP, q.maxRatio) { show := false; }
    if show && !InRealSpan(row.elQ, q.arithRatio) { show := false; }
    if show && !InRealSpan(row.elR, q.geoRatio) { show := false; }
    if show && !InRealSpan(row.elS, q.minDigits) { show := false; }
    if show && !InRealSpan(row.elT, q.maxDigits) { show := false; }
  }

  /** The filter loop of `advanced`: every sequence of q.first .. q.last is
      tested in order; the flags are read (when chained) but never written. */
  method Filter(seqd: array<Row<string>>, ulist: array<bool>, seqscount: int, q: Query, uselist: bool)
    returns (matches: seq<int>, rcount: int)
    requires ulist.Length == seqd.Length && seqscount <= seqd.Length
    requires 2 <= q.first && q.last <= seqscount - 1
    requires q.first <= q.last ==> q.modB != 0
    ensures matches == Selected(seqd[..], ulist[..], q, uselist, q.last)
    ensures rcount == |matches|
  {
    ghost var rows, tags := seqd[..], ulist[..];
    matches, rcount := [], 0;
    var i := q.first;
    while i <= q.last
      invariant q.first <= i && (q.first <= q.last ==> i <= q.last + 1)
      invariant q.first > q.last ==> i == q.first
      invariant matches == Selected(rows, tags, q, uselist, i - 1)
      invariant rcount == |matches|
    {
      var row, tagged := seqd[i], ulist[i];
      assert row == rows[i] && tagged == tags[i];
      var show := RowShown(q, i, row, tagged, uselist);
      SelectedNext(rows, tags, q, uselist, i, show);
      if show {
        matches := matches + [i];
        rcount := rcount + 1;
      }
      i := i + 1;
    }
  }

  /** `advanced` as a whole: the answers are normalised, then the filter runs
      over the normalised range. */
  method Advanced(seqd: array<Row<string>>, ulist: array<bool>, seqscount: int, f: Form, uselist: bool)
    returns (q: Query, matches: seq<int>, rcount: int)
    requires ulist.Length == seqd.Length && seqscount <= seqd.Length
    requires Normalize(f, seqscount).first <= Normalize(f, seqscount).last ==> Normalize(f, seqscount).modB != 0
    ensures q == Normalize(f, seqscount)
    ensures matches == Selected(seqd[..], ulist[..], q, uselist, q.last)
    ensures rcount == |matches|
  {
    q := Normalize(f, seqscount);
    matches, rcount := Filter(seqd, ulist, seqscount, q, uselist);
  }
}
