/** The prime-termination listing of the string-valued version
    (seqinfo.cpp, `primeslist`): distinct terminating primes are gathered
    with their counts, then bubble-sorted by length and, for equal length,
    lexicographically, which for decimal strings is numeric order. */
module SeqInfoPrimes {
  import opened Records

  /** One entry of the listing: a terminating prime and how many sequences
      end with it (the source keeps the two in parallel arrays that are
      always swapped together). */
  datatype Tally = Tally(value: string, count: int)

  /** Rows that terminate with the prime `v`. */
  function PrimeCount(rows: seq<Row<string>>, v: string): nat {
    if rows == [] then 0
    else
      var r := rows[|rows| - 1];
      PrimeCount(rows[..|rows| - 1], v) + (if r.elB == 1 && r.elD == v then 1 else 0)
  }

  /** Rows that terminate with a prime. */
  function PrimeTotal(rows: seq<Row<string>>): nat {
    if rows == [] then 0
    else PrimeTotal(rows[..|rows| - 1]) + (if rows[|rows| - 1].elB == 1 then 1 else 0)
  }

  /** The sum of the counts of a listing. */
  function TallyTotal(t: seq<Tally>): int {
    if t == [] then 0 else TallyTotal(t[..|t| - 1]) + t[|t| - 1].count
  }

  predicate Distinct(t: seq<Tally>) {
    forall i, j :: 0 <= i < j < |t| ==> t[i].value != t[j].value
  }

  /** A prime counted at least once is the terminal value of some prime row. */
  lemma {:induction false} PrimeCountWitness(rows: seq<Row<string>>, v: string)
    requires PrimeCount(rows, v) > 0
    ensures exists k :: 0 <= k < |rows| && rows[k].elB == 1 && rows[k].elD == v
  {
    var r := rows[|rows| - 1];
    if !(r.elB == 1 && r.elD == v) {
      PrimeCountWitness(rows[..|rows| - 1], v);
      var k :| 0 <= k < |rows| - 1 && rows[..|rows| - 1][k].elB == 1 && rows[..|rows| - 1][k].elD == v;
      assert rows[k] == rows[..|rows| - 1][k];
    }
  }

  /** Replacing one entry changes the total by the difference of the counts. */
  lemma {:induction false} TallyTotalUpdate(t: seq<Tally>, k: int, x: Tally)
    requires 0 <= k < |t|
    ensures TallyTotal(t[k := x]) == TallyTotal(t) - t[k].count + x.count
  {
    if k < |t| - 1 {
      TallyTotalUpdate(t[..|t| - 1], k, x);
      assert t[k := x][..|t| - 1] == t[..|t| - 1][k := x];
    } else {
      assert t[k := x][..|t| - 1] == t[..|t| - 1];
    }
  }

  /** Strict lexicographic order on character codes, a proper prefix first:
      `LexLess(x, y)` is `x.compare(y) < 0`. */
  predicate LexLess(x: string, y: string) {
    if |x| == 0 then |y| > 0
    else if |y| == 0 then false
    else x[0] < y[0] || (x[0] == y[0] && LexLess(x[1..], y[1..]))
  }

  lemma {:induction false} LexLessIrreflexive(x: string)
    ensures !LexLess(x, x)
  {
    if |x| > 0 {
      LexLessIrreflexive(x[1..]);
    }
  }

  lemma {:induction false} LexLessTransitive(x: string, y: string, z: string)
    requires LexLess(x, y) && LexLess(y, z)
    ensures LexLess(x, z)
  {
    if |x| > 0 && |y| > 0 && |z| > 0 && x[0] == y[0] == z[0] {
      LexLessTransitive(x[1..], y[1..], z[1..]);
    }
  }

  /** Any two different strings are ordered one way. */
  lemma {:induction false} LexLessTotal(x: string, y: string)
    requires x != y
    ensures LexLess(x, y) || LexLess(y, x)
  {
    if |x| > 0 && |y| > 0 && x[0] == y[0] {
      assert x == [x[0]] + x[1..] && y == [y[0]] + y[1..];
      LexLessTotal(x[1..], y[1..]);
    }
  }

  /** The order of the listing: shorter strings first, then lexicographic. */
  predicate KeyLess(x: string, y: string) {
    |x| < |y| || (|x| == |y| && LexLess(x, y))
  }

  /** `x` may precede `y` in the sorted listing. */
  predicate KeyLe(x: string, y: string) {
    !KeyLess(y, x)
  }

  lemma {:induction false} KeyLeReflexive(x: string)
    ensures KeyLe(x, x)
  {
    LexLessIrreflexive(x);
  }

  lemma {:induction false} KeyLeTransitive(x: string, y: string, z: string)
    requires KeyLe(x, y) && KeyLe(y, z)
    ensures KeyLe(x, z)
  {
    if KeyLess(z, x) && x != y && y != z {
      // the three have one length, and x < y < z < x lexicographically
      LexLessTotal(x, y);
      LexLessTotal(y, z);
      LexLessTransitive(x, y, z);
      LexLessTransitive(x, z, x);
      LexLessIrreflexive(x);
    }
  }

  /** Of two strings, one may always precede the other. */
  lemma {:induction false} KeyLeTotal(x: string, y: string)
    requires !KeyLe(x, y)
    ensures KeyLe(y, x)
  {
    if |x| == |y| && LexLess(x, y) {
      LexLessTransitive(y, x, y);
      LexLessIrreflexive(y);
    }
  }

  predicate Sorted(t: seq<Tally>) {
    forall k, l :: 0 <= k < l < |t| ==> KeyLe(t[k].value, t[l].value)
  }

  lemma {:induction false} PrimeCountSnoc(rows: seq<Row<string>>, r: Row<string>, v: string)
    ensures PrimeCount(rows + [r], v) == PrimeCount(rows, v) + (if r.elB == 1 && r.elD == v then 1 else 0)
    ensures PrimeTotal(rows + [r]) == PrimeTotal(rows) + (if r.elB == 1 then 1 else 0)
  {
    assert (rows + [r])[..|rows|] == rows;
  }

  /** `t` is the listing of the prime-terminated rows of `rows`: distinct
      primes, each with its number of rows, every such row's prime present,
      and the counts adding up to the number of such rows. */
  ghost predicate Listing(t: seq<Tally>, rows: seq<Row<string>>) {
    Distinct(t) && CountsMatch(t, rows) && Covered(t, rows) && TallyTotal(t) == PrimeTotal(rows)
  }

  /** Every entry counts the rows that end with its prime, at least one. */
  ghost predicate CountsMatch(t: seq<Tally>, rows: seq<Row<string>>) {
    forall k :: 0 <= k < |t| ==> t[k].count == PrimeCount(rows, t[k].value) >= 1
  }

  /** The prime of every prime-terminated row has an entry. */
  ghost predicate Covered(t: seq<Tally>, rows: seq<Row<string>>) {
    forall m :: 0 <= m < |rows| && rows[m].elB == 1 ==> Listed(t, rows[m].elD)
  }

  predicate Listed(t: seq<Tally>, v: string) {
    exists k :: 0 <= k < |t| && t[k].value == v
  }

  /** `x` with its count raised by one if it is the entry for `v`. */
  function BumpOne(x: Tally, v: string): Tally {
    if x.value == v then x.(count := x.count + 1) else x
  }

  /** `t` with the count of every entry for `v` raised by one. */
  function Bumped(t: seq<Tally>, v: string): (r: seq<Tally>)
    ensures |r| == |t|
    ensures forall k :: 0 <= k < |t| ==> r[k] == BumpOne(t[k], v)
  {
    seq(|t|, k requires 0 <= k < |t| => BumpOne(t[k], v))
  }

  /** Bumping an entry that occurs once raises the total by exactly one. */
  lemma {:induction false} BumpedTotal(t: seq<Tally>, v: string)
    requires Distinct(t)
    ensures TallyTotal(Bumped(t, v)) == TallyTotal(t) + (if Listed(t, v) then 1 else 0)
  {
    if t != [] {
      var p := t[..|t| - 1];
      assert Bumped(t, v)[..|t| - 1] == Bumped(p, v);
      assert Distinct(p);
      BumpedTotal(p, v);
      if t[|t| - 1].value == v {
        assert !Listed(p, v) by {
          forall k | 0 <= k < |p|
            ensures p[k].value != v
          {
            assert p[k] == t[k];
          }
        }
      } else {
        assert Listed(t, v) <==> Listed(p, v) by {
          if Listed(t, v) {
            var k :| 0 <= k < |t| && t[k].value == v;
            assert p[k] == t[k];
          }
          if Listed(p, v) {
            var k :| 0 <= k < |p| && p[k].value == v;
            assert t[k] == p[k];
          }
        }
      }
    }
  }

  /** A listing that keeps the primes of `t` in place, and lists the prime
      of `r` if it is one, covers the rows with `r` added. */
  lemma {:induction false} CoveredNext(t: seq<Tally>, t': seq<Tally>, rows: seq<Row<string>>, r: Row<string>)
    requires Covered(t, rows) && |t| <= |t'|
    requires forall k :: 0 <= k < |t| ==> t'[k].value == t[k].value
    requires r.elB == 1 ==> Listed(t', r.elD)
    ensures Covered(t', rows + [r])
  {
    forall m | 0 <= m < |rows| + 1 && (rows + [r])[m].elB == 1
      ensures Listed(t', (rows + [r])[m].elD)
    {
      if m < |rows| {
        assert (rows + [r])[m] == rows[m];
        var k :| 0 <= k < |t| && t[k].value == rows[m].elD;
        assert t'[k].value == t[k].value;
      }
    }
  }

  lemma {:induction false} CountsSkip(t: seq<Tally>, rows: seq<Row<string>>, r: Row<string>)
    requires CountsMatch(t, rows) && r.elB != 1
    ensures CountsMatch(t, rows + [r])
  {
    forall k | 0 <= k < |t|
      ensures t[k].count == PrimeCount(rows + [r], t[k].value)
    {
      PrimeCountSnoc(rows, r, t[k].value);
    }
  }

  lemma {:induction false} CountsBump(t: seq<Tally>, rows: seq<Row<string>>, r: Row<string>)
    requires CountsMatch(t, rows) && r.elB == 1
    ensures CountsMatch(Bumped(t, r.elD), rows + [r])
  {
    var b := Bumped(t, r.elD);
    forall k | 0 <= k < |b|
      ensures b[k].count == PrimeCount(rows + [r], b[k].value) >= 1
    {
      PrimeCountSnoc(rows, r, t[k].value);
    }
  }

  lemma {:induction false} CountsAppend(t: seq<Tally>, rows: seq<Row<string>>, r: Row<string>)
    requires CountsMatch(t, rows) && r.elB == 1 && PrimeCount(rows, r.elD) == 0
    ensures CountsMatch(t + [Tally(r.elD, 1)], rows + [r])
  {
    var a := t + [Tally(r.elD, 1)];
    forall k | 0 <= k < |a|
      ensures a[k].count == PrimeCount(rows + [r], a[k].value) >= 1
    {
      PrimeCountSnoc(rows, r, a[k].value);
    }
  }

  /** A row that does not end in a prime leaves the listing as it is. */
  lemma {:induction false} ListingSkip(t: seq<Tally>, rows: seq<Row<string>>, r: Row<string>)
    requires Listing(t, rows) && r.elB != 1
    ensures Listing(t, rows + [r])
  {
    PrimeCountSnoc(rows, r, r.elD);
    CountsSkip(t, rows, r);
    CoveredNext(t, t, rows, r);
  }

  /** A row ending in a prime already listed bumps that prime's count. */
  lemma {:induction false} ListingBump(t: seq<Tally>, rows: seq<Row<string>>, r: Row<string>)
    requires Listing(t, rows) && r.elB == 1 && Listed(t, r.elD)
    ensures Listing(Bumped(t, r.elD), rows + [r])
  {
    var b := Bumped(t, r.elD);
    BumpedTotal(t, r.elD);
    PrimeCountSnoc(rows, r, r.elD);
    CountsBump(t, rows, r);
    var k :| 0 <= k < |t| && t[k].value == r.elD;
    assert b[k].value == r.elD;
    CoveredNext(t, b, rows, r);
  }

  /** A row ending in a prime not yet listed appends it with count 1. */
  lemma {:induction false} ListingAppend(t: seq<Tally>, rows: seq<Row<string>>, r: Row<string>)
    requires Listing(t, rows) && r.elB == 1 && !Listed(t, r.elD)
    ensures Listing(t + [Tally(r.elD, 1)], rows + [r])
  {
    var a := t + [Tally(r.elD, 1)];
    PrimeCountSnoc(rows, r, r.elD);
    if PrimeCount(rows, r.elD) > 0 {
      PrimeCountWitness(rows, r.elD);
      assert false;
    }
    CountsAppend(t, rows, r);
    assert a[|t|].value == r.elD;
    CoveredNext(t, a, rows, r);
    assert Distinct(a) by {
      forall i, j | 0 <= i < j < |a|
        ensures a[i].value != a[j].value
      {
        assert a[i] == t[i];
        if j < |t| {
          assert a[j] == t[j];
        }
      }
    }
    assert TallyTotal(a) == TallyTotal(t) + 1 by {
      assert a[..|a| - 1] == t;
    }
  }

  /** The inner scan of `primeslist`: every entry holding `v` has its count
      bumped (the scan does not stop at the first hit); `found` tells whether
      there was one. */
  method Bump(plist: array<Tally>, pcount: int, v: string) returns (found: bool)
    requires 0 <= pcount <= plist.Length
    modifies plist
    ensures found <==> exists k :: 0 <= k < pcount && old(plist[k]).value == v
    ensures plist[..pcount] == Bumped(old(plist[..pcount]), v)
    ensures plist[pcount..] == old(plist[pcount..])
  {
    ghost var saved := plist[..];
    found := false;
    var j := 0;
    while j < pcount
      invariant 0 <= j <= pcount
      invariant forall k :: 0 <= k < plist.Length ==> plist[k] == if k < j then BumpOne(saved[k], v) else saved[k]
      invariant found <==> exists k :: 0 <= k < j && saved[k].value == v
    {
      if v == plist[j].value {
        found := true;
        plist[j] := plist[j].(count := plist[j].count + 1);
      }
      j := j + 1;
    }
    assert plist[..pcount] == Bumped(saved[..pcount], v);
  }

  /** The first phase of `primeslist`: every prime-terminated row of
      2 .. seqscount - 1 either bumps the count of its prime or appends the
      prime with count 1, which yields the listing of those rows. */
  method Group(seqd: array<Row<string>>, seqscount: int) returns (plist: array<Tally>, pcount: int)
    requires 2 <= seqscount <= seqd.Length
    ensures fresh(plist) && 0 <= pcount <= plist.Length
    ensures Listing(plist[..pcount], seqd[2..seqscount])
  {
    plist := new Tally[seqd.Length](_ => Tally("", 0));
    pcount := 0;
    var i := 2;
    while i < seqscount
      invariant 2 <= i <= seqscount && 0 <= pcount <= i - 2
      invariant Listing(plist[..pcount], seqd[2..i])
    {
      pcount := GroupRow(plist, pcount, seqd[i], seqd[2..i]);
      assert seqd[2..i + 1] == seqd[2..i] + [seqd[i]];
      i := i + 1;
    }
  }

  /** One row of the first phase: the listing of `rows` becomes the listing
      of `rows + [r]`. */
  method GroupRow(plist: array<Tally>, pcount: int, r: Row<string>, ghost rows: seq<Row<string>>)
    returns (pcount': int)
    requires 0 <= pcount < plist.Length
    requires Listing(plist[..pcount], rows)
    modifies plist
    ensures pcount <= pcount' <= pcount + 1
    ensures Listing(plist[..pcount'], rows + [r])
  {
    ghost var t := plist[..pcount];
    pcount' := pcount;
    if r.elB == 1 {
      var found := Bump(plist, pcount, r.elD);
      if found {
        ListingBump(t, rows, r);
        assert plist[..pcount'] == Bumped(t, r.elD);
      } else {
        assert plist[..pcount] == t;
        ListingAppend(t, rows, r);
        plist[pcount] := Tally(r.elD, 1);
        pcount' := pcount + 1;
        assert plist[..pcount'] == t + [Tally(r.elD, 1)];
      }
    } else {
      ListingSkip(t, rows, r);
    }
  }

  /** One inner step of the bubble sort: swap if `compare` is positive, then
      swap if the left string is longer. Together they order the pair. */
  method OrderPair(a: array<Tally>, j: int)
    requires 1 <= j < a.Length
    modifies a
    ensures KeyLe(old(a[j - 1]).value, old(a[j]).value) ==> a[..] == old(a[..])
    ensures !KeyLe(old(a[j - 1]).value, old(a[j]).value) ==> a[..] == old(a[..])[j - 1 := old(a[j])][j := old(a[j - 1])]
  {
    if LexLess(a[j].value, a[j - 1].value) {
      a[j - 1], a[j] := a[j], a[j - 1];
    }
    if |a[j - 1].value| > |a[j].value| {
      a[j - 1], a[j] := a[j], a[j - 1];
    }
  }

  /** s[b .. n) is in order. */
  ghost predicate SortedFrom(s: seq<Tally>, b: int, n: int) {
    forall k, l :: 0 <= b <= k < l < n <= |s| ==> KeyLe(s[k].value, s[l].value)
  }

  /** Everything in s[0 .. b) may precede everything in s[b .. n). */
  ghost predicate Below(s: seq<Tally>, b: int, n: int) {
    forall k, l :: 0 <= k < b <= l < n <= |s| ==> KeyLe(s[k].value, s[l].value)
  }

  /** s[top - 1] is a largest element of s[0 .. top). */
  ghost predicate MaxAt(s: seq<Tally>, top: int) {
    forall k :: 0 <= k < top <= |s| ==> KeyLe(s[k].value, s[top - 1].value)
  }

  /** How far the inner pass has carried a largest element: up to j, but
      never into the ordered suffix that starts at b. */
  function Top(j: int, b: int): int {
    if j <= b then j else b
  }

  /** An inner step that leaves the pair as it is keeps the pass invariant. */
  lemma {:induction false} StepKeep(s: seq<Tally>, n: int, i: int, j: int)
    requires 1 <= j < n <= |s| && 0 <= i < n - 1
    requires SortedFrom(s, n - i, n) && Below(s, n - i, n) && MaxAt(s, Top(j, n - i))
    requires KeyLe(s[j - 1].value, s[j].value)
    ensures MaxAt(s, Top(j + 1, n - i))
  {
    if j + 1 <= n - i {
      KeyLeReflexive(s[j].value);
      forall k | 0 <= k < j
        ensures KeyLe(s[k].value, s[j].value)
      {
        KeyLeTransitive(s[k].value, s[j - 1].value, s[j].value);
      }
    }
  }

  /** An inner step that swaps the pair keeps the pass invariant; a swap
      happens only before the ordered suffix. */
  lemma {:induction false} StepSwap(s: seq<Tally>, n: int, i: int, j: int)
    requires 1 <= j < n <= |s| && 0 <= i < n - 1
    requires SortedFrom(s, n - i, n) && Below(s, n - i, n) && MaxAt(s, Top(j, n - i))
    requires !KeyLe(s[j - 1].value, s[j].value)
    ensures j < n - i
    ensures var s' := s[j - 1 := s[j]][j := s[j - 1]];
            && multiset(s'[..n]) == multiset(s[..n]) && s'[n..] == s[n..]
            && SortedFrom(s', n - i, n) && Below(s', n - i, n) && MaxAt(s', j + 1)
  {
    var s' := s[j - 1 := s[j]][j := s[j - 1]];
    assert s'[..n] == s[..n][j - 1 := s[j]][j := s[j - 1]];
    KeyLeReflexive(s[j - 1].value);
    KeyLeTotal(s[j - 1].value, s[j].value);
    forall k | 0 <= k < j + 1
      ensures KeyLe(s'[k].value, s'[j].value)
    {
    }
  }

  /** After i passes: `s` rearranges `s0` within [0, n), leaves the rest
      alone, and its last i places hold the i largest elements in order. */
  ghost predicate Passed(s: seq<Tally>, s0: seq<Tally>, n: int, i: int) {
    && 0 <= n <= |s| == |s0|
    && multiset(s[..n]) == multiset(s0[..n]) && s[n..] == s0[n..]
    && SortedFrom(s, n - i, n) && Below(s, n - i, n)
  }

  /** The invariant of the inner loop of pass i at step j: on top of the
      previous passes, s[Top(j, n - i) - 1] is a largest element before the
      ordered suffix. */
  ghost predicate PassInv(s: seq<Tally>, s0: seq<Tally>, n: int, i: int, j: int) {
    Passed(s, s0, n, i) && MaxAt(s, Top(j, n - i))
  }

  /** One inner step, swapped or not, keeps the invariant of the pass. */
  lemma {:induction false} Step(s: seq<Tally>, s': seq<Tally>, s0: seq<Tally>, n: int, i: int, j: int)
    requires 1 <= j < n && 0 <= i < n - 1 && PassInv(s, s0, n, i, j)
    requires KeyLe(s[j - 1].value, s[j].value) ==> s' == s
    requires !KeyLe(s[j - 1].value, s[j].value) ==> s' == s[j - 1 := s[j]][j := s[j - 1]]
    ensures PassInv(s', s0, n, i, j + 1)
  {
    if KeyLe(s[j - 1].value, s[j].value) {
      StepKeep(s, n, i, j);
    } else {
      StepSwap(s, n, i, j);
    }
  }

  /** At the end of a pass the largest element of the unordered prefix
      stands just before the ordered suffix, which grows by one. */
  lemma {:induction false} PassDone(s: seq<Tally>, s0: seq<Tally>, n: int, i: int)
    requires 0 <= i < n - 1 && PassInv(s, s0, n, i, n)
    ensures Passed(s, s0, n, i + 1)
  {
  }

  /** After the last pass the whole of [0, n) is in order. */
  lemma {:induction false} AllPassed(s: seq<Tally>, s0: seq<Tally>, n: int, i: int)
    requires Passed(s, s0, n, i) && (n <= 1 || i == n - 1)
    ensures Sorted(s[..n]) && multiset(s[..n]) == multiset(s0[..n]) && s[n..] == s0[n..]
  {
    forall k, l | 0 <= k < l < n
      ensures KeyLe(s[..n][k].value, s[..n][l].value)
    {
      assert s[..n][k] == s[k] && s[..n][l] == s[l];
    }
  }

  /** The second phase of `primeslist`: n - 1 passes of adjacent ordering
      over plist[0 .. n). */
  method SortTallies(a: array<Tally>, n: int)
    requires 0 <= n <= a.Length
    modifies a
    ensures Sorted(a[..n])
    ensures multiset(a[..n]) == old(multiset(a[..n]))
    ensures a[n..] == old(a[n..])
  {
    ghost var s0 := a[..];
    var i := 0;
    while i < n - 1
      invariant 0 <= i && (i == 0 || i < n)
      invariant Passed(a[..], s0, n, i)
    {
      Pass(a, n, i, s0);
      i := i + 1;
    }
    AllPassed(a[..], s0, n, i);
    assert a[..n] == a[..][..n] && a[n..] == a[..][n..];
    assert old(a[..n]) == s0[..n] && old(a[n..]) == s0[n..];
  }

  /** Pass i of the bubble sort: the inner loop over j = 1 .. n - 1 carries a
      largest element of the unordered prefix to the front of the ordered
      suffix, which grows by one. */
  method Pass(a: array<Tally>, n: int, i: int, ghost s0: seq<Tally>)
    requires 0 <= i < n - 1 && Passed(a[..], s0, n, i)
    modifies a
    ensures Passed(a[..], s0, n, i + 1)
  {
    KeyLeReflexive(a[0].value);
    var j := 1;
    while j < n
      invariant 1 <= j <= n
      invariant PassInv(a[..], s0, n, i, j)
    {
      ghost var s := a[..];
      OrderPair(a, j);
      Step(s, a[..], s0, n, i, j);
      j := j + 1;
    }
    PassDone(a[..], s0, n, i);
  }

  /** `primeslist` without its output: the distinct terminating primes of
      2 .. seqscount - 1 with their counts, sorted by length and then
      lexicographically. `grouped` is the listing before the sort. */
  method PrimesList(seqd: array<Row<string>>, seqscount: int)
    returns (plist: array<Tally>, pcount: int, ghost grouped: seq<Tally>)
    requires 2 <= seqscount <= seqd.Length
    ensures fresh(plist) && 0 <= pcount <= plist.Length
    ensures |grouped| == pcount && Listing(grouped, seqd[2..seqscount])
    ensures multiset(plist[..pcount]) == multiset(grouped)
    ensures Sorted(plist[..pcount])
  {
    plist, pcount := Group(seqd, seqscount);
    grouped := plist[..pcount];
    SortTallies(plist, pcount);
  }
}
