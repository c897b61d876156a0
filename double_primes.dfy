/** `primeslist` of the vector-based version (seqinfo_double.cpp): the prime
    terminations counted per prime in a `std::map`, which is modelled as its
    entries in key order. */
module DoublePrimes {
  import opened Records
  import opened DoubleData

  /** One map entry: a terminating prime and how many sequences end in it. */
  datatype Tally = Tally(prime: int, count: nat)

  /** The keys strictly increase, as a `std::map` iterates them. */
  predicate Ascending(m: seq<Tally>) {
    forall i, j :: 0 <= i < j < |m| ==> m[i].prime < m[j].prime
  }

  /** Every count is at least one. */
  predicate Positive(m: seq<Tally>) {
    forall i :: 0 <= i < |m| ==> m[i].count >= 1
  }

  /** Every key is above `b`. */
  predicate KeysAbove(m: seq<Tally>, b: int) {
    forall i :: 0 <= i < |m| ==> m[i].prime > b
  }

  /** The count held for `v`, zero when it is not a key. */
  function Lookup(m: seq<Tally>, v: int): nat {
    if m == [] then 0 else if m[0].prime == v then m[0].count else Lookup(m[1..], v)
  }

  /** The sum of the counts. */
  function Total(m: seq<Tally>): nat {
    if m == [] then 0 else m[0].count + Total(m[1..])
  }

  /** `primeCountMap[v] += 1`: the entry for v is bumped, or inserted with
      count one at its place in key order. */
  function Increment(m: seq<Tally>, v: int): seq<Tally> {
    if m == [] then [Tally(v, 1)]
    else if m[0].prime == v then [Tally(v, m[0].count + 1)] + m[1..]
    else if v < m[0].prime then [Tally(v, 1)] + m
    else [m[0]] + Increment(m[1..], v)
  }

  /** Inserting a key above `b` into a map whose keys are above `b` keeps
      them above `b`. */
  lemma {:induction false} IncrementAbove(m: seq<Tally>, v: int, b: int)
    requires KeysAbove(m, b) && v > b
    ensures KeysAbove(Increment(m, v), b)
  {
    if m != [] && m[0].prime != v && v > m[0].prime {
      IncrementAbove(m[1..], v, b);
    }
  }

  /** Incrementing keeps the keys in order and the counts positive. */
  lemma {:induction false} IncrementAscending(m: seq<Tally>, v: int)
    requires Ascending(m) && Positive(m)
    ensures Ascending(Increment(m, v)) && Positive(Increment(m, v))
  {
    if m != [] && m[0].prime != v && v > m[0].prime {
      IncrementAscending(m[1..], v);
      IncrementAbove(m[1..], v, m[0].prime);
    }
  }

  /** Incrementing adds one to the count of v and to no other count, and
      one to the total. */
  lemma {:induction false} IncrementCounts(m: seq<Tally>, v: int)
    requires Ascending(m)
    ensures forall w :: Lookup(Increment(m, v), w) == Lookup(m, w) + (if w == v then 1 else 0)
    ensures Total(Increment(m, v)) == Total(m) + 1
  {
    if m != [] && m[0].prime != v && v > m[0].prime {
      IncrementCounts(m[1..], v);
    } else if m != [] && m[0].prime != v {
      assert ([Tally(v, 1)] + m)[1..] == m;
      LookupAbsent(m, v);
    } else if m != [] {
      assert ([Tally(v, m[0].count + 1)] + m[1..])[1..] == m[1..];
    }
  }

  /** A value below every key has no count. */
  lemma {:induction false} LookupAbsent(m: seq<Tally>, v: int)
    requires KeysAbove(m, v)
    ensures Lookup(m, v) == 0
  {
    if m != [] {
      LookupAbsent(m[1..], v);
    }
  }

  /** With positive counts, v is a key exactly when its count is not
      zero. */
  lemma {:induction false} LookupKey(m: seq<Tally>, v: int)
    requires Positive(m)
    ensures Lookup(m, v) > 0 <==> exists i :: 0 <= i < |m| && m[i].prime == v
  {
    if m != [] {
      LookupKey(m[1..], v);
      if m[0].prime != v && exists i :: 0 <= i < |m| && m[i].prime == v {
        var i :| 0 <= i < |m| && m[i].prime == v;
        assert m[1..][i - 1].prime == v;
      }
    }
  }

  /** Records that terminate (elB == 1) with `v`. */
  function PrimeCount(lines: seq<Line>, v: int): nat {
    if lines == [] then 0
    else
      var last := lines[|lines| - 1].row;
      PrimeCount(lines[..|lines| - 1], v) + (if last.elB == 1 && last.elD == v then 1 else 0)
  }

  /** Records that terminate (elB == 1) in a prime. */
  function PrimeRows(lines: seq<Line>): nat {
    if lines == [] then 0
    else PrimeRows(lines[..|lines| - 1]) + (if lines[|lines| - 1].row.elB == 1 then 1 else 0)
  }

  /** `primeslist` on read-only data, the records visited in vector order:
      the map is ordered with positive counts, holds for every prime the
      number of records terminating with it, and its counts add up to the
      number of records terminating in a prime. */
  method PrimesList(data: ReginaData) returns (m: seq<Tally>)
    ensures Ascending(m) && Positive(m)
    ensures forall v :: Lookup(m, v) == PrimeCount(data.regina, v)
    ensures Total(m) == PrimeRows(data.regina)
  {
    var lines := data.regina;
    m := [];
    var k := 0;
    while k < |lines|
      invariant 0 <= k <= |lines|
      invariant Ascending(m) && Positive(m)
      invariant forall v :: Lookup(m, v) == PrimeCount(lines[..k], v)
      invariant Total(m) == PrimeRows(lines[..k])
    {
      assert lines[..k + 1][..k] == lines[..k];
      var row := lines[k].row;
      if row.elB == 1 {
        IncrementAscending(m, row.elD);
        IncrementCounts(m, row.elD);
        m := Increment(m, row.elD);
      }
      k := k + 1;
    }
    assert lines[..k] == lines;
  }

  /** The keys are exactly the primes some record terminates with. */
  lemma PrimesListKeys(lines: seq<Line>, m: seq<Tally>, v: int)
    requires Positive(m) && forall w :: Lookup(m, w) == PrimeCount(lines, w)
    ensures (exists i :: 0 <= i < |m| && m[i].prime == v) <==>
            (exists k :: 0 <= k < |lines| && lines[k].row.elB == 1 && lines[k].row.elD == v)
  {
    LookupKey(m, v);
    PrimeCountPositive(lines, v);
  }

  /** A prime has a non-zero count exactly when some record terminates with
      it. */
  lemma {:induction false} PrimeCountPositive(lines: seq<Line>, v: int)
    ensures PrimeCount(lines, v) > 0 <==> exists k :: 0 <= k < |lines| && lines[k].row.elB == 1 && lines[k].row.elD == v
  {
    if lines != [] {
      var init := lines[..|lines| - 1];
      PrimeCountPositive(init, v);
      if exists k :: 0 <= k < |lines| && lines[k].row.elB == 1 && lines[k].row.elD == v {
        var k :| 0 <= k < |lines| && lines[k].row.elB == 1 && lines[k].row.elD == v;
        if k < |lines| - 1 {
          assert init[k] == lines[k];
        }
      }
    }
  }

  /** With positive counts there are no more entries than counted
      records: at most one distinct prime per prime termination. */
  lemma {:induction false} TotalAtLeastSize(m: seq<Tally>)
    requires Positive(m)
    ensures Total(m) >= |m|
  {
    if m != [] {
      TotalAtLeastSize(m[1..]);
    }
  }
}
