/** The table of the string-valued version (seqinfo.cpp): rows live in an
    array indexed directly by sequence number, slots 0 and 1 unused; elD is
    the terminal value as a decimal string. */
module SeqInfoStore {
  import opened Records

  /** One line of the data file after the comma splitting: how many commas it
      holds, and the value each field would convert to. A field is taken only
      when a comma follows it (elA is field 0, elB field 1, ... elT field 19). */
  datatype SourceLine = SourceLine(commas: nat, fields: Row<string>)

  /** A slot never written by the loader (static storage starts zeroed). */
  const EmptyRow: Row<string> :=
    Row(0, 0, "", 0, 0, 0, 0, 0, 0, 0, 0, 0.0, 0.0, 0.0, 0.0, 0.0, 0.0)

  /** The row stored for one line: each field whose comma is missing keeps the
      zero of the untouched slot. */
  function Take(line: SourceLine): (r: Row<string>)
    ensures line.commas >= 20 ==> r == line.fields
    ensures line.commas <= 1 ==> r == EmptyRow
    ensures line.commas > 1 ==> r.elB == line.fields.elB
  {
    var c, f := line.commas, line.fields;
    Row(if c > 1 then f.elB else 0,
        if c > 2 then f.elC else 0,
        if c > 3 then f.elD else "",
        if c > 6 then f.elG else 0,
        if c > 7 then f.elH else 0,
        if c > 8 then f.elI else 0,
        if c > 9 then f.elJ else 0,
        if c > 10 then f.elK else 0,
        if c > 11 then f.elL else 0,
        if c > 12 then f.elM else 0,
        if c > 13 then f.elN else 0,
        if c > 14 then f.elO else 0.0,
        if c > 15 then f.elP else 0.0,
        if c > 16 then f.elQ else 0.0,
        if c > 17 then f.elR else 0.0,
        if c > 18 then f.elS else 0.0,
        if c > 19 then f.elT else 0.0)
  }

  /** Lines whose elB field was taken and whose kind has sign `s`. */
  function KindCount(lines: seq<SourceLine>, s: int): nat {
    if lines == [] then 0
    else
      var last := lines[|lines| - 1];
      KindCount(lines[..|lines| - 1], s) + (if last.commas > 1 && Sign(last.fields.elB) == s then 1 else 0)
  }

  /** Lines whose elB field was taken. */
  function KindFound(lines: seq<SourceLine>): (r: nat)
    ensures r <= |lines|
  {
    if lines == [] then 0
    else KindFound(lines[..|lines| - 1]) + (if lines[|lines| - 1].commas > 1 then 1 else 0)
  }

  /** Every line whose elB was taken bumps exactly one of the three counters. */
  lemma {:induction false} KindCountsPartition(lines: seq<SourceLine>)
    ensures KindCount(lines, 1) + KindCount(lines, 0) + KindCount(lines, -1) == KindFound(lines)
  {
    if lines != [] {
      KindCountsPartition(lines[..|lines| - 1]);
    }
  }

  /** Extending the lines by one bumps at most the counter of that line's kind. */
  lemma {:induction false} KindCountNext(lines: seq<SourceLine>, k: int, s: int)
    requires 0 <= k < |lines|
    ensures KindCount(lines[..k + 1], s) ==
            KindCount(lines[..k], s) + (if lines[k].commas > 1 && Sign(lines[k].fields.elB) == s then 1 else 0)
  {
    assert lines[..k + 1][..k] == lines[..k];
  }

  /** The table after loading `ls`: line k in slot 2 + k, every other slot
      untouched. */
  function Loaded(ls: seq<SourceLine>, capacity: nat): (t: seq<Row<string>>)
    ensures |t| == capacity
    ensures forall j :: 0 <= j < capacity ==>
              t[j] == if 2 <= j < 2 + |ls| then Take(ls[j - 2]) else EmptyRow
  {
    seq(capacity, j requires 0 <= j < capacity => if 2 <= j < 2 + |ls| then Take(ls[j - 2]) else EmptyRow)
  }

  /** Loading one more line writes one more slot. */
  lemma {:induction false} LoadedNext(ls: seq<SourceLine>, k: int, capacity: nat)
    requires 0 <= k < |ls| && k + 2 < capacity
    ensures Loaded(ls[..k + 1], capacity) == Loaded(ls[..k], capacity)[k + 2 := Take(ls[k])]
  {
  }

  /** The load loop of `main`: one getline result per entry of `lines`, written
      to slots 2, 3, ... while a slot is left; the count is then reduced by one,
      so the last line read (the empty line after the final newline of a
      well-formed file) is dropped from the table although it was counted. */
  method Load(lines: seq<SourceLine>, capacity: nat)
    returns (seqd: array<Row<string>>, ulist: array<bool>, seqscount: int, pcount: nat, ocount: nat, ccount: nat)
    requires capacity >= 2
    ensures fresh(seqd) && fresh(ulist)
    ensures seqscount == Min(|lines|, capacity - 2) + 1
    ensures seqd[..] == Loaded(lines[..seqscount - 1], capacity)
    ensures ulist.Length == capacity && forall j :: 0 <= j < capacity ==> !ulist[j]
    ensures pcount == KindCount(lines[..seqscount - 1], 1)
    ensures ocount == KindCount(lines[..seqscount - 1], 0)
    ensures ccount == KindCount(lines[..seqscount - 1], -1)
  {
    seqd := new Row<string>[capacity](_ => EmptyRow);
    ulist := new bool[capacity](_ => false);
    pcount, ocount, ccount := 0, 0, 0;
    seqscount := 2;
    var k := 0;
    assert seqd[..] == Loaded(lines[..0], capacity);
    while k < |lines| && seqscount < capacity
      invariant 0 <= k <= |lines| && seqscount == k + 2 <= capacity
      invariant seqd[..] == Loaded(lines[..k], capacity)
      invariant forall j :: 0 <= j < capacity ==> !ulist[j]
      invariant pcount == KindCount(lines[..k], 1)
      invariant ocount == KindCount(lines[..k], 0)
      invariant ccount == KindCount(lines[..k], -1)
    {
      var line := lines[k];
      LoadedNext(lines, k, capacity);
      seqd[seqscount] := Take(line);
      if line.commas > 1 {
        if line.fields.elB > 0 { pcount := pcount + 1; }
        if line.fields.elB == 0 { ocount := ocount + 1; }
        if line.fields.elB < 0 { ccount := ccount + 1; }
      }
      ulist[seqscount] := false;
      KindCountNext(lines, k, 1);
      KindCountNext(lines, k, 0);
      KindCountNext(lines, k, -1);
      seqscount := seqscount + 1;
      k := k + 1;
    }
    seqscount := seqscount - 1;
  }

  /** The ten perfect numbers the tool recognises, as decimal strings. */
  const PerfectNumbers: set<string> := {
    "6", "28", "496", "8128", "33550336", "8589869056", "137438691328",
    "2305843008139952128", "2658455991569831744654692615953842176",
    "191561942608236107294793378084303638130997321548169216" }

  /** How `main` answers an entered sequence number. */
  datatype Dispatch = OutOfBounds | PrimeEnd | OpenEnd | CycleEnd(perfect: bool) | Incomplete

  /** The bounds check of `main` (2 through seqscount - 1) and the branch on
      the row's termination kind. */
  function Classify(seqd: array<Row<string>>, seqscount: int, seqn: int): (r: Dispatch)
    reads seqd
    requires seqscount <= seqd.Length
    ensures r.OutOfBounds? <==> seqn < 2 || seqn >= seqscount
    ensures !r.OutOfBounds? ==> (r.PrimeEnd? <==> seqd[seqn].elB == 1)
    ensures !r.OutOfBounds? ==> (r.OpenEnd? <==> seqd[seqn].elB == 0)
    ensures !r.OutOfBounds? ==> (r.CycleEnd? <==> seqd[seqn].elB < 0)
    ensures r.Incomplete? <==> 1 < seqn < seqscount && seqd[seqn].elB > 1
    ensures r.CycleEnd? ==> (r.perfect <==> seqd[seqn].elD in PerfectNumbers)
  {
    if !(seqn > 1 && seqn < seqscount) then OutOfBounds
    else if seqd[seqn].elB == 1 then PrimeEnd
    else if seqd[seqn].elB == 0 then OpenEnd
    else if seqd[seqn].elB < 0 then CycleEnd(seqd[seqn].elD in PerfectNumbers)
    else Incomplete
  }

  /** The `p##` command: the first sequence in 2 .. seqscount - 1 that
      terminates (elB == 1) with the prime written `p`, if any. */
  method FindPrimeRow(seqd: array<Row<string>>, seqscount: int, p: string) returns (r: Option<int>)
    requires seqscount <= seqd.Length
    ensures r.Some? ==> 2 <= r.value < seqscount && seqd[r.value].elD == p && seqd[r.value].elB == 1
    ensures r.Some? ==> forall j :: 2 <= j < r.value ==> !(seqd[j].elD == p && seqd[j].elB == 1)
    ensures r.None? ==> forall j :: 2 <= j < seqscount ==> !(seqd[j].elD == p && seqd[j].elB == 1)
  {
    r := None;
    var i := 2;
    while i < seqscount
      invariant 2 <= i && (if seqscount >= 2 then i <= seqscount else i == 2)
      invariant forall j :: 2 <= j < i ==> !(seqd[j].elD == p && seqd[j].elB == 1)
    {
      if p == seqd[i].elD && seqd[i].elB == 1 {
        r := Some(i);
        return;
      }
      i := i + 1;
    }
  }

  /** The update routine is an unimplemented stub: it changes nothing. */
  method CreateUpdate(seqd: array<Row<string>>)
    ensures seqd[..] == old(seqd[..])
  {
  }

  /** The decimal digit `d` as a character. */
  function Digit(d: int): (c: char)
    requires 0 <= d < 10
    ensures '0' <= c <= '9' && c as int - '0' as int == d
  {
    ('0' as int + d) as char
  }

  /** `to_string` of a non-negative number: its decimal digits, no leading zero. */
  function DecimalString(n: nat): (s: string)
    ensures |s| >= 1
    ensures forall i :: 0 <= i < |s| ==> '0' <= s[i] <= '9'
    ensures n > 0 ==> s[0] != '0'
  {
    if n < 10 then [Digit(n)] else DecimalString(n / 10) + [Digit(n % 10)]
  }

  /** The number a string of decimal digits denotes. */
  function DecimalValue(s: string): int {
    if s == [] then 0 else DecimalValue(s[..|s| - 1]) * 10 + (s[|s| - 1] as int - '0' as int)
  }

  /** Reading back the decimal string gives the number. */
  lemma {:induction false} DecimalRoundTrip(n: nat)
    ensures DecimalValue(DecimalString(n)) == n
  {
    if n >= 10 {
      DecimalRoundTrip(n / 10);
      var s := DecimalString(n);
      assert s[..|s| - 1] == DecimalString(n / 10);
    }
  }

  /** Distinct numbers have distinct decimal strings, so comparing
      `to_string(seqn)` with a stored string compares numbers. */
  lemma DecimalStringInjective(n: nat, m: nat)
    ensures DecimalString(n) == DecimalString(m) ==> n == m
  {
    DecimalRoundTrip(n);
    DecimalRoundTrip(m);
  }
}
