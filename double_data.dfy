/** The table of the vector-based version (seqinfo_double.cpp): records are
    appended in file order to a vector, sequence number n living at position
    n - indexShift; elD is held as an exact integer. */
module DoubleData {
  import opened Records

  /** One record of the data file: its sequence number elA and its row. */
  datatype Line = Line(elA: int, row: Row<int>)

  /** The rows of the records, in order. */
  function Rows(lines: seq<Line>): (r: seq<Row<int>>)
    ensures |r| == |lines|
    ensures forall k :: 0 <= k < |lines| ==> r[k] == lines[k].row
  {
    seq(|lines|, k requires 0 <= k < |lines| => lines[k].row)
  }

  /** n clear result-list flags. */
  function AllClear(n: nat): (r: seq<bool>)
    ensures |r| == n
  {
    if n == 0 then [] else AllClear(n - 1) + [false]
  }

  /** Records whose termination kind has sign `s`. */
  function KindTally(lines: seq<Line>, s: int): nat {
    if lines == [] then 0
    else KindTally(lines[..|lines| - 1], s) + (if Sign(lines[|lines| - 1].row.elB) == s then 1 else 0)
  }

  lemma {:induction false} KindTallySnoc(lines: seq<Line>, x: Line, s: int)
    ensures KindTally(lines + [x], s) == KindTally(lines, s) + (if Sign(x.row.elB) == s then 1 else 0)
  {
    assert (lines + [x])[..|lines|] == lines;
  }

  /** Every record falls under exactly one of the three counters. */
  lemma {:induction false} KindTallyPartition(lines: seq<Line>)
    ensures KindTally(lines, 1) + KindTally(lines, 0) + KindTally(lines, -1) == |lines|
  {
    if lines != [] {
      KindTallyPartition(lines[..|lines| - 1]);
    }
  }

  /** Conversion to `uint16_t`: the value modulo 2^16. */
  function U16(x: int): (r: int)
    ensures 0 <= r < 0x1_0000
    ensures 0 <= x < 0x1_0000 ==> r == x
    ensures (x - r) % 0x1_0000 == 0
  {
    x % 0x1_0000
  }

  /** Record k holds sequence number shift + k: the vector has no hole. */
  predicate Contiguous(lines: seq<Line>, shift: int) {
    forall k :: 0 <= k < |lines| ==> lines[k].elA == shift + k
  }

  /** The records number consecutive sequences. */
  predicate Consecutive(lines: seq<Line>) {
    forall k :: 0 <= k < |lines| ==> lines[k].elA == lines[0].elA + k
  }

  /** The loaded data (`reginaData`): the record vector, a result-list flag
      per record, the three termination counters and the index bookkeeping. */
  class ReginaData {
    var regina: seq<Line>
    var tags: seq<bool>
    var ccount: int
    var ocount: int
    var pcount: int
    var lastIndex: int
    var indexShift: int

    /** One flag per record, indexShift within 16 bits, and each counter
        counts its kind. */
    ghost predicate Valid()
      reads this
    {
      && |tags| == |regina|
      && 0 <= indexShift < 0x1_0000
      && pcount == KindTally(regina, 1)
      && ocount == KindTally(regina, 0)
      && ccount == KindTally(regina, -1)
    }

    constructor()
      ensures Valid() && regina == [] && lastIndex == 0 && indexShift == 2
    {
      regina := [];
      tags := [];
      ccount, ocount, pcount := 0, 0, 0;
      lastIndex := 0;
      indexShift := 2;
    }

    /** The body of the stream reader for one record: appended with its
        flag clear, bumping the counter of its kind. */
    method Append(line: Line)
      requires Valid()
      modifies this
      ensures Valid()
      ensures regina == old(regina) + [line] && tags == old(tags) + [false]
      ensures lastIndex == old(lastIndex) && indexShift == old(indexShift)
    {
      KindTallySnoc(regina, line, 1);
      KindTallySnoc(regina, line, 0);
      KindTallySnoc(regina, line, -1);
      regina := regina + [line];
      tags := tags + [false];
      if line.row.elB > 0 {
        pcount := pcount + 1;
      } else if line.row.elB == 0 {
        ocount := ocount + 1;
      } else if line.row.elB < 0 {
        ccount := ccount + 1;
      }
    }

    /** The stream reader: every record read is appended in order, so the
        counters always sum to the number of records. */
    method ReadStream(records: seq<Line>)
      requires Valid()
      modifies this
      ensures Valid() && pcount + ocount + ccount == |regina|
      ensures regina == old(regina) + records
      ensures tags == old(tags) + AllClear(|records|)
      ensures lastIndex == old(lastIndex) && indexShift == old(indexShift)
    {
      var k := 0;
      while k < |records|
        invariant 0 <= k <= |records|
        invariant Valid()
        invariant regina == old(regina) + records[..k]
        invariant tags == old(tags) + AllClear(k)
        invariant lastIndex == old(lastIndex) && indexShift == old(indexShift)
      {
        Append(records[k]);
        assert records[..k + 1] == records[..k] + [records[k]];
        assert AllClear(k + 1) == AllClear(k) + [false];
        k := k + 1;
      }
      assert records[..k] == records;
      KindTallyPartition(regina);
    }

    /** `loadReginaFile` given whether the file opened, the records the
        stream delivered and whether it reached the end of the file. Loading
        fails when the stream stopped early; on success the first and last
        records give indexShift (kept in 16 bits) and lastIndex. A file that
        does not open leaves everything as it was and still succeeds. */
    method LoadReginaFile(isOpen: bool, records: seq<Line>, complete: bool) returns (ok: bool)
      requires Valid()
      requires isOpen && complete ==> |regina| + |records| > 0
      modifies this
      ensures Valid()
      ensures !isOpen ==> ok && regina == old(regina) && tags == old(tags)
      ensures !(isOpen && complete) ==> indexShift == old(indexShift) && lastIndex == old(lastIndex)
      ensures isOpen ==> regina == old(regina) + records && pcount + ocount + ccount == |regina|
      ensures isOpen ==> (ok <==> complete)
      ensures isOpen && complete ==> indexShift == U16(regina[0].elA) && lastIndex == regina[|regina| - 1].elA
      ensures isOpen && complete && old(regina) == [] && Consecutive(records) && 0 <= records[0].elA < 0x1_0000 ==>
                Contiguous(regina, indexShift) && lastIndex == indexShift + |regina| - 1
    {
      ok := true;
      if isOpen {
        ReadStream(records);
        if !complete {
          return false;
        }
        indexShift := U16(regina[0].elA);
        lastIndex := regina[|regina| - 1].elA;
      }
    }
  }

  /** The bounds check of `manageSequence`: sequence numbers outside
      indexShift .. lastIndex are rejected, any other n is read at position
      n - indexShift. */
  function Position(indexShift: int, lastIndex: int, n: int): (r: Option<int>)
  {
    if n < indexShift || n > lastIndex then None else Some(n - indexShift)
  }

  /** On a loaded table without holes the check accepts exactly the sequence
      numbers present, and the position read holds that sequence. */
  lemma PositionFinds(lines: seq<Line>, shift: int, n: int)
    requires |lines| > 0 && Contiguous(lines, shift)
    ensures Position(shift, lines[|lines| - 1].elA, n).Some? <==> exists k :: 0 <= k < |lines| && lines[k].elA == n
    ensures Position(shift, lines[|lines| - 1].elA, n).Some? ==>
              var p := Position(shift, lines[|lines| - 1].elA, n).value;
              0 <= p < |lines| && lines[p].elA == n
  {
    if Position(shift, lines[|lines| - 1].elA, n).Some? {
      assert lines[n - shift].elA == n;
    }
  }

  /** The terminal values `manageSequence` treats as perfect numbers. */
  const PerfectValues: set<int> := {
    6, 28, 496, 8128, 33550336, 8589869056, 137438691328,
    2305843008139952128, 2658455991569831744654692615953842176,
    191561942608236107294793378084303638130997321548169216 }

  /** How `manageSequence` answers a sequence number. */
  datatype Dispatch = OutOfBounds | PrimeEnd(pos: int) | OpenEnd(pos: int) | CycleEnd(pos: int, perfect: bool) | Incomplete(pos: int)

  /** The bounds check followed by the branch on the termination kind of
      the record read. */
  function Classify(lines: seq<Line>, indexShift: int, lastIndex: int, n: int): (r: Dispatch)
    requires Position(indexShift, lastIndex, n).Some? ==> 0 <= n - indexShift < |lines|
    ensures r.OutOfBounds? <==> Position(indexShift, lastIndex, n).None?
    ensures !r.OutOfBounds? ==> r.pos == n - indexShift
    ensures !r.OutOfBounds? ==> (r.PrimeEnd? <==> lines[r.pos].row.elB == 1)
    ensures !r.OutOfBounds? ==> (r.OpenEnd? <==> lines[r.pos].row.elB == 0)
    ensures !r.OutOfBounds? ==> (r.CycleEnd? <==> lines[r.pos].row.elB < 0)
    ensures !r.OutOfBounds? ==> (r.Incomplete? <==> lines[r.pos].row.elB > 1)
    ensures r.CycleEnd? ==> (r.perfect <==> lines[r.pos].row.elD in PerfectValues)
  {
    match Position(indexShift, lastIndex, n)
    case None => OutOfBounds
    case Some(p) =>
      var elB := lines[p].row.elB;
      if elB == 1 then PrimeEnd(p)
      else if elB == 0 then OpenEnd(p)
      else if elB < 0 then CycleEnd(p, lines[p].row.elD in PerfectValues)
      else Incomplete(p)
  }

  /** `roundUp` on `size_t`: the sum n + m - 1 wraps modulo 2^64; the
      product never exceeds the wrapped sum. */
  function RoundUp(n: nat, m: nat): int
    requires 0 < m < SizeT && n < SizeT
  {
    ((n + m - 1) % SizeT) / m * m
  }

  /** Rounding s down to a multiple of m loses less than m. */
  lemma RoundDown(s: nat, m: nat)
    requires 0 < m
    ensures s - m < s / m * m <= s
  {
    var q, rem := s / m, s % m;
    assert s == q * m + rem;
  }

  /** Without wrap-around, roundUp gives the least multiple of m that is at
      least n. */
  lemma RoundUpLeast(n: nat, m: nat)
    requires 0 < m < SizeT && n < SizeT && n + m - 1 < SizeT
    ensures RoundUp(n, m) % m == 0
    ensures n <= RoundUp(n, m) < n + m
  {
    var s := n + m - 1;
    assert s % SizeT == s;
    RoundDown(s, m);
    MultipleMod(s / m, m);
  }

  /** The reservation estimate: 20000000 records when the file size is not
      available, otherwise the file size divided by 110 rounded up to a
      multiple of 1000000. */
  function EstimateVectorSize(fileSize: Option<nat>): int
    requires fileSize.Some? ==> fileSize.value < SizeT
  {
    match fileSize
    case None => 20000000
    case Some(size) => RoundUp(size / 110, 1000000)
  }

  /** For every file size the estimate is the least multiple of 1000000 at
      or above size / 110: the rounding never wraps. */
  lemma EstimateVectorSizeSpec(fileSize: Option<nat>)
    requires fileSize.Some? ==> fileSize.value < SizeT
    ensures fileSize.None? ==> EstimateVectorSize(fileSize) == 20000000
    ensures fileSize.Some? ==>
              var e := EstimateVectorSize(fileSize);
              e % 1000000 == 0 && fileSize.value / 110 <= e < fileSize.value / 110 + 1000000
  {
    if fileSize.Some? {
      RoundUpLeast(fileSize.value / 110, 1000000);
    }
  }

  /** The update routine is an unimplemented stub: it changes nothing. */
  method CreateUpdate(data: ReginaData)
    ensures data.regina == old(data.regina) && data.tags == old(data.tags)
  {
  }
}
