/** The tag-setting scans of the vector-based version (seqinfo_double.cpp):
    `primesfind`, `managePrimeCommand`, `manageOpenEndedSequence`, the parse
    of `LoadCycleSequence`, `managexxx` and the dispatch of `manageSequence`.
    Each scan rewrites the result-list flags of a suffix of the vector to
    "this record's terminal value is in the searched set". */
module DoubleScans {
  import opened Records
  import opened DoubleData

  /** A row whose value is searched for is counted: a scan for the value of
      one of its own rows finds at least that row. */
  lemma {:induction false} InSetSelf(rows: seq<Row<int>>, k: int, s: set<int>)
    requires 0 <= k < |rows| && rows[k].elD in s
    ensures CountTrue(InSet(rows, s)) >= 1
  {
    var m := InSet(rows, s);
    if k < |rows| - 1 {
      InSetSelf(rows[..|rows| - 1], k, s);
      assert m[..|m| - 1] == InSet(rows[..|rows| - 1], s);
    }
  }

  /** The `for_each` loop shared by the scans, over the flags `saved` of
      `lines`: from position `lo` to the end each flag is rewritten to
      whether the record's value is in `s`, and the records flagged are
      counted. The flags written so far are collected in `written` and
      replace the scanned suffix of `saved`. */
  method ScanFlags(lines: seq<Line>, saved: seq<bool>, lo: int, s: set<int>) returns (tags: seq<bool>, rcount: int)
    requires 0 <= lo <= |lines| == |saved|
    ensures tags == saved[..lo] + InSet(Rows(lines)[lo..], s)
    ensures rcount == CountTrue(InSet(Rows(lines)[lo..], s))
  {
    ghost var rows := Rows(lines);
    var written: seq<bool> := [];
    rcount := 0;
    var j := lo;
    while j < |lines|
      invariant lo <= j <= |lines|
      invariant written == InSet(rows[lo..j], s)
      invariant rcount == CountTrue(written)
    {
      var hit := lines[j].row.elD in s;
      InSetNext(rows, lo, j, s);
      written := written + [hit];
      if hit {
        rcount := rcount + 1;
      }
      j := j + 1;
    }
    assert rows[lo..j] == rows[lo..];
    tags := saved[..lo] + written;
  }

  /** The scans' effect on the data: only the flags change, as `ScanFlags`
      computes them. */
  method TagFrom(data: ReginaData, lo: int, s: set<int>) returns (rcount: int)
    requires data.Valid() && 0 <= lo <= |data.regina|
    modifies data
    ensures data.Valid()
    ensures data.regina == old(data.regina)
    ensures data.indexShift == old(data.indexShift) && data.lastIndex == old(data.lastIndex)
    ensures data.tags == old(data.tags)[..lo] + InSet(Rows(data.regina)[lo..], s)
    ensures rcount == CountTrue(InSet(Rows(data.regina)[lo..], s))
  {
    var tags;
    tags, rcount := ScanFlags(data.regina, data.tags, lo, s);
    data.tags := tags;
  }

  /** `primesfind`: every record of the vector is flagged exactly when its
      terminal value is `prime`, whatever its termination kind. */
  method PrimesFind(data: ReginaData, prime: int) returns (rcount: int)
    requires data.Valid()
    modifies data
    ensures data.Valid()
    ensures data.regina == old(data.regina)
    ensures data.indexShift == old(data.indexShift) && data.lastIndex == old(data.lastIndex)
    ensures data.tags == InSet(Rows(data.regina), {prime})
    ensures rcount == CountTrue(data.tags)
  {
    rcount := TagFrom(data, 0, {prime});
    assert Rows(data.regina)[0..] == Rows(data.regina);
  }

  /** Some record terminates (elB == 1) with `prime`: the `any_of` test of
      `managePrimeCommand`. */
  method AnyPrimeRow(data: ReginaData, prime: int) returns (found: bool)
    ensures found <==> exists k :: 0 <= k < |data.regina| && data.regina[k].row.elB == 1 && data.regina[k].row.elD == prime
  {
    found := false;
    var k := 0;
    while k < |data.regina|
      invariant 0 <= k <= |data.regina|
      invariant forall j :: 0 <= j < k ==> !(data.regina[j].row.elB == 1 && data.regina[j].row.elD == prime)
    {
      if data.regina[k].row.elB == 1 && data.regina[k].row.elD == prime {
        return true;
      }
      k := k + 1;
    }
  }

  /** The `p<prime>` command: the flags are rewritten only when some record
      terminates with `prime`, and then at least that record is flagged;
      otherwise nothing changes. */
  method ManagePrimeCommand(data: ReginaData, prime: int) returns (found: bool, rcount: int)
    requires data.Valid()
    modifies data
    ensures data.Valid()
    ensures data.regina == old(data.regina)
    ensures data.indexShift == old(data.indexShift) && data.lastIndex == old(data.lastIndex)
    ensures found <==> exists k :: 0 <= k < |data.regina| && data.regina[k].row.elB == 1 && data.regina[k].row.elD == prime
    ensures found ==> data.tags == InSet(Rows(data.regina), {prime}) && rcount == CountTrue(data.tags) && rcount >= 1
    ensures !found ==> data.tags == old(data.tags) && rcount == 0
  {
    found := AnyPrimeRow(data, prime);
    rcount := 0;
    if found {
      ghost var k :| 0 <= k < |data.regina| && data.regina[k].row.elB == 1 && data.regina[k].row.elD == prime;
      rcount := PrimesFind(data, prime);
      InSetSelf(Rows(data.regina), k, {prime});
    }
  }

  /** `manageOpenEndedSequence` for the record at position `index`, which
      holds sequence `n`: when n merges into another sequence nothing
      changes; otherwise the records after `index` are flagged exactly when
      they merge into n, and the flags up to `index` are left alone. */
  method ManageOpenEndedSequence(data: ReginaData, n: int, index: int) returns (ran: bool, rcount: int)
    requires data.Valid() && 0 <= index < |data.regina|
    modifies data
    ensures data.Valid()
    ensures data.regina == old(data.regina)
    ensures data.indexShift == old(data.indexShift) && data.lastIndex == old(data.lastIndex)
    ensures ran <==> data.regina[index].row.elD == n
    ensures !ran ==> data.tags == old(data.tags) && rcount == 0
    ensures ran ==> data.tags == old(data.tags)[..index + 1] + InSet(Rows(data.regina)[index + 1..], {n})
    ensures ran ==> rcount == CountTrue(InSet(Rows(data.regina)[index + 1..], {n}))
  {
    var seqPrime := data.regina[index].row.elD;
    if n != seqPrime {
      return false, 0;
    }
    ran := true;
    rcount := TagFrom(data, index + 1, {seqPrime});
  }

  /** The start of the composite in a listing line, four past the first `.`.
      With no `.`, `npos + 4` wraps around to 3. */
  function CompositeStart(line: string): (start: nat)
    requires |line| < SizeT
    ensures start < SizeT
  {
    SizeAdd(match FindFrom(line, '.', 0) case None => Npos case Some(p) => p, 4)
  }

  /** The composite `LoadCycleSequence` takes from one line: from the start
      up to the character before the first `=` found at or after the start,
      as `substr` computes it on `size_t` values. None when `substr` throws
      because the start lies past the end of the line. */
  function CompositeText(line: string): (r: Option<string>)
    requires |line| < SizeT
  {
    var start := CompositeStart(line);
    var founde := match FindFrom(line, '=', start) case None => Npos case Some(e) => e;
    Substr(line, start, SizeSub(founde, SizeAdd(1, start)))
  }

  /** The composite starts four past the first `.`, or at position 3 when
      the line has no `.`. */
  lemma CompositeStartSpec(line: string)
    requires |line| < SizeT - 4
    ensures '.' !in line ==> CompositeStart(line) == 3
    ensures '.' in line ==> var p := CompositeStart(line) - 4;
              0 <= p < |line| && line[p] == '.' && '.' !in line[..p]
  {
    var p := FindFrom(line, '.', 0);
    if '.' in line {
      var i :| 0 <= i < |line| && line[i] == '.';
      assert p.Some?;
      assert forall j :: 0 <= j < p.value ==> line[..p.value][j] == line[j];
    }
  }

  /** `substr(s, end - (1 + s))` with `end` either a position at or after
      s or `npos`: the text up to the character before `end`, or the rest of
      the line when `end` is `npos` or s itself. */
  lemma SubstrBefore(line: string, s: nat, end: nat)
    requires |line| < SizeT - 4 && s <= |line| + 3
    requires end == Npos || s <= end < |line|
    ensures Substr(line, s, SizeSub(end, s + 1)).None? <==> s > |line|
    ensures s <= |line| && s < end < |line| ==> Substr(line, s, SizeSub(end, s + 1)) == Some(line[s..end - 1])
    ensures s <= |line| && (end == Npos || end == s) ==> Substr(line, s, SizeSub(end, s + 1)) == Some(line[s..])
  {
  }

  /** The parse throws exactly when the composite's start is past the end
      of the line. */
  lemma CompositeTextThrows(line: string)
    requires |line| < SizeT - 4
    ensures CompositeText(line).None? <==> CompositeStart(line) > |line|
  {
    var s := CompositeStart(line);
    assert s <= |line| + 3;
    var e := FindFrom(line, '=', s);
    assert SizeAdd(1, s) == s + 1;
    SubstrBefore(line, s, if e.None? then Npos else e.value);
  }

  /** The composite runs from its start to just before the next `=`, or to
      the end of the line when no `=` follows or the `=` is right at the
      start. */
  lemma CompositeTextSpec(line: string)
    requires |line| < SizeT - 4
    ensures CompositeText(line).Some? ==>
              var s, e := CompositeStart(line), FindFrom(line, '=', CompositeStart(line));
              (e.Some? && e.value > s ==> CompositeText(line).value == line[s..e.value - 1]) &&
              (e.None? || e.value == s ==> CompositeText(line).value == line[s..])
  {
    var s := CompositeStart(line);
    assert s <= |line| + 3;
    var e := FindFrom(line, '=', s);
    assert SizeAdd(1, s) == s + 1;
    SubstrBefore(line, s, if e.None? then Npos else e.value);
  }

  /** The values `LoadCycleSequence` inserts from a listing, read up to the
      first line whose `substr` or `stod` throws, and whether one did. */
  datatype Harvest = Harvest(values: set<int>, thrown: bool)

  /** Every line of the listing must be a string `size_t` can index. */
  predicate Indexable(lines: seq<string>) {
    forall i :: 0 <= i < |lines| ==> |lines[i]| < SizeT - 4
  }

  /** The line yields the value x. */
  predicate Converts(line: string, conv: string -> Option<int>, x: int)
    requires |line| < SizeT
  {
    CompositeText(line).Some? && conv(CompositeText(line).value) == Some(x)
  }

  /** The line makes `substr` or the conversion throw. */
  predicate Fails(line: string, conv: string -> Option<int>)
    requires |line| < SizeT
  {
    CompositeText(line).None? || conv(CompositeText(line).value).None?
  }

  /** The read loop over the listing, as a value: `conv` is `stod`, None
      where it throws. */
  function ScanComposites(lines: seq<string>, conv: string -> Option<int>): Harvest
    requires Indexable(lines)
  {
    if lines == [] then Harvest({}, false)
    else
      match CompositeText(lines[0])
      case None => Harvest({}, true)
      case Some(t) =>
        match conv(t)
        case None => Harvest({}, true)
        case Some(v) =>
          var rest := ScanComposites(lines[1..], conv);
          Harvest({v} + rest.values, rest.thrown)
  }

  /** The listing throws iff one of its lines fails, and when none does the
      set holds exactly the values its lines yield (a value yielded twice is
      held once). */
  lemma {:induction false} ScanCompositesSpec(lines: seq<string>, conv: string -> Option<int>)
    requires Indexable(lines)
    ensures ScanComposites(lines, conv).thrown <==> exists i :: 0 <= i < |lines| && Fails(lines[i], conv)
    ensures !ScanComposites(lines, conv).thrown ==>
              forall x :: x in ScanComposites(lines, conv).values <==>
                exists i :: 0 <= i < |lines| && Converts(lines[i], conv, x)
  {
    if lines != [] {
      var tail := lines[1..];
      ScanCompositesSpec(tail, conv);
      assert forall i :: 0 <= i < |tail| ==> tail[i] == lines[i + 1];
      if !Fails(lines[0], conv) {
        var v := conv(CompositeText(lines[0]).value).value;
        assert Converts(lines[0], conv, v);
        if exists i :: 0 <= i < |lines| && Fails(lines[i], conv) {
          var i :| 0 <= i < |lines| && Fails(lines[i], conv);
          assert Fails(tail[i - 1], conv);
        }
        if !ScanComposites(lines, conv).thrown {
          forall x | exists i :: 0 <= i < |lines| && Converts(lines[i], conv, x)
            ensures x in ScanComposites(lines, conv).values
          {
            var i :| 0 <= i < |lines| && Converts(lines[i], conv, x);
            if i > 0 {
              assert Converts(tail[i - 1], conv, x);
            }
          }
        }
      }
    }
  }

  /** `LoadCycleSequence`: None for `lines` when `cycle.tmp` did not open, in
      which case the set is left as it was. Otherwise each line's value is
      inserted in turn; a line that throws ends the program (`aborted`). */
  method LoadCycleSequence(listing: Option<seq<string>>, conv: string -> Option<int>, cycleSet: set<int>)
    returns (loaded: set<int>, aborted: bool)
    requires listing.Some? ==> Indexable(listing.value)
    ensures listing.None? ==> loaded == cycleSet && !aborted
    ensures listing.Some? ==> aborted == ScanComposites(listing.value, conv).thrown
    ensures listing.Some? && !aborted ==> loaded == cycleSet + ScanComposites(listing.value, conv).values
  {
    loaded, aborted := cycleSet, false;
    if listing.None? {
      return;
    }
    var lines := listing.value;
    ghost var all := ScanComposites(lines, conv);
    var k := 0;
    while k < |lines|
      invariant 0 <= k <= |lines|
      invariant all.thrown == ScanComposites(lines[k..], conv).thrown
      invariant cycleSet + all.values == loaded + ScanComposites(lines[k..], conv).values
    {
      assert lines[k..][1..] == lines[k + 1..];
      var composite := CompositeText(lines[k]);
      if composite.None? {
        return loaded, true;
      }
      var value := conv(composite.value);
      if value.None? {
        return loaded, true;
      }
      loaded := loaded + {value.value};
      k := k + 1;
    }
    assert lines[k..] == [];
  }

  /** `managexxx` for the record at position `index`: the set is loaded
      only when it is still empty; then every record from position
      indexShift on is flagged exactly when its value is in the set, the
      flags before indexShift are left alone, and the flagged records are
      counted. */
  method Managexxx(data: ReginaData, index: int, cycleSet: set<int>, listing: Option<seq<string>>,
                   conv: string -> Option<int>)
    returns (used: set<int>, rcount: int, aborted: bool)
    requires data.Valid() && 0 <= index < |data.regina| && data.indexShift <= |data.regina|
    requires listing.Some? ==> Indexable(listing.value)
    modifies data
    ensures data.Valid()
    ensures data.regina == old(data.regina)
    ensures data.indexShift == old(data.indexShift) && data.lastIndex == old(data.lastIndex)
    ensures cycleSet != {} ==> used == cycleSet && !aborted
    ensures cycleSet == {} && listing.None? ==> used == {} && !aborted
    ensures cycleSet == {} && listing.Some? ==>
              aborted == ScanComposites(listing.value, conv).thrown &&
              (!aborted ==> used == ScanComposites(listing.value, conv).values)
    ensures aborted ==> data.tags == old(data.tags)
    ensures !aborted ==> data.tags == old(data.tags)[..data.indexShift] + InSet(Rows(data.regina)[data.indexShift..], used)
    ensures !aborted ==> rcount == CountTrue(InSet(Rows(data.regina)[data.indexShift..], used))
  {
    used, aborted, rcount := cycleSet, false, 0;
    if cycleSet == {} {
      used, aborted := LoadCycleSequence(listing, conv, cycleSet);
      if aborted {
        return;
      }
    }
    rcount := TagFrom(data, data.indexShift, used);
  }

  /** Reading the listing throws. */
  predicate ListingThrows(listing: Option<seq<string>>, conv: string -> Option<int>)
    requires listing.Some? ==> Indexable(listing.value)
  {
    listing.Some? && ScanComposites(listing.value, conv).thrown
  }

  /** The members of the cycle as read from the listing; none when
      `cycle.tmp` did not open. */
  function ListingValues(listing: Option<seq<string>>, conv: string -> Option<int>): set<int>
    requires listing.Some? ==> Indexable(listing.value)
  {
    if listing.Some? then ScanComposites(listing.value, conv).values else {}
  }

  /** What `manageSequence` did with a sequence number: nothing (rejected,
      incomplete, or an open-ended sequence that merges elsewhere), a scan
      with the number of records flagged, or an abort because reading the
      cycle listing threw. */
  datatype Outcome = Untouched | Scanned(rcount: int) | Aborted

  /** The cycle branch of `manageSequence` followed by `managexxx`, starting
      from an empty set: a cycle (`perfect` false) reads the listing in
      `manageCycleNumber` and, if that left the set empty, reads it again;
      a perfect number reads it once. Either way the records from position
      indexShift on are flagged exactly when their value is a member. */
  method ManageCycle(data: ReginaData, index: int, perfect: bool, listing: Option<seq<string>>, conv: string -> Option<int>)
    returns (outcome: Outcome)
    requires data.Valid() && 0 <= index < |data.regina| && data.indexShift <= |data.regina|
    requires listing.Some? ==> Indexable(listing.value)
    modifies data
    ensures data.Valid()
    ensures data.regina == old(data.regina)
    ensures data.indexShift == old(data.indexShift) && data.lastIndex == old(data.lastIndex)
    ensures ListingThrows(listing, conv) ==> outcome.Aborted? && data.tags == old(data.tags)
    ensures !ListingThrows(listing, conv) ==>
              var flags := InSet(Rows(data.regina)[data.indexShift..], ListingValues(listing, conv));
              outcome == Scanned(CountTrue(flags)) && data.tags == old(data.tags)[..data.indexShift] + flags
  {
    var cycleSet: set<int> := {};
    var aborted := false;
    if !perfect {
      cycleSet, aborted := LoadCycleSequence(listing, conv, cycleSet);
      if aborted {
        return Aborted;
      }
      assert cycleSet == ListingValues(listing, conv);
    }
    var used, rcount;
    used, rcount, aborted := Managexxx(data, index, cycleSet, listing, conv);
    if aborted {
      return Aborted;
    }
    assert used == ListingValues(listing, conv);
    outcome := Scanned(rcount);
  }

  /** The scan `manageSequence` runs for the record at position `p`, by
      its termination kind: a prime end flags every record ending in the
      same prime, an open end whose value is its own number flags the
      later records merging into it, a cycle flags the records whose value
      is in the cycle. */
  method ManageRecord(data: ReginaData, n: int, d: Dispatch, listing: Option<seq<string>>, conv: string -> Option<int>)
    returns (outcome: Outcome)
    requires data.Valid() && data.indexShift <= |data.regina|
    requires !d.OutOfBounds? && 0 <= d.pos < |data.regina|
    requires d.PrimeEnd? ==> data.regina[d.pos].row.elB == 1
    requires listing.Some? ==> Indexable(listing.value)
    modifies data
    ensures data.Valid()
    ensures data.regina == old(data.regina)
    ensures data.indexShift == old(data.indexShift) && data.lastIndex == old(data.lastIndex)
    ensures d.Incomplete? ==> outcome.Untouched? && data.tags == old(data.tags)
    ensures d.PrimeEnd? ==>
              data.tags == InSet(Rows(data.regina), {data.regina[d.pos].row.elD}) &&
              outcome == Scanned(CountTrue(data.tags))
    ensures d.OpenEnd? && data.regina[d.pos].row.elD != n ==> outcome.Untouched? && data.tags == old(data.tags)
    ensures d.OpenEnd? && data.regina[d.pos].row.elD == n ==>
              var flags := InSet(Rows(data.regina)[d.pos + 1..], {n});
              outcome == Scanned(CountTrue(flags)) && data.tags == old(data.tags)[..d.pos + 1] + flags
    ensures d.CycleEnd? && ListingThrows(listing, conv) ==> outcome.Aborted? && data.tags == old(data.tags)
    ensures d.CycleEnd? && !ListingThrows(listing, conv) ==>
              var flags := InSet(Rows(data.regina)[data.indexShift..], ListingValues(listing, conv));
              outcome == Scanned(CountTrue(flags)) && data.tags == old(data.tags)[..data.indexShift] + flags
  {
    outcome := Untouched;
    match d
    case Incomplete(_) =>
    case PrimeEnd(p) =>
      var rcount := PrimesFind(data, data.regina[p].row.elD);
      outcome := Scanned(rcount);
    case OpenEnd(p) =>
      var ran, rcount := ManageOpenEndedSequence(data, n, p);
      if ran {
        outcome := Scanned(rcount);
      }
    case CycleEnd(p, perfect) =>
      outcome := ManageCycle(data, p, perfect, listing, conv);
  }

  /** `manageSequence` for sequence number n, on the paths that answer the
      prompts with yes: the bounds check and the branch on the termination
      kind, then the scan that kind calls for. */
  method ManageSequence(data: ReginaData, n: int, listing: Option<seq<string>>, conv: string -> Option<int>)
    returns (d: Dispatch, outcome: Outcome)
    requires data.Valid()
    requires Position(data.indexShift, data.lastIndex, n).Some? ==> 0 <= n - data.indexShift < |data.regina|
    requires data.indexShift <= |data.regina|
    requires listing.Some? ==> Indexable(listing.value)
    modifies data
    ensures data.Valid()
    ensures data.regina == old(data.regina)
    ensures data.indexShift == old(data.indexShift) && data.lastIndex == old(data.lastIndex)
    ensures d == Classify(data.regina, data.indexShift, data.lastIndex, n)
    ensures (d.OutOfBounds? || d.Incomplete?) ==> outcome.Untouched? && data.tags == old(data.tags)
    ensures d.PrimeEnd? ==>
              data.tags == InSet(Rows(data.regina), {data.regina[d.pos].row.elD}) &&
              outcome == Scanned(CountTrue(data.tags))
    ensures d.OpenEnd? && data.regina[d.pos].row.elD != n ==> outcome.Untouched? && data.tags == old(data.tags)
    ensures d.OpenEnd? && data.regina[d.pos].row.elD == n ==>
              var flags := InSet(Rows(data.regina)[d.pos + 1..], {n});
              outcome == Scanned(CountTrue(flags)) && data.tags == old(data.tags)[..d.pos + 1] + flags
    ensures d.CycleEnd? && ListingThrows(listing, conv) ==> outcome.Aborted? && data.tags == old(data.tags)
    ensures d.CycleEnd? && !ListingThrows(listing, conv) ==>
              var flags := InSet(Rows(data.regina)[data.indexShift..], ListingValues(listing, conv));
              outcome == Scanned(CountTrue(flags)) && data.tags == old(data.tags)[..data.indexShift] + flags
  {
    d := Classify(data.regina, data.indexShift, data.lastIndex, n);
    if d.OutOfBounds? {
      outcome := Untouched;
    } else {
      outcome := ManageRecord(data, n, d, listing, conv);
    }
  }
}
