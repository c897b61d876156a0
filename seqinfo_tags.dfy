/** The scans of seqinfo.cpp that rewrite the result-list flags: the
    terminating-prime scan, the merge scan of an open-ended sequence and the
    cycle-membership scan, with the parsing of the downloaded cycle listing. */
module SeqInfoTags {
  import opened Records
  import opened SeqInfoStore

  /** The flag-setting loop shared by `primesfind` and the merge scan: every
      slot in [lo, hi) is set to "terminal value equals `v`" and the set ones
      are counted; no other slot changes. */
  method TagRange(seqd: array<Row<string>>, ulist: array<bool>, lo: int, hi: int, v: string)
    returns (rcount: int)
    requires 0 <= lo <= hi <= seqd.Length == ulist.Length
    modifies ulist
    ensures ulist[lo..hi] == Matches(seqd[lo..hi], v)
    ensures ulist[..lo] == old(ulist[..lo]) && ulist[hi..] == old(ulist[hi..])
    ensures rcount == CountTrue(ulist[lo..hi])
  {
    ghost var rows, saved := seqd[..], ulist[..];
    rcount := 0;
    var j := lo;
    while j < hi
      invariant lo <= j <= hi
      invariant forall t :: 0 <= t < ulist.Length ==> ulist[t] == if lo <= t < j then rows[t].elD == v else saved[t]
      invariant rcount == CountTrue(Matches(rows[lo..j], v))
    {
      MatchesNext(rows, lo, j, v);
      var hit := TagSlot(seqd, ulist, j, v);
      if hit {
        rcount := rcount + 1;
      }
      j := j + 1;
    }
    FlagsFromPointwise(ulist[..], saved, rows, lo, hi, v);
    assert rows[lo..hi] == seqd[lo..hi];
  }

  /** One step of the equality scan: slot `j` is flagged iff its terminal
      value is `v`. */
  method TagSlot(seqd: array<Row<string>>, ulist: array<bool>, j: int, v: string) returns (hit: bool)
    requires 0 <= j < seqd.Length == ulist.Length
    modifies ulist
    ensures hit == (seqd[j].elD == v) && ulist[j] == hit
    ensures forall t :: 0 <= t < ulist.Length && t != j ==> ulist[t] == old(ulist[t])
  {
    if seqd[j].elD == v {
      ulist[j] := true;
      hit := true;
    } else {
      ulist[j] := false;
      hit := false;
    }
  }

  /** `primesfind` after a confirming reply: every slot 2 .. seqscount - 1 is
      flagged iff its terminal value equals that of `seqn`, whatever its
      termination kind; `seqn` itself is always among the flagged. */
  method PrimesFind(seqd: array<Row<string>>, ulist: array<bool>, seqscount: int, seqn: int)
    returns (rcount: int)
    requires 2 <= seqn < seqscount <= seqd.Length == ulist.Length
    modifies ulist
    ensures ulist[2..seqscount] == Matches(seqd[2..seqscount], seqd[seqn].elD)
    ensures ulist[..2] == old(ulist[..2]) && ulist[seqscount..] == old(ulist[seqscount..])
    ensures rcount == CountTrue(ulist[2..seqscount]) && rcount >= 1
  {
    rcount := TagRange(seqd, ulist, 2, seqscount, seqd[seqn].elD);
    MatchesSelf(seqd[2..seqscount], seqn - 2);
  }

  /** The `p##` command: the flags are rewritten only when some sequence
      terminates with the prime `p`, and then they mark exactly the rows whose
      terminal value is `p`. */
  method PrimeCommand(seqd: array<Row<string>>, ulist: array<bool>, seqscount: int, p: string)
    returns (found: bool, rcount: int)
    requires 2 <= seqscount <= seqd.Length == ulist.Length
    modifies ulist
    ensures found <==> exists j :: 2 <= j < seqscount && seqd[j].elD == p && seqd[j].elB == 1
    ensures found ==> ulist[2..seqscount] == Matches(seqd[2..seqscount], p) && rcount == CountTrue(ulist[2..seqscount])
    ensures found ==> ulist[..2] == old(ulist[..2]) && ulist[seqscount..] == old(ulist[seqscount..])
    ensures !found ==> ulist[..] == old(ulist[..])
  {
    var r := FindPrimeRow(seqd, seqscount, p);
    found := r.Some?;
    rcount := 0;
    if found {
      rcount := PrimesFind(seqd, ulist, seqscount, r.value);
    }
  }

  /** The merge scan of an open-ended sequence `seqn`: it runs only when the
      row's terminal value is `seqn` itself (the sequence is the smallest of
      its merge class); then the slots after `seqn` are flagged iff they
      share the terminal value, and no slot at or before `seqn` changes.
      When it does not run, nothing changes. */
  method MergeScan(seqd: array<Row<string>>, ulist: array<bool>, seqscount: int, seqn: int)
    returns (ran: bool, rcount: int)
    requires 2 <= seqn < seqscount <= seqd.Length == ulist.Length
    modifies ulist
    ensures ran <==> DecimalString(seqn) == seqd[seqn].elD
    ensures ran ==> ulist[seqn + 1..seqscount] == Matches(seqd[seqn + 1..seqscount], seqd[seqn].elD)
    ensures ran ==> rcount == CountTrue(ulist[seqn + 1..seqscount])
    ensures ran ==> ulist[..seqn + 1] == old(ulist[..seqn + 1]) && ulist[seqscount..] == old(ulist[seqscount..])
    ensures !ran ==> ulist[..] == old(ulist[..]) && rcount == 0
  {
    ran := DecimalString(seqn) == seqd[seqn].elD;
    rcount := 0;
    if ran {
      rcount := TagRange(seqd, ulist, seqn + 1, seqscount, seqd[seqn].elD);
    }
  }

  /** What one line of the cycle listing contributes. */
  datatype CycleLine = NoMember | Member(value: string) | OutOfRange

  /** One line of the cycle listing: when it contains both a `.` and a `=`,
      the member is `substr(foundp + 4, founde - foundp - 5)` with the length
      computed in `size_t`, so a `=` closer than five positions after the
      `.` wraps the length and the member runs to the end of the line; a `.`
      within the last three positions makes `substr` throw. */
  function ParseCycleLine(buff: string): (r: CycleLine)
  {
    var foundp, founde := FindFrom(buff, '.', 0), FindFrom(buff, '=', 0);
    if foundp.None? || founde.None? || foundp.value + 5 >= SizeT || founde.value >= SizeT then NoMember
    else
      match Substr(buff, foundp.value + 4, SizeSub(founde.value, foundp.value + 5))
      case None => OutOfRange
      case Some(m) => Member(m)
  }

  /** `find` succeeds exactly when the character occurs. */
  lemma FindFromIn(s: string, ch: char)
    ensures FindFrom(s, ch, 0).Some? <==> ch in s
  {
    if ch in s {
      var i :| 0 <= i < |s| && s[i] == ch;
      assert FindFrom(s, ch, 0).Some?;
    }
  }

  /** A line contributes only when it holds both markers; the member is the
      text from four past the first `.` up to the character before the first
      `=`, or to the end of the line when the `=` comes too early. */
  lemma ParseCycleLineSpec(buff: string)
    requires |buff| < 0x8000_0000_0000_0000
    ensures !ParseCycleLine(buff).NoMember? <==> '.' in buff && '=' in buff
    ensures ParseCycleLine(buff).OutOfRange? <==>
              '.' in buff && '=' in buff && FindFrom(buff, '.', 0).value + 4 > |buff|
    ensures ParseCycleLine(buff).Member? ==>
              var p, e := FindFrom(buff, '.', 0).value, FindFrom(buff, '=', 0).value;
              (e >= p + 5 ==> ParseCycleLine(buff).value == buff[p + 4..e - 1]) &&
              (e < p + 5 ==> ParseCycleLine(buff).value == buff[p + 4..])
  {
    FindFromIn(buff, '.');
    FindFromIn(buff, '=');
    if '.' in buff && '=' in buff {
      var p, e := FindFrom(buff, '.', 0).value, FindFrom(buff, '=', 0).value;
      assert p + 5 < SizeT && e < SizeT;
    }
  }

  /** The members read from a listing up to the first line whose `substr`
      throws, and whether one did. */
  datatype Listing = Listing(members: seq<string>, thrown: bool)

  function ScanCycleLines(lines: seq<string>): (r: Listing)
  {
    if lines == [] then Listing([], false)
    else
      match ParseCycleLine(lines[0])
      case OutOfRange => Listing([], true)
      case NoMember => ScanCycleLines(lines[1..])
      case Member(m) =>
        var rest := ScanCycleLines(lines[1..]);
        Listing([m] + rest.members, rest.thrown)
  }

  /** Every member comes from a line holding both markers, in line order. */
  lemma {:induction false} ScanCycleLinesMembers(lines: seq<string>)
    ensures |ScanCycleLines(lines).members| <= |lines|
    ensures forall m :: m in ScanCycleLines(lines).members ==>
              exists i :: 0 <= i < |lines| && ParseCycleLine(lines[i]) == Member(m)
    ensures !ScanCycleLines(lines).thrown ==> forall i :: 0 <= i < |lines| ==> !ParseCycleLine(lines[i]).OutOfRange?
  {
    if lines != [] {
      ScanCycleLinesMembers(lines[1..]);
      forall m | m in ScanCycleLines(lines).members
        ensures exists i :: 0 <= i < |lines| && ParseCycleLine(lines[i]) == Member(m)
      {
        if ParseCycleLine(lines[0]) != Member(m) {
          var i :| 0 <= i < |lines[1..]| && ParseCycleLine(lines[1..][i]) == Member(m);
          assert ParseCycleLine(lines[i + 1]) == Member(m);
        }
      }
      if !ScanCycleLines(lines).thrown {
        forall i | 0 <= i < |lines|
          ensures !ParseCycleLine(lines[i]).OutOfRange?
        {
          if i > 0 {
            assert lines[i] == lines[1..][i - 1];
          }
        }
      }
    }
  }

  /** The read loop over `cycle.tmp`: each member is stored in the next slot
      of `cycles` from slot 0, and the count is then reduced by two; a line
      whose `substr` throws ends the program (`thrown`). The listing must not
      hold more than the 40 members `cycles` has room for. */
  method ReadCycles(lines: seq<string>, cycles: array<string>) returns (c: int, thrown: bool)
    requires cycles.Length == 40 && |ScanCycleLines(lines).members| <= 40
    modifies cycles
    ensures thrown == ScanCycleLines(lines).thrown
    ensures !thrown ==> c == |ScanCycleLines(lines).members| - 2
    ensures cycles[..|ScanCycleLines(lines).members|] == ScanCycleLines(lines).members
  {
    ghost var all := ScanCycleLines(lines);
    var n := 0;
    var k := 0;
    while k < |lines|
      invariant 0 <= k <= |lines| && 0 <= n <= 40
      invariant all.members == cycles[..n] + ScanCycleLines(lines[k..]).members
      invariant all.thrown == ScanCycleLines(lines[k..]).thrown
    {
      assert lines[k..][1..] == lines[k + 1..];
      var parsed := ParseCycleLine(lines[k]);
      if parsed.OutOfRange? {
        thrown := true;
        c := n;
        return;
      } else if parsed.Member? {
        cycles[n] := parsed.value;
        n := n + 1;
      }
      k := k + 1;
    }
    assert lines[k..] == [];
    thrown := false;
    c := n - 2;
  }

  /** Members in `cs` equal to `v`, counted with repetition. */
  function Occurrences(cs: seq<string>, v: string): (r: nat)
    ensures r <= |cs|
  {
    if cs == [] then 0
    else Occurrences(cs[..|cs| - 1], v) + (if cs[|cs| - 1] == v then 1 else 0)
  }

  /** The count the membership scan adds up: one per (row, matching member)
      pair. */
  function TotalOccurrences(rows: seq<Row<string>>, cs: seq<string>): nat {
    if rows == [] then 0
    else TotalOccurrences(rows[..|rows| - 1], cs) + Occurrences(cs, rows[|rows| - 1].elD)
  }

  /** The cycle members as a set: the values the membership scan looks
      for. */
  function MemberSet(cs: seq<string>): (r: set<string>)
    ensures forall x :: x in r <==> x in cs
  {
    set x | x in cs
  }

  predicate DistinctMembers(cs: seq<string>) {
    forall i, j :: 0 <= i < j < |cs| ==> cs[i] != cs[j]
  }

  /** A value occurs iff it is a member, and at most once when the members
      are distinct. */
  lemma {:induction false} OccurrencesMember(cs: seq<string>, v: string)
    ensures Occurrences(cs, v) > 0 <==> v in cs
    ensures DistinctMembers(cs) ==> Occurrences(cs, v) <= 1
  {
    if cs != [] {
      var init := cs[..|cs| - 1];
      OccurrencesMember(init, v);
      assert cs == init + [cs[|cs| - 1]];
    }
  }

  /** The scan's count is at least the number of flagged rows, and equals it
      when the cycle has no repeated member; a member listed twice counts its
      rows twice. */
  lemma {:induction false} TotalOccurrencesCount(rows: seq<Row<string>>, cs: seq<string>)
    ensures TotalOccurrences(rows, cs) >= CountTrue(InSet(rows, MemberSet(cs)))
    ensures DistinctMembers(cs) ==> TotalOccurrences(rows, cs) == CountTrue(InSet(rows, MemberSet(cs)))
  {
    if rows != [] {
      var init := rows[..|rows| - 1];
      TotalOccurrencesCount(init, cs);
      OccurrencesMember(cs, rows[|rows| - 1].elD);
      assert InSet(rows, MemberSet(cs))[..|rows| - 1] == InSet(init, MemberSet(cs));
    }
  }

  /** Extending the scanned rows by one adds that row's count. */
  lemma {:induction false} TotalOccurrencesNext(rows: seq<Row<string>>, j: int, cs: seq<string>)
    requires 2 <= j < |rows|
    ensures TotalOccurrences(rows[2..j + 1], cs) == TotalOccurrences(rows[2..j], cs) + Occurrences(cs, rows[j].elD)
  {
    assert rows[2..j + 1][..j - 2] == rows[2..j];
  }

  /** The inner loop of the membership scan for slot `j`: the flag is cleared
      and set by every member equal to `v` among the first `c`, and `occ`
      counts those members. */
  method TagRow(ulist: array<bool>, j: int, cycles: array<string>, c: int, v: string) returns (occ: nat)
    requires 0 <= j < ulist.Length && c <= cycles.Length
    modifies ulist
    ensures ulist[j] == (v in cycles[..if c > 0 then c else 0])
    ensures occ == Occurrences(cycles[..if c > 0 then c else 0], v)
    ensures forall t :: 0 <= t < ulist.Length && t != j ==> ulist[t] == old(ulist[t])
  {
    ulist[j] := false;
    occ := 0;
    var k := 0;
    while k < c
      invariant 0 <= k <= (if c > 0 then c else 0)
      invariant ulist[j] == (v in cycles[..k])
      invariant occ == Occurrences(cycles[..k], v)
      invariant forall t :: 0 <= t < ulist.Length && t != j ==> ulist[t] == old(ulist[t])
    {
      assert cycles[..k + 1] == cycles[..k] + [cycles[k]];
      if cycles[k] == v {
        ulist[j] := true;
        occ := occ + 1;
      }
      k := k + 1;
    }
    assert cycles[..k] == cycles[..if c > 0 then c else 0];
  }

  /** The membership scan: every slot 2 .. seqscount - 1 is cleared and then
      set iff its terminal value occurs among the first `c` members (none when
      `c` is not positive); each matching member adds one to the count. */
  method CycleScan(seqd: array<Row<string>>, ulist: array<bool>, seqscount: int, cycles: array<string>, c: int)
    returns (rcount: int)
    requires 2 <= seqscount <= seqd.Length == ulist.Length && c <= cycles.Length
    modifies ulist
    ensures ulist[2..seqscount] == InSet(seqd[2..seqscount], MemberSet(cycles[..if c > 0 then c else 0]))
    ensures ulist[..2] == old(ulist[..2]) && ulist[seqscount..] == old(ulist[seqscount..])
    ensures rcount == TotalOccurrences(seqd[2..seqscount], cycles[..if c > 0 then c else 0])
  {
    ghost var rows, saved := seqd[..], ulist[..];
    ghost var cs := cycles[..if c > 0 then c else 0];
    rcount := 0;
    var j := 2;
    while j < seqscount
      invariant 2 <= j <= seqscount
      invariant forall t :: 0 <= t < ulist.Length ==> ulist[t] == if 2 <= t < j then rows[t].elD in cs else saved[t]
      invariant rcount == TotalOccurrences(rows[2..j], cs)
    {
      TotalOccurrencesNext(rows, j, cs);
      var occ := TagRow(ulist, j, cycles, c, seqd[j].elD);
      rcount := rcount + occ;
      j := j + 1;
    }
    assert rows[2..seqscount] == seqd[2..seqscount];
  }

  /** The members the membership scan uses for a listing: all but the last
      two read before any throw, none when the listing could not be fetched. */
  function CycleMembers(artifact: Option<seq<string>>): seq<string> {
    match artifact
    case None => []
    case Some(lines) =>
      var m := ScanCycleLines(lines).members;
      if |m| >= 2 then m[..|m| - 2] else []
  }

  /** The cycle branch of `main` for a sequence ending in a cycle, with the
      scan over all sequences confirmed. `display` is the reply to showing
      the cycle first (never asked for a perfect number); `artifact` is the
      downloaded listing, None when it cannot be opened. The listing is read
      when shown and read again when the count left is zero, so the flags and
      the count do not depend on `display`. */
  method CycleCommand(seqd: array<Row<string>>, ulist: array<bool>, seqscount: int, seqn: int,
                      display: bool, artifact: Option<seq<string>>, cycles: array<string>)
    returns (rcount: int, aborted: bool)
    requires 2 <= seqn < seqscount <= seqd.Length == ulist.Length && seqd[seqn].elB < 0
    requires cycles.Length == 40
    requires artifact.Some? ==> |ScanCycleLines(artifact.value).members| <= 40
    modifies ulist, cycles
    ensures aborted <==> artifact.Some? && ScanCycleLines(artifact.value).thrown
    ensures !aborted ==> ulist[2..seqscount] == InSet(seqd[2..seqscount], MemberSet(CycleMembers(artifact)))
    ensures !aborted ==> rcount == TotalOccurrences(seqd[2..seqscount], CycleMembers(artifact))
    ensures !aborted ==> ulist[..2] == old(ulist[..2]) && ulist[seqscount..] == old(ulist[seqscount..])
  {
    var c := 0;
    aborted := false;
    rcount := 0;
    if !(seqd[seqn].elD in PerfectNumbers) && display && artifact.Some? {
      c, aborted := ReadCycles(artifact.value, cycles);
      if aborted {
        return;
      }
    }
    if c == 0 && artifact.Some? {
      c, aborted := ReadCycles(artifact.value, cycles);
      if aborted {
        return;
      }
    }
    assert cycles[..if c > 0 then c else 0] == CycleMembers(artifact);
    rcount := CycleScan(seqd, ulist, seqscount, cycles, c);
  }
}
