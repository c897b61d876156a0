# Aliquot-sequence query tool, modelled in Dafny

The tool loads `regina_file`. This file holds one line of statistics per aliquot sequence:
- the termination kind;
- the number of iterations;
- the terminal value (the cycle entry, the smallest merged sequence, or the terminating prime);
- run lengths, quotients and digit means.

The tool answers interactive commands against that table:
- a sequence number: what happened to it, then a scan flagging the related sequences;
- `p##`: the sequences that end in the prime `##`;
- `p` alone: the count of every terminating prime;
- `a`: an advanced search over seventeen filters, optionally restricted to the sequences flagged by the previous scan.

Two versions exist, and both are modelled.

**`seqinfo.cpp`** (the string version) keeps the rows in an array indexed by sequence number, and the terminal value as a decimal string. It is modelled imperatively, as methods over `array`s:
- `SeqInfoStore`: loading and dispatch;
- `SeqInfoAdvanced`: the advanced search;
- `SeqInfoPrimes`: the prime listing and its bubble sort;
- `SeqInfoTags`: the flag-setting scans and the cycle-listing parse.

**`seqinfo_double.cpp`** (the vector version) keeps the records in a vector at position `n - indexShift`, with the terminal value as a `double`. Its loaded data is a class, `DoubleData.ReginaData`, whose methods update its fields. Its parsing and query building are functions. It is modelled in four modules:
- `DoubleData`: the class, loading, dispatch and the size estimate;
- `DoubleAdvanced`: `getParamPair` and `advanced`;
- `DoubleScans`: the flag-setting scans and `LoadCycleSequence`;
- `DoublePrimes`: `primeslist` over a `std::map`.

Both versions share the `Records` module, which holds:
- the row;
- the normalised query;
- the row test of the advanced search;
- C++ `%`;
- `size_t` wrap-around;
- `std::string::find` and `substr`.

Each scan method is proved against a specification function. The flags it leaves are stated as a function of the rows: `Matches` for an equality scan, or `InSet` for a membership scan over the searched values. Its count is stated as `CountTrue` of those flags, or as `TotalOccurrences` when the source counts one per matching cycle member. Lemmas then relate those functions to membership, ordering and counting.

Reading the source closely shows these behaviours, modelled as written:
- In both versions, the cycle selector `c` (-1) accepts only `elB == -1`, not every negative kind.
- In `seqinfo.cpp`, a single downdriver value `u` gives the interval `u .. s`, where `s` is the odd-abundant lower bound.
- `seqinfo.cpp` stores up to 40 cycle members, then drops the last two from the count.
- `seqinfo.cpp` reads the listing again when the count left is zero.
- `seqinfo_double.cpp` bounds the advanced range by the vector size minus one. That bound is a position count, not a sequence number, so the last `indexShift` sequences can never be reported.
- `managexxx` scans from vector position `indexShift`, not from the first record.
- A listing line without a `.` starts its composite at position 3, because `npos + 4` wraps around.

## Model

| member | source | states |
|---|---|---|
| Records.CRem | seqinfo.cpp:550 | C++ `%` truncates toward zero: the remainder differs from the dividend by a multiple of the divisor, is smaller than the divisor in magnitude, and takes the dividend's sign, which fixes it uniquely |
| Records.KindSelector | seqinfo.cpp:555-558 | selector 2 accepts every kind and 1 or 0 accepts exactly that kind; -1 accepts only elB == -1, so kinds below -1 are rejected |
| Records.ChainedNeedsTag | seqinfo.cpp:553-554 | a chained search accepts only flagged rows, and whatever it accepts the unchained search accepts too |
| Records.Matches | seqinfo.cpp:629-643 | the equality scan flags row k exactly when its terminal value is v |
| Records.MatchesSelf | seqinfo.cpp:629-640 | a scan for the value of one of its own rows counts at least one |
| Records.FindFrom | seqinfo.cpp:949-950 | `find` gives the first position at or after `from` holding the character, or none when there is no such position |
| Records.SizeSub | seqinfo.cpp:952 | `size_t` subtraction is the difference, or the difference plus 2^64 when it would be negative |
| Records.SizeAdd | seqinfo_double.cpp:734-735 | `size_t` addition is the sum, or the sum minus 2^64 when it passes the largest value |
| Records.Substr | seqinfo.cpp:952 | `substr` throws (None) exactly when pos is past the end; otherwise it gives exactly the len characters from pos, or the rest of the string from pos when pos + len reaches the end |
| SeqInfoStore.Take | seqinfo.cpp:699-824 | a field is stored only when a comma follows it: a line with all twenty commas is stored whole, a line with at most one comma leaves the slot zero, and elB is stored once its comma is present |
| SeqInfoStore.KindCountsPartition | seqinfo.cpp:709-714 | every line whose elB was taken bumps exactly one of the prime, open and cycle counters |
| SeqInfoStore.LoadedNext | seqinfo.cpp:698-826 | loading one more line writes exactly one more slot |
| SeqInfoStore.Load | seqinfo.cpp:696-828 | line k lands in slot 2 + k while slots remain; seqscount ends one below the slot count reached, so the last line read is dropped; every flag is clear, and the counters count the kinds of every line read, including the dropped last line |
| SeqInfoStore.Classify | seqinfo.cpp:867-923 | numbers outside 2 .. seqscount - 1 are rejected; otherwise the row's elB picks prime, open, cycle or incomplete, and a cycle is "perfect" exactly when its value is one of the ten perfect numbers |
| SeqInfoStore.FindPrimeRow | seqinfo.cpp:850-862 | `p##` finds the first sequence that terminates as a prime with value `##`, or reports that none does |
| SeqInfoStore.CreateUpdate | seqinfo.cpp:71-76 | the update routine changes no row |
| SeqInfoStore.DecimalString | seqinfo.cpp:875 | `to_string` gives decimal digits with no leading zero |
| SeqInfoStore.DecimalRoundTrip | seqinfo.cpp:875 | reading the decimal string back gives the number |
| SeqInfoStore.DecimalStringInjective | seqinfo.cpp:875 | distinct numbers have distinct decimal strings, so `to_string(seqn) == elD` compares numbers |
| SeqInfoAdvanced.KindFromReply | seqinfo.cpp:240-249 | replies starting with p, o or c select 1, 0 or -1; anything else, including an empty reply, selects 2 |
| SeqInfoAdvanced.CountSpan | seqinfo.cpp:250-268 | an empty answer gives 0 .. default, a single value v gives v .. v, and the lower end is never below 0 |
| SeqInfoAdvanced.RatioSpan | seqinfo.cpp:421-439 | an empty answer gives 0 .. 10000, a single value v gives v .. v, and the lower end is never below 0 |
| SeqInfoAdvanced.ModulusPair | seqinfo.cpp:196-218 | an empty answer gives 0 (mod 1) and a single value b gives 0 (mod b); a is raised to 0 and b is capped at seqscount - 1 |
| SeqInfoAdvanced.RangePair | seqinfo.cpp:219-239 | an empty answer gives the whole table 2 .. seqscount - 1, a single value v gives v .. v, and both ends are clamped into the table |
| SeqInfoAdvanced.DowndriverSpan | seqinfo.cpp:402-420 | a single downdriver value u gives u .. s, the odd-abundant lower bound; an empty answer gives 0 .. 10000 |
| SeqInfoAdvanced.Normalize | seqinfo.cpp:196-534 | the query's bounds: a >= 0, b <= seqscount - 1, range within 2 .. seqscount - 1, every lower bound at least 0; each part comes from its answer as above |
| SeqInfoAdvanced.NormalizeDefaults | seqinfo.cpp:196-534 | with every answer empty, the query is 0 (mod 1) over the whole table, all kinds, iterations 0 .. 30000, and every other column 0 .. 10000 |
| SeqInfoAdvanced.SelectedSpec | seqinfo.cpp:548-600 | the search reports exactly the numbers in the range whose rows pass, each once and in increasing order |
| SeqInfoAdvanced.SelectedNext | seqinfo.cpp:548-600 | one more number extends the report by it exactly when its row passes |
| SeqInfoAdvanced.ChainedWithinTagged | seqinfo.cpp:553-554 | a chained search reports only flagged rows, each of which the unchained search also reports |
| SeqInfoAdvanced.RowShown | seqinfo.cpp:549-588 | the chain of `show` checks accepts a row exactly when it passes the query |
| SeqInfoAdvanced.Filter | seqinfo.cpp:546-600 | the filter loop reports the specified selection and counts it |
| SeqInfoAdvanced.Advanced | seqinfo.cpp:185-612 | the answers are normalised, then the selection over the normalised range is reported and counted |
| SeqInfoPrimes.LexLessIrreflexive | seqinfo.cpp:136 | `compare` never puts a string before itself |
| SeqInfoPrimes.LexLessTransitive | seqinfo.cpp:136 | `compare` order is transitive |
| SeqInfoPrimes.LexLessTotal | seqinfo.cpp:136 | any two different strings are ordered one way by `compare` |
| SeqInfoPrimes.KeyLeReflexive | seqinfo.cpp:136-153 | the listing order (length first, then `compare`) is reflexive |
| SeqInfoPrimes.KeyLeTransitive | seqinfo.cpp:136-153 | the listing order is transitive |
| SeqInfoPrimes.KeyLeTotal | seqinfo.cpp:136-153 | the listing order is total |
| SeqInfoPrimes.PrimeCountWitness | seqinfo.cpp:119-132 | a prime counted at least once is the value of some prime-terminated row |
| SeqInfoPrimes.Bumped | seqinfo.cpp:122-127 | every entry for v gets its count raised by one, and no other entry changes |
| SeqInfoPrimes.BumpedTotal | seqinfo.cpp:122-127 | with distinct entries, bumping v raises the total by one exactly when v is listed |
| SeqInfoPrimes.CoveredNext | seqinfo.cpp:119-132 | after the row is processed, its prime is listed and the earlier primes stay listed |
| SeqInfoPrimes.CountsBump | seqinfo.cpp:122-127 | bumping keeps every count equal to the number of rows ending in its prime |
| SeqInfoPrimes.CountsAppend | seqinfo.cpp:128-132 | appending a new prime with count 1 keeps every count equal to its rows |
| SeqInfoPrimes.CountsSkip | seqinfo.cpp:119 | a row not ending in a prime changes no count |
| SeqInfoPrimes.ListingSkip | seqinfo.cpp:119 | a row not ending in a prime keeps the listing the listing of the rows |
| SeqInfoPrimes.ListingBump | seqinfo.cpp:120-127 | a row whose prime is listed bumps it, and the listing stays exact |
| SeqInfoPrimes.ListingAppend | seqinfo.cpp:128-132 | a row whose prime is not listed appends it with count 1, and the listing stays exact |
| SeqInfoPrimes.Bump | seqinfo.cpp:121-127 | the inner scan bumps every entry equal to v, not only the first, and reports whether there was one |
| SeqInfoPrimes.GroupRow | seqinfo.cpp:119-132 | one row turns the listing of the rows before it into the listing including it, growing by at most one entry |
| SeqInfoPrimes.Group | seqinfo.cpp:115-133 | the first phase gives distinct primes, each counted by its rows, covering every prime row of 2 .. seqscount - 1, with counts summing to the number of prime rows |
| SeqInfoPrimes.OrderPair | seqinfo.cpp:137-152 | the two conditional swaps together leave an ordered pair alone and exchange an unordered one |
| SeqInfoPrimes.StepKeep | seqinfo.cpp:137-152 | an inner step without a swap carries the largest element so far |
| SeqInfoPrimes.StepSwap | seqinfo.cpp:137-152 | an inner step that swaps carries the largest element so far, rearranges without losing entries, and stays out of the ordered suffix |
| SeqInfoPrimes.Step | seqinfo.cpp:137-152 | every inner step keeps the invariant of the pass |
| SeqInfoPrimes.PassDone | seqinfo.cpp:136-153 | a finished pass grows the ordered suffix by one |
| SeqInfoPrimes.AllPassed | seqinfo.cpp:135-154 | after pcount - 1 passes the listing is sorted and a permutation of the original |
| SeqInfoPrimes.Pass | seqinfo.cpp:136-153 | one pass of the inner loop grows the ordered suffix by one and rearranges the prefix |
| SeqInfoPrimes.SortTallies | seqinfo.cpp:135-154 | the bubble sort leaves plist[0 .. n) sorted by length, then `compare`, as a permutation, and nothing past n changes |
| SeqInfoPrimes.PrimesList | seqinfo.cpp:106-170 | the result is a sorted permutation of the exact listing: distinct terminating primes, each with the number of sequences ending in it |
| SeqInfoTags.TagRange | seqinfo.cpp:884-898 | every slot of [lo, hi) is flagged exactly when its value equals v, the count is the number flagged, and no other slot changes |
| SeqInfoTags.TagSlot | seqinfo.cpp:885-897 | one slot is set to "value equals v" and no other slot changes |
| SeqInfoTags.PrimesFind | seqinfo.cpp:615-661 | slots 2 .. seqscount - 1 are flagged exactly when their value equals that of seqn, whatever their kind, and at least seqn itself is counted |
| SeqInfoTags.PrimeCommand | seqinfo.cpp:850-863 | the flags change only when some sequence terminates as a prime with value p, and then they mark exactly the rows whose value is p |
| SeqInfoTags.MergeScan | seqinfo.cpp:873-898 | the scan runs exactly when `to_string(seqn)` equals the value; it flags the later slots sharing the value and leaves slots up to seqn alone; otherwise nothing changes |
| SeqInfoTags.FindFromIn | seqinfo.cpp:949-951 | `find` succeeds exactly when the character occurs |
| SeqInfoTags.ParseCycleLineSpec | seqinfo.cpp:949-953 | a line yields a member exactly when it holds both `.` and `=`; `substr` throws exactly when the `.` sits within the last three positions; the member runs from four past the `.` and stops one character short of the `=`, or runs to the end of the line when the `=` is less than five past the `.` and the length wraps |
| SeqInfoTags.ScanCycleLinesMembers | seqinfo.cpp:946-955 | every member read comes from a line holding both markers, there are no more members than lines, and without a throw no line throws |
| SeqInfoTags.ReadCycles | seqinfo.cpp:945-957 | the members are stored from slot 0 in line order, the count is two less than the members read, and a throwing line aborts |
| SeqInfoTags.Occurrences | seqinfo.cpp:1005-1006 | a value matches at most as many members as there are |
| SeqInfoTags.MemberSet | seqinfo.cpp:1005-1006 | the values the membership scan looks for are exactly the cycle members |
| SeqInfoTags.OccurrencesMember | seqinfo.cpp:1005-1016 | a value occurs exactly when it is a member, and at most once when the members are distinct |
| SeqInfoTags.TotalOccurrencesCount | seqinfo.cpp:1003-1017 | the scan's count is at least the number of flagged rows, and equals it when no member repeats |
| SeqInfoTags.TagRow | seqinfo.cpp:1004-1016 | the slot is cleared, then flagged exactly when its value is among the first c members; occ counts those members; no other slot changes |
| SeqInfoTags.CycleScan | seqinfo.cpp:1003-1017 | slots 2 .. seqscount - 1 are flagged exactly when their value is among the first c members, the count adds one per matching member, and slots outside the range keep their flags |
| SeqInfoTags.CycleCommand | seqinfo.cpp:921-1034 | unless a line throws, the flags mark exactly the rows whose value is in the listing minus its last two members (or none), whether or not the cycle was displayed first |
| DoubleData.KindTallySnoc | seqinfo_double.cpp:140-145 | appending a record adds one to the counter of its kind only |
| DoubleData.KindTallyPartition | seqinfo_double.cpp:140-145 | every record falls under exactly one counter |
| DoubleData.U16 | seqinfo_double.cpp:111 | `uint16_t` keeps the value modulo 2^16: the result is in 0 .. 2^16 - 1 and differs from the input by a multiple of 2^16 |
| DoubleData.ReginaData.constructor | seqinfo_double.cpp:103-113 | new data is empty, valid, and has indexShift 2 |
| DoubleData.ReginaData.Append | seqinfo_double.cpp:138-145 | a record is appended with its flag clear, and the counters still count the kinds |
| DoubleData.ReginaData.ReadStream | seqinfo_double.cpp:130-151 | the stream's records are appended in order with clear flags, and the counters sum to the size |
| DoubleData.ReginaData.LoadReginaFile | seqinfo_double.cpp:582-626 | an unopened file changes nothing and still succeeds; an early stop fails; success sets indexShift from the first record (kept in 16 bits) and lastIndex from the last, so consecutive records sit at n - indexShift |
| DoubleData.PositionFinds | seqinfo_double.cpp:886-891 | on a table without holes the bounds check accepts exactly the numbers present, and the position read holds that number |
| DoubleData.Classify | seqinfo_double.cpp:885-915 | out-of-range numbers are rejected; otherwise elB picks prime, open, cycle or incomplete, and a cycle is perfect exactly when its value is a perfect number |
| DoubleData.RoundUpLeast | seqinfo_double.cpp:487-490 | without wrap-around, `roundUp` gives the least multiple of m at or above n |
| DoubleData.EstimateVectorSizeSpec | seqinfo_double.cpp:492-505 | without a file size the estimate is 20000000; otherwise it is the least multiple of 1000000 at or above size / 110 |
| DoubleData.CreateUpdate | seqinfo_double.cpp:168-170 | the update routine changes no record or flag |
| DoubleAdvanced.ParamPairSpec | seqinfo_double.cpp:249-287 | the first is never below minFirst, the second never above a cap other than the type maximum; two in-bounds values come back as given, one value v as (v, v) or (minFirst, v), and no value or the maximum as (minFirst, default) |
| DoubleAdvanced.NormalizeBounds | seqinfo_double.cpp:299-336 | a >= 0, b <= size - 1, the range lies in 2 .. size - 1, and every lower bound is at least 0 |
| DoubleAdvanced.NormalizeLast | seqinfo_double.cpp:299-308 | the range never ends past position size - 1 |
| DoubleAdvanced.NormalizeDefaults | seqinfo_double.cpp:307-336 | with every answer empty, the query is 0 (mod 1) over 2 .. size - 1, all kinds, iterations 0 .. 3000, and every other column 0 .. 10000 |
| DoubleAdvanced.ReportedSpec | seqinfo_double.cpp:372-412 | a number is reported exactly when some position in range holds it and passes |
| DoubleAdvanced.ReportedAscending | seqinfo_double.cpp:372-412 | on a table without holes the reported numbers increase and stay below shift + hi |
| DoubleAdvanced.ReportedContiguous | seqinfo_double.cpp:362-412 | on a table without holes the search reports exactly the numbers first .. shift + hi - 1 whose records pass, each once and in increasing order |
| DoubleAdvanced.AdvancedUnreachableTail | seqinfo_double.cpp:299-308 | because the range is capped by the vector size minus one, no sequence number at or above the vector size (the last indexShift sequences) is ever reported |
| DoubleAdvanced.Report | seqinfo_double.cpp:358-412 | the loop reports, in position order, the numbers of the records in c - indexShift .. d - indexShift that pass, and counts them |
| DoubleAdvanced.Advanced | seqinfo_double.cpp:289-424 | the answers are normalised against the vector size, then the records in the normalised range are reported and counted |
| Records.InSet | seqinfo_double.cpp:780-794 | the membership scan flags record k exactly when its value is in the searched set; both versions' cycle scans are stated with it |
| Records.InSetNext | seqinfo_double.cpp:780-794 | one more record extends the flags by its test and the count by one exactly when it is flagged |
| DoubleScans.InSetSelf | seqinfo_double.cpp:637-643 | a scan for a set containing some record's value counts at least one |
| DoubleScans.ScanFlags | seqinfo_double.cpp:453-467 | from position lo on, every flag becomes "value in the set", the flags before lo are kept, and the flagged records are counted |
| DoubleScans.TagFrom | seqinfo_double.cpp:686-700 | only the flags change: from lo on they mark membership, before lo they are kept, and the validity of the data is preserved |
| DoubleScans.PrimesFind | seqinfo_double.cpp:427-485 | every record is flagged exactly when its value is the prime, and the count is the number flagged |
| DoubleScans.AnyPrimeRow | seqinfo_double.cpp:637-640 | the test holds exactly when some record terminates as a prime with that value |
| DoubleScans.ManagePrimeCommand | seqinfo_double.cpp:628-650 | when some record terminates as a prime with that value, the records with that value are flagged and at least one is counted; otherwise nothing changes |
| DoubleScans.ManageOpenEndedSequence | seqinfo_double.cpp:652-720 | the scan runs exactly when the record's value is its own number; it flags the later records merging into it and keeps the flags up to the record; otherwise nothing changes |
| DoubleScans.CompositeStart | seqinfo_double.cpp:733-734 | the composite's start is a `size_t` value |
| DoubleScans.CompositeStartSpec | seqinfo_double.cpp:733-734 | the start is four past the first `.`, or 3 when there is no `.` (npos + 4 wraps) |
| DoubleScans.SubstrBefore | seqinfo_double.cpp:735 | `substr(s, end - (1 + s))` throws exactly when s is past the end; otherwise it gives the text from s stopping one character short of `end`, or the rest of the line when `end` is npos or s itself |
| DoubleScans.CompositeTextThrows | seqinfo_double.cpp:733-735 | a line throws exactly when the composite's start is past its end |
| DoubleScans.CompositeTextSpec | seqinfo_double.cpp:733-735 | the composite runs from its start and stops one character short of the next `=`, or runs to the end of the line when no `=` follows or the `=` sits at the start |
| DoubleScans.ScanCompositesSpec | seqinfo_double.cpp:731-739 | reading throws exactly when some line fails; otherwise the set holds exactly the values the lines yield |
| DoubleScans.LoadCycleSequence | seqinfo_double.cpp:722-744 | an unopened listing leaves the set alone; otherwise it aborts exactly when reading throws, and else adds exactly the values read |
| DoubleScans.Managexxx | seqinfo_double.cpp:746-812 | the set is loaded only when empty; then the records from position indexShift on are flagged exactly when their value is in the set, the earlier flags are kept, and the flagged are counted |
| DoubleScans.ManageCycle | seqinfo_double.cpp:901-913 | whether reached as a cycle or a perfect number, the scan aborts exactly when the listing throws, and otherwise flags from indexShift on exactly the records whose value the listing yields |
| DoubleScans.ManageRecord | seqinfo_double.cpp:894-915 | per termination kind: a prime flags every record with its prime; an open end flags its merges when it is its own value; a cycle flags the listing's members; an incomplete record changes nothing |
| DoubleScans.ManageSequence | seqinfo_double.cpp:881-916 | the dispatch is `Classify`, an out-of-range or incomplete number changes nothing, and each kind leaves the flags of its scan |
| DoublePrimes.IncrementAbove | seqinfo_double.cpp:221 | inserting a key above b keeps every key above b |
| DoublePrimes.IncrementAscending | seqinfo_double.cpp:221 | `primeCountMap[v] += 1` keeps the keys in order and the counts positive |
| DoublePrimes.IncrementCounts | seqinfo_double.cpp:221 | `primeCountMap[v] += 1` raises the count of v by one and no other count, and the total by one |
| DoublePrimes.LookupAbsent | seqinfo_double.cpp:221 | a value below every key has no count |
| DoublePrimes.LookupKey | seqinfo_double.cpp:231-240 | with positive counts, v is a key exactly when its count is not zero |
| DoublePrimes.PrimesList | seqinfo_double.cpp:200-246 | the map is ordered with positive counts, holds for every prime the number of records terminating in it, and totals the number of prime-terminated records |
| DoublePrimes.PrimesListKeys | seqinfo_double.cpp:213-240 | the map's keys are exactly the primes some record terminates with |
| DoublePrimes.PrimeCountPositive | seqinfo_double.cpp:220-221 | a prime has a non-zero count exactly when some record terminates with it |
| DoublePrimes.TotalAtLeastSize | seqinfo_double.cpp:240 | the number of unique primes reported is at most the number of prime terminations |

## Left out

- Console input and output: prompts, listings, `results.txt` and `primescount.txt`, column spacing, progress lines and timings are not modelled. Each scan is modelled as the path on which the user confirms it (`y`, `c` or `f` all flag the same records). Declining a scan leaves everything unchanged, and is not modelled separately.
- Chaining the advanced search after a scan, in reply to "Perform Advanced Filtering", is modelled only as the `uselist`/`chained` argument of the advanced search.
- Downloading the cycle listing with `wget` or `curl` is not modelled: the listing is an argument, `None` when `cycle.tmp` cannot be opened. Where the source downloads it twice, both downloads are assumed to give the same file. This covers the re-read when the count left is zero in `seqinfo.cpp`, and in `seqinfo_double.cpp` the `LoadCycleSequence` calls from `manageCycleNumber` and from `managexxx`, both of which `DoubleScans.ManageCycle` feeds from its one `listing` argument.
- Text-to-number conversion is not modelled: `atoi`, `sscanf`, `strtod`, `stod`, `stol` and `>>` into numbers. The model takes the converted values (`Entry`, `SourceLine`, `Line`) as given. `stod` on a listing composite is the argument `conv`, where None means it throws.
- The vector version's `stod` in `managePrimeCommand` and `stol` in `manageSequence` may throw, or truncate to `int32_t`. This is not modelled: the prime and the sequence number are given as integers.
- Doubles are not modelled as floating point:
  - the quotient columns are exact reals;
  - the vector version's `elD` is an exact integer, so two primes that round to the same `double` stay distinct;
  - `dToString` is not modelled.
- `elA` in the string version, `elE`, `elF`, and `lastIndexSize` are never read by the modelled logic.
- Not part of this model: `helptext`, `checkRegineFileFormat` (the `[` format check), `createnewhugefile` (commented out of `main`), and `reserve`/`shrink`.
- `DoubleData.ReginaData.LoadReginaFile` requires a non-empty table after a complete read. On an empty `regina_file`, seqinfo_double.cpp:612-613 call `front()` and `back()` on an empty vector, which is undefined behaviour.
- `DoubleData.ReginaData.LoadReginaFile` returns false on an incomplete read even when nothing was read. The source's failure message reads `back()` of the empty vector at seqinfo_double.cpp:603, which is undefined behaviour; the model does not capture it.
- `DoubleData.ReginaData.LoadReginaFile` does not model the size estimate's effect on the reservation, which has no effect on the data. An unopened file returning true is modelled as written.
- `SeqInfoAdvanced.Advanced` requires a non-zero modulus whenever the range is not empty. The source divides by `b` there, and a zero `b` is undefined behaviour.
- `DoubleAdvanced.Advanced` requires a non-zero modulus, even when the range is empty (`c == d + 1`). In that case the source's `for_each` never evaluates `%`, so a zero modulus with an empty range, which reports nothing, is excluded from the model. It also requires `indexShift <= c <= d + 1`: otherwise the source's iterator range is invalid, which is undefined behaviour.
- `DoubleAdvanced.Advanced` requires a size below 2^31. The source's `assert(false)` for larger vectors is not modelled.
- `SeqInfoTags.ReadCycles` requires at most 40 members, the size of `cycles`. Writing past it is undefined behaviour in the source.
- `SeqInfoTags.CycleCommand` takes `display` as the reply to "Display cycle?". The cycle's members are not printed.
- `DoubleScans.ManageCycle` models only the case where "Display cycle?" is answered `y` or `f`. With `n`, the source skips `managexxx` altogether and nothing changes.
- `DoubleData.Classify` and `DoubleScans.ManageSequence` require every number accepted by the bounds check (`indexShift .. lastIndex`) to sit inside the vector at `n - indexShift`. The source assumes a table without holes; `DoubleData.PositionFinds` proves that such a table meets this requirement. With holes in the table, or with a first sequence number of 2^16 or more truncated into `indexShift`, seqinfo_double.cpp:894 reads `vLines[sequenceIndex]` out of range, which is undefined behaviour and is not modelled.
- `DoubleScans.Managexxx`, `DoubleScans.ManageCycle`, `DoubleScans.ManageRecord` and `DoubleScans.ManageSequence` require `indexShift` to be at most the vector size. With a larger `indexShift`, the `std::next` at seqinfo_double.cpp:780 moves past the end of the vector, which is undefined behaviour.
- `SeqInfoPrimes.Group` and `SeqInfoPrimes.PrimesList` size `plist` by the table, not by the source's fixed 2,000,000 entries (seqinfo.cpp:108-109). More than 2,000,000 distinct terminating primes would write past the source's arrays, which is undefined behaviour; the model does not capture that overflow.
- `DoubleScans.LoadCycleSequence` and `DoubleScans.ScanComposites` require every listing line to be shorter than 2^64 - 4, so `size_t` positions never wrap except where `npos` is involved.
- `SeqInfoTags.ParseCycleLine` has no length bound. It yields no member once a `.` position plus 5, or the `=` position, reaches 2^64. `SeqInfoTags.ParseCycleLineSpec` states its result only for lines shorter than 2^63, where no position comes near that bound.
- `SeqInfoStore.Load` takes the lines `getline` returns, including the final empty one. The count is reduced by one after the loop, so the last line read is dropped as the source drops it. Its kind is still counted by `pcount`, `ocount` or `ccount`, as in the source.
- Counter widths are not modelled: the vector version's `uint32_t` counters and `rcount`, and the map's `uint32_t` counts, do not wrap in the model. `int32_t` wrap of sequence numbers is likewise not modelled.
- `DoublePrimes.PrimesList` models `std::map<double, uint32_t>` as a key-ordered sequence of entries.
- `DoubleData.EstimateVectorSize` takes the file size as an argument, None when `file_size` reports an error.
- The `p` command without a number calls `primeslist`. It is modelled as `SeqInfoPrimes.PrimesList` and `DoublePrimes.PrimesList`, not through the command dispatch.
- `SeqInfoStore.Classify` and `DoubleData.Classify` model only the bounds check and the kind branch of the numeric command. The per-kind scans are `SeqInfoTags` and `DoubleScans.ManageRecord`.
