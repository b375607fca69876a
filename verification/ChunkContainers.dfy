/** The containers of a chunk of a reference (CRoaring) bitmap and the group kernels of the sorted batch
    update: values leave or join one chunk, given as one ascending list of low parts. */
module ChunkContainers {
  import opened Word64
  import opened WordSets
  import opened Listing
  import opened Runs
  import opened BitsetContainer
  import opened Decoders

  const LOW_DOMAIN: nat := 0x1_0000
  const WORDS: nat := 1024
  const DEFAULT_MAX_SIZE: nat := 4096

  datatype Container =
    | ArrayOf(values: seq<nat>)
    | BitsetOf(words: seq<bv64>, cardinality: nat)
    | RunsOf(runs: seq<Run>)

  /** The low parts a container holds. */
  ghost function Lows(c: Container): set<nat> {
    match c
    case ArrayOf(values) => ValuesOf(values)
    case BitsetOf(words, _) => Members(words)
    case RunsOf(runs) => CoveredBelow(runs, LOW_DOMAIN)
  }

  /** Arrays strictly ascending and short enough, bitset counts exact, runs sorted, and something held. */
  ghost predicate WellFormed(c: Container) {
    Lows(c) != {} && Sound(c)
  }

  ghost predicate Sound(c: Container) {
    match c
    case ArrayOf(values) => StrictlyAscending(values) && AllBelow(values, LOW_DOMAIN) && |values| <= DEFAULT_MAX_SIZE
    case BitsetOf(words, cardinality) => |words| == WORDS && cardinality == |Members(words)|
    case RunsOf(runs) => SortedRuns(runs, LOW_DOMAIN)
  }

  /** Removal keeps the form, but a bitset left with few enough values becomes an array. */
  ghost predicate FormAfterRemoving(c: Container, c': Container) {
    match c
    case ArrayOf(_) => c'.ArrayOf?
    case BitsetOf(_, _) => if |Lows(c')| <= DEFAULT_MAX_SIZE then c'.ArrayOf? else c'.BitsetOf?
    case RunsOf(_) => c'.RunsOf?
  }

  /** Addition keeps the form, but an array that could outgrow its merge buffer becomes a bitset. */
  ghost predicate FormAfterAdding(c: Container, added: nat, c': Container) {
    match c
    case ArrayOf(values) => if |values| + added <= DEFAULT_MAX_SIZE then c'.ArrayOf? else c'.BitsetOf?
    case BitsetOf(_, _) => c'.BitsetOf?
    case RunsOf(_) => c'.RunsOf?
  }

  predicate Ascending(values: seq<nat>) {
    forall i, j :: 0 <= i < j < |values| ==> values[i] <= values[j]
  }

  // ---- arrays ------------------------------------------------------------------------------------

  /** The surviving values of a prefix of the array. */
  ghost predicate Survivors(kept: seq<nat>, seen: seq<nat>, removed: seq<nat>) {
    StrictlyAscending(kept) && ValuesOf(kept) == ValuesOf(seen) - ValuesOf(removed)
  }

  lemma KeepOne(kept: seq<nat>, all: seq<nat>, src: nat, removed: seq<nat>)
    requires src < |all| && StrictlyAscending(all) && Survivors(kept, all[..src], removed) && all[src] !in ValuesOf(removed)
    ensures Survivors(kept + [all[src]], all[..src + 1], removed)
  {
    ValuesOfNext(all, src);
    ValuesOfConcat(kept, [all[src]]);
    assert forall i :: 0 <= i < |kept| ==> kept[i] in ValuesOf(kept);
  }

  lemma DropOne(kept: seq<nat>, all: seq<nat>, src: nat, removed: seq<nat>)
    requires src < |all| && Survivors(kept, all[..src], removed) && all[src] in ValuesOf(removed)
    ensures Survivors(kept, all[..src + 1], removed)
  {
    ValuesOfNext(all, src);
  }

  lemma KeepRest(kept: seq<nat>, all: seq<nat>, src: nat, removed: seq<nat>)
    requires src <= |all| && StrictlyAscending(all) && Survivors(kept, all[..src], removed)
    requires forall i :: src <= i < |all| ==> all[i] !in ValuesOf(removed)
    ensures Survivors(kept + all[src..], all, removed)
  {
    assert all == all[..src] + all[src..];
    ValuesOfConcat(all[..src], all[src..]);
    ValuesOfConcat(kept, all[src..]);
    assert forall i :: 0 <= i < |kept| ==> kept[i] in ValuesOf(kept);
    assert forall v :: v in ValuesOf(all[src..]) ==> v !in ValuesOf(removed);
  }

  /** The two-cursor in-place compaction with the tail moved down. The removed list may repeat values. */
  method RemoveFromArray(a: array<nat>, cardinality: nat, removed: seq<nat>) returns (kept: nat)
    requires cardinality <= a.Length && StrictlyAscending(a[..cardinality]) && Ascending(removed)
    modifies a
    ensures kept <= cardinality
    ensures StrictlyAscending(a[..kept])
    ensures ValuesOf(a[..kept]) == ValuesOf(old(a[..cardinality])) - ValuesOf(removed)
  {
    hide ValuesOf, Survivors;
    ghost var all := a[..cardinality];
    var dst, src, ri := 0, 0, 0;
    NothingKept(all, removed);
    while src < cardinality && ri < |removed|
      invariant dst <= src <= cardinality && ri <= |removed|
      invariant a[src..cardinality] == all[src..]
      invariant Survivors(a[..dst], all[..src], removed)
      invariant forall j, i :: 0 <= j < ri && src <= i < cardinality ==> removed[j] < all[i]
      decreases cardinality - src + |removed| - ri
    {
      assert a[src] == a[src..cardinality][0] == all[src];
      if a[src] < removed[ri] {
        NotRemoved(removed, ri, all[src]);
        KeepOne(a[..dst], all, src, removed);
        ghost var before := a[..dst];
        ghost var rest := a[src + 1..cardinality];
        a[dst] := a[src];
        assert a[..dst + 1] == before + [all[src]];
        assert a[src + 1..cardinality] == rest == all[src + 1..];
        dst, src := dst + 1, src + 1;
      } else if a[src] == removed[ri] {
        InValues(removed, ri);
        DropOne(a[..dst], all, src, removed);
        assert a[src + 1..cardinality] == a[src..cardinality][1..] == all[src + 1..];
        src, ri := src + 1, ri + 1;
      } else {
        ri := ri + 1;
      }
    }
    ghost var before, tail := a[..dst], all[src..];
    if dst != src && src < cardinality {
      forall i | dst <= i < dst + (cardinality - src) {
        a[i] := a[i - dst + src];
      }
    }
    kept := dst + (cardinality - src);
    assert a[..kept] == before + tail by {
      assert a[..dst] == before;
      forall i | 0 <= i < |tail| ensures a[dst + i] == tail[i] {
        assert old(a[..cardinality])[src + i] == tail[i];
      }
    }
    forall i | src <= i < |all| ensures all[i] !in ValuesOf(removed) {
      NotRemoved(removed, ri, all[i]);
    }
    KeepRest(before, all, src, removed);
    SurvivorsMeans(a[..kept], all, removed);
  }

  lemma NothingKept(all: seq<nat>, removed: seq<nat>)
    ensures Survivors([], all[..0], removed)
  {
  }

  lemma SurvivorsMeans(kept: seq<nat>, seen: seq<nat>, removed: seq<nat>)
    requires Survivors(kept, seen, removed)
    ensures StrictlyAscending(kept) && ValuesOf(kept) == ValuesOf(seen) - ValuesOf(removed)
  {
  }

  lemma InValues(values: seq<nat>, j: nat)
    requires j < |values|
    ensures values[j] in ValuesOf(values)
  {
  }

  /** A value above all passed ones and below the next is not in the list. */
  lemma NotRemoved(removed: seq<nat>, ri: nat, v: nat)
    requires ri <= |removed| && Ascending(removed)
    requires forall j :: 0 <= j < ri ==> removed[j] < v
    requires ri < |removed| ==> v < removed[ri]
    ensures v !in ValuesOf(removed)
  {
    assert forall j :: ri <= j < |removed| ==> v < removed[j];
  }

  /** Merges an array and a group through the stack buffer, whose 4096 slots are enough; repeated new
      values are stored once. */
  method MergeIntoBuffer(values: seq<nat>, group: seq<nat>, merged: array<nat>) returns (mi: nat)
    requires StrictlyAscending(values) && Ascending(group)
    requires merged.Length == DEFAULT_MAX_SIZE && |values| + |group| <= DEFAULT_MAX_SIZE
    modifies merged
    ensures mi <= |values| + |group|
    ensures StrictlyAscending(merged[..mi])
    ensures ValuesOf(merged[..mi]) == ValuesOf(values) + ValuesOf(group)
  {
    hide ValuesOf, StrictlyAscending;
    mi := 0;
    var si, ni := 0, 0;
    MergedNothing(values, group);
    while si < |values| && ni < |group|
      invariant si <= |values| && ni <= |group| && mi <= si + ni
      invariant Merged(merged[..mi], values, si, group, ni)
      decreases |values| - si + |group| - ni
    {
      var nv := group[ni];
      ghost var before := merged[..mi];
      if values[si] < nv {
        MergeOld(before, values, si, group, ni);
        merged[mi] := values[si];
        assert merged[..mi + 1] == before + [values[si]];
        si, mi := si + 1, mi + 1;
      } else {
        ghost var si0, ni0 := si, ni;
        if values[si] == nv {
          si := si + 1;
        }
        merged[mi] := nv;
        assert merged[..mi + 1] == before + [nv];
        mi := mi + 1;
        ni := SkipRepeats(group, ni);
        MergeNew(before, values, si0, si, group, ni0, ni);
      }
    }
    while si < |values|
      invariant si <= |values| && ni <= |group| && mi <= si + ni
      invariant si == |values| || ni == |group|
      invariant Merged(merged[..mi], values, si, group, ni)
    {
      ghost var before := merged[..mi];
      MergeOld(before, values, si, group, ni);
      merged[mi] := values[si];
      assert merged[..mi + 1] == before + [values[si]];
      si, mi := si + 1, mi + 1;
    }
    while ni < |group|
      invariant ni <= |group| && mi <= si + ni && si == |values|
      invariant Merged(merged[..mi], values, si, group, ni)
    {
      var nv := group[ni];
      ghost var before, ni0 := merged[..mi], ni;
      merged[mi] := nv;
      assert merged[..mi + 1] == before + [nv];
      mi := mi + 1;
      ni := SkipRepeats(group, ni);
      MergeNew(before, values, si, si, group, ni0, ni);
    }
    MergedAll(merged[..mi], values, group);
  }

  /** The do-while over equal new values. */
  method SkipRepeats(group: seq<nat>, ni: nat) returns (ni': nat)
    requires ni < |group|
    ensures ni < ni' <= |group|
    ensures forall j :: ni <= j < ni' ==> group[j] == group[ni]
    ensures ni' < |group| ==> group[ni'] != group[ni]
  {
    ni' := ni + 1;
    while ni' < |group| && group[ni'] == group[ni]
      invariant ni < ni' <= |group|
      invariant forall j :: ni <= j < ni' ==> group[j] == group[ni]
    {
      ni' := ni' + 1;
    }
  }

  /** The buffer lists what both cursors have passed, and everything still to come is greater. */
  ghost predicate Merged(list: seq<nat>, values: seq<nat>, si: nat, group: seq<nat>, ni: nat)
    requires si <= |values| && ni <= |group|
  {
    && IsListing(list, ValuesOf(values[..si]) + ValuesOf(group[..ni]))
    && (forall i, k :: 0 <= i < |list| && si <= k < |values| ==> list[i] < values[k])
    && (forall i, k :: 0 <= i < |list| && ni <= k < |group| ==> list[i] < group[k])
  }

  lemma MergedNothing(values: seq<nat>, group: seq<nat>)
    ensures Merged([], values, 0, group, 0)
  {
  }

  lemma MergedAll(list: seq<nat>, values: seq<nat>, group: seq<nat>)
    requires Merged(list, values, |values|, group, |group|)
    ensures StrictlyAscending(list) && ValuesOf(list) == ValuesOf(values) + ValuesOf(group)
  {
    assert values[..|values|] == values && group[..|group|] == group;
  }

  lemma AppendGreater(list: seq<nat>, s: set<nat>, v: nat)
    requires IsListing(list, s) && forall i :: 0 <= i < |list| ==> list[i] < v
    ensures IsListing(list + [v], s + {v})
  {
    ValuesOfConcat(list, [v]);
  }

  lemma MergeOld(list: seq<nat>, values: seq<nat>, si: nat, group: seq<nat>, ni: nat)
    requires si < |values| && ni <= |group| && StrictlyAscending(values) && Ascending(group)
    requires Merged(list, values, si, group, ni) && (ni < |group| ==> values[si] < group[ni])
    ensures Merged(list + [values[si]], values, si + 1, group, ni)
  {
    ValuesOfNext(values, si);
    AppendGreater(list, ValuesOf(values[..si]) + ValuesOf(group[..ni]), values[si]);
    assert ValuesOf(values[..si + 1]) + ValuesOf(group[..ni]) == ValuesOf(values[..si]) + ValuesOf(group[..ni]) + {values[si]};
  }

  lemma {:induction false} RepeatsAddOne(group: seq<nat>, ni: nat, ni': nat)
    requires ni < ni' <= |group| && forall j :: ni <= j < ni' ==> group[j] == group[ni]
    ensures ValuesOf(group[..ni']) == ValuesOf(group[..ni]) + {group[ni]}
  {
    ValuesOfNext(group, ni' - 1);
    if ni + 1 < ni' {
      RepeatsAddOne(group, ni, ni' - 1);
    }
  }

  lemma MergeNew(list: seq<nat>, values: seq<nat>, si: nat, si': nat, group: seq<nat>, ni: nat, ni': nat)
    requires si <= si' <= |values| && ni < ni' <= |group| && StrictlyAscending(values) && Ascending(group)
    requires Merged(list, values, si, group, ni)
    requires forall j :: ni <= j < ni' ==> group[j] == group[ni]
    requires ni' < |group| ==> group[ni'] != group[ni]
    requires si' == if si < |values| && values[si] == group[ni] then si + 1 else si
    requires si < |values| ==> group[ni] <= values[si]
    ensures Merged(list + [group[ni]], values, si', group, ni')
  {
    var nv := group[ni];
    RepeatsAddOne(group, ni, ni');
    AppendGreater(list, ValuesOf(values[..si]) + ValuesOf(group[..ni]), nv);
    if si' == si + 1 {
      ValuesOfNext(values, si);
    }
    assert ValuesOf(values[..si']) + ValuesOf(group[..ni']) == ValuesOf(values[..si]) + ValuesOf(group[..ni]) + {nv};
    assert forall k :: ni' <= k < |group| ==> nv < group[k];
  }

  // ---- bitsets -----------------------------------------------------------------------------------

  /** Clears one bit, taking it off the count if it was set. */
  method ClearValue(words: array<bv64>, cardinality: nat, low: nat) returns (cardinality': nat)
    requires low < 64 * words.Length && cardinality == |Members(words[..])|
    modifies words
    ensures Members(words[..]) == old(Members(words[..])) - {low}
    ensures cardinality' == |Members(words[..])|
  {
    hide Bits, Range, Has, Members, WordOf, BitOf, AndNot, OneBit, TestBit;
    ghost var before := words[..];
    MemberParts(before, low);
    cardinality' := cardinality;
    if TestBit(words[WordOf(low)], BitOf(low)) {
      assert Members(before) == (Members(before) - {low}) + {low};
      cardinality' := cardinality' - 1;
    } else {
      assert Members(before) - {low} == Members(before);
    }
    words[WordOf(low)] := AndNot(words[WordOf(low)], OneBit(BitOf(low)));
    assert words[..] == before[WordOf(low) := AndNot(before[WordOf(low)], OneBit(BitOf(low)))];
    MembersWithoutBit(before, low, AndNot(before[WordOf(low)], OneBit(BitOf(low))));
  }

  /** Clears the group's bits; the count stays exact, repeated values included. */
  method ClearGroup(words: array<bv64>, cardinality: nat, group: seq<nat>) returns (cardinality': nat)
    requires AllBelow(group, 64 * words.Length) && cardinality == |Members(words[..])|
    modifies words
    ensures Members(words[..]) == old(Members(words[..])) - ValuesOf(group)
    ensures cardinality' == |Members(words[..])|
  {
    hide Bits, Range, Has, Members, WordOf, BitOf;
    ghost var m0 := Members(words[..]);
    cardinality' := cardinality;
    for j := 0 to |group|
      invariant Members(words[..]) == m0 - ValuesOf(group[..j])
      invariant cardinality' == |Members(words[..])|
    {
      cardinality' := ClearValue(words, cardinality', group[j]);
      ValuesOfNext(group, j);
    }
    assert group[..|group|] == group;
  }

  /** Sets one bit, counting it if it was clear. */
  method SetValue(words: array<bv64>, cardinality: nat, low: nat) returns (cardinality': nat)
    requires low < 64 * words.Length && cardinality == |Members(words[..])|
    modifies words
    ensures Members(words[..]) == old(Members(words[..])) + {low}
    ensures cardinality' == |Members(words[..])|
  {
    hide Bits, Range, Has, Members, WordOf, BitOf, Or, OneBit, TestBit;
    ghost var before := words[..];
    MemberParts(before, low);
    cardinality' := cardinality;
    if !TestBit(words[WordOf(low)], BitOf(low)) {
      words[WordOf(low)] := Or(words[WordOf(low)], OneBit(BitOf(low)));
      assert words[..] == before[WordOf(low) := Or(before[WordOf(low)], OneBit(BitOf(low)))];
      MembersWithBit(before, low, Or(before[WordOf(low)], OneBit(BitOf(low))));
      cardinality' := cardinality' + 1;
    } else {
      assert Members(before) + {low} == Members(before);
    }
  }

  /** The lambda set_bits: sets the group's bits; the count stays exact. */
  method SetGroup(words: array<bv64>, cardinality: nat, group: seq<nat>) returns (cardinality': nat)
    requires AllBelow(group, 64 * words.Length) && cardinality == |Members(words[..])|
    modifies words
    ensures Members(words[..]) == old(Members(words[..])) + ValuesOf(group)
    ensures cardinality' == |Members(words[..])|
  {
    hide Bits, Range, Has, Members, WordOf, BitOf;
    ghost var m0 := Members(words[..]);
    cardinality' := cardinality;
    for j := 0 to |group|
      invariant Members(words[..]) == m0 + ValuesOf(group[..j])
      invariant cardinality' == |Members(words[..])|
    {
      cardinality' := SetValue(words, cardinality', group[j]);
      ValuesOfNext(group, j);
    }
    assert group[..|group|] == group;
  }

  /** A bitset container of the values of a list: the array's conversion, or a fresh one. */
  method BitsetFrom(values: seq<nat>) returns (words: array<bv64>, cardinality: nat)
    requires AllBelow(values, LOW_DOMAIN)
    ensures fresh(words) && words.Length == WORDS
    ensures Members(words[..]) == ValuesOf(values) && cardinality == |Members(words[..])|
  {
    hide Bits, Range, Has, Members;
    words := new bv64[WORDS](_ => 0);
    ZeroWordsAreEmpty(words[..]);
    cardinality := SetGroup(words, 0, values);
  }

  // ---- runs --------------------------------------------------------------------------------------

  lemma CoveredAppend(runs: seq<Run>, run: Run, u: nat)
    ensures Covered(runs + [run], u) <==> Covered(runs, u) || run.begin <= u <= run.end
  {
    var longer := runs + [run];
    if Covered(runs, u) {
      var i :| 0 <= i < |runs| && runs[i].begin <= u <= runs[i].end;
      assert longer[i] == runs[i];
    }
    assert longer[|runs|] == run;
  }

  lemma AppendRun(runs: seq<Run>, run: Run, limit: nat)
    requires SortedRuns(runs, limit) && run.begin <= run.end < limit
    requires runs == [] || runs[|runs| - 1].end < run.begin
    ensures SortedRuns(runs + [run], limit)
  {
    assert forall i :: 0 <= i < |runs| ==> runs[i].end <= runs[|runs| - 1].end;
  }

  /** run_container::remove_closed_range of one value. */
  method RemoveRunValue(runs: seq<Run>, v: nat) returns (updated: seq<Run>)
    requires SortedRuns(runs, LOW_DOMAIN)
    ensures SortedRuns(updated, LOW_DOMAIN)
    ensures forall u: nat :: Covered(updated, u) <==> Covered(runs, u) && u != v
  {
    hide Covered;
    updated := [];
    NothingCovered();
    assert runs[..0] == [];
    for r := 0 to |runs|
      invariant SortedRuns(updated, LOW_DOMAIN)
      invariant updated == [] || (r > 0 && updated[|updated| - 1].end <= runs[r - 1].end)
      invariant forall u: nat :: Covered(updated, u) <==> Covered(runs[..r], u) && u != v
    {
      var current := runs[r];
      assert runs[..r + 1] == runs[..r] + [current];
      AppendAll(runs[..r], current);
      if current.end < v || v < current.begin {
        AppendAll(updated, current);
        updated := updated + [current];
      } else {
        if current.begin < v {
          AppendAll(updated, Run(current.begin, v - 1));
          updated := updated + [Run(current.begin, v - 1)];
        }
        if v < current.end {
          AppendAll(updated, Run(v + 1, current.end));
          updated := updated + [Run(v + 1, current.end)];
        }
      }
    }
    assert runs[..|runs|] == runs;
  }

  lemma NothingCovered()
    ensures forall u: nat :: !Covered([], u)
  {
  }

  predicate Inside(run: Run, u: nat) {
    run.begin <= u <= run.end
  }

  lemma AppendAll(runs: seq<Run>, run: Run)
    ensures forall u: nat :: Covered(runs + [run], u) <==> Covered(runs, u) || Inside(run, u)
    ensures (SortedRuns(runs, LOW_DOMAIN) && run.begin <= run.end < LOW_DOMAIN && (runs == [] || runs[|runs| - 1].end < run.begin))
              ==> SortedRuns(runs + [run], LOW_DOMAIN)
  {
    forall u: nat ensures Covered(runs + [run], u) <==> Covered(runs, u) || Inside(run, u) {
      CoveredAppend(runs, run, u);
    }
    if SortedRuns(runs, LOW_DOMAIN) && run.begin <= run.end < LOW_DOMAIN && (runs == [] || runs[|runs| - 1].end < run.begin) {
      AppendRun(runs, run, LOW_DOMAIN);
    }
  }

  /** Two runs that overlap or touch cover what their hull covers. */
  function Hull(a: Run, b: Run): Run {
    Run(if b.begin < a.begin then b.begin else a.begin, if a.end < b.end then b.end else a.end)
  }

  lemma HullCovers(a: Run, b: Run)
    requires a.begin <= a.end && b.begin <= b.end && b.begin <= a.end + 1 && a.begin <= b.end + 1
    ensures forall u: nat :: Inside(Hull(a, b), u) <==> Inside(a, u) || Inside(b, u)
  {
  }

  /** Before the added run is placed: what was passed is either merged or inside it. */
  ghost predicate Pending(merged: seq<Run>, added: Run, passed: seq<Run>, v: nat) {
    && SortedRuns(merged, LOW_DOMAIN) && added.begin <= v <= added.end < LOW_DOMAIN
    && (forall u: nat :: Covered(merged, u) || Inside(added, u) <==> Covered(passed, u) || u == v)
    && (merged == [] || (passed != [] && merged[|merged| - 1].end <= passed[|passed| - 1].end && merged[|merged| - 1].end < added.begin))
    && (added == Run(v, v) || (passed != [] && v <= passed[|passed| - 1].end + 1 && added.end <= if v <= passed[|passed| - 1].end then passed[|passed| - 1].end else v))
  }

  /** After it is placed. */
  ghost predicate Placed(merged: seq<Run>, passed: seq<Run>, v: nat) {
    && SortedRuns(merged, LOW_DOMAIN)
    && (forall u: nat :: Covered(merged, u) <==> Covered(passed, u) || u == v)
    && merged != [] && passed != [] && merged[|merged| - 1].end <= passed[|passed| - 1].end && v + 1 < passed[|passed| - 1].begin
  }

  /** The next run of a sorted list. */
  ghost predicate Follows(passed: seq<Run>, current: Run) {
    && current.begin <= current.end < LOW_DOMAIN
    && (passed == [] || (passed[|passed| - 1].end < current.begin && passed[|passed| - 1].begin <= passed[|passed| - 1].end))
  }

  lemma PassBefore(merged: seq<Run>, added: Run, passed: seq<Run>, current: Run, v: nat)
    requires Pending(merged, added, passed, v) && Follows(passed, current) && current.end + 1 < v
    ensures Pending(merged + [current], added, passed + [current], v)
  {
    hide Covered, SortedRuns;
    AppendAll(merged, current);
    AppendAll(passed, current);
  }

  lemma PlaceThenPass(merged: seq<Run>, added: Run, passed: seq<Run>, current: Run, v: nat)
    requires Pending(merged, added, passed, v) && Follows(passed, current) && v + 1 < current.begin
    ensures Placed(merged + [added] + [current], passed + [current], v)
  {
    hide Covered, SortedRuns;
    AppendAll(merged, added);
    AppendAll(merged + [added], current);
    AppendAll(passed, current);
  }

  lemma PassAfter(merged: seq<Run>, passed: seq<Run>, current: Run, v: nat)
    requires Placed(merged, passed, v) && Follows(passed, current)
    ensures Placed(merged + [current], passed + [current], v)
  {
    hide Covered, SortedRuns;
    AppendAll(merged, current);
    AppendAll(passed, current);
  }

  lemma Absorb(merged: seq<Run>, added: Run, passed: seq<Run>, current: Run, v: nat)
    requires Pending(merged, added, passed, v) && Follows(passed, current)
    requires v <= current.end + 1 && current.begin <= v + 1
    ensures Pending(merged, Hull(added, current), passed + [current], v)
  {
    hide Covered, SortedRuns;
    HullCovers(added, current);
    AppendAll(passed, current);
  }

  lemma PrefixFollows(runs: seq<Run>, r: nat)
    requires SortedRuns(runs, LOW_DOMAIN) && r < |runs|
    ensures Follows(runs[..r], runs[r]) && runs[..r + 1] == runs[..r] + [runs[r]]
  {
  }

  /** run_container::add_closed_range of one value: runs that touch it are merged with it. */
  method AddRunValue(runs: seq<Run>, v: nat) returns (merged: seq<Run>)
    requires SortedRuns(runs, LOW_DOMAIN) && v < LOW_DOMAIN
    ensures SortedRuns(merged, LOW_DOMAIN)
    ensures forall u: nat :: Covered(merged, u) <==> Covered(runs, u) || u == v
  {
    hide Covered, SortedRuns, Pending, Placed, Follows;
    merged := [];
    var added, inserted := Run(v, v), false;
    PendingStarts(v);
    assert runs[..0] == [];
    for r := 0 to |runs|
      invariant if inserted then Placed(merged, runs[..r], v) else Pending(merged, added, runs[..r], v)
    {
      var current := runs[r];
      PrefixFollows(runs, r);
      if current.end + 1 < v {
        PassedBefore(merged, added, runs[..r], current, v, inserted);
        merged := merged + [current];
        continue;
      }
      if v + 1 < current.begin {
        if !inserted {
          PlaceThenPass(merged, added, runs[..r], current, v);
          merged := merged + [added];
          inserted := true;
        } else {
          PassAfter(merged, runs[..r], current, v);
        }
        merged := merged + [current];
        continue;
      }
      if inserted {
        PassAfter(merged, runs[..r], current, v);
        PlacedIsPast(merged, runs[..r], current, v);
      } else {
        Absorb(merged, added, runs[..r], current, v);
      }
      added := Hull(added, current);
    }
    assert runs[..|runs|] == runs;
    if !inserted {
      PlaceLast(merged, added, runs, v);
      merged := merged + [added];
    } else {
      PlacedMeans(merged, runs, v);
    }
  }

  lemma PendingStarts(v: nat)
    requires v < LOW_DOMAIN
    ensures Pending([], Run(v, v), [], v)
  {
    NothingCovered();
  }

  /** A run before the value is only met while the value is pending. */
  lemma PassedBefore(merged: seq<Run>, added: Run, passed: seq<Run>, current: Run, v: nat, inserted: bool)
    requires if inserted then Placed(merged, passed, v) else Pending(merged, added, passed, v)
    requires Follows(passed, current) && current.end + 1 < v
    ensures !inserted && Pending(merged + [current], added, passed + [current], v)
  {
    assert !inserted by {
      hide Covered, SortedRuns;
    }
    PassBefore(merged, added, passed, current, v);
  }

  /** Once the value is placed no later run touches it. */
  lemma PlacedIsPast(merged: seq<Run>, passed: seq<Run>, current: Run, v: nat)
    requires Placed(merged, passed, v) && Follows(passed, current)
    ensures v + 1 < current.begin
  {
  }

  lemma PlaceLast(merged: seq<Run>, added: Run, passed: seq<Run>, v: nat)
    requires Pending(merged, added, passed, v)
    ensures SortedRuns(merged + [added], LOW_DOMAIN)
    ensures forall u: nat :: Covered(merged + [added], u) <==> Covered(passed, u) || u == v
  {
    hide Covered, SortedRuns;
    AppendAll(merged, added);
  }

  lemma PlacedMeans(merged: seq<Run>, passed: seq<Run>, v: nat)
    requires Placed(merged, passed, v)
    ensures SortedRuns(merged, LOW_DOMAIN)
    ensures forall u: nat :: Covered(merged, u) <==> Covered(passed, u) || u == v
  {
  }

  // ---- one group against one container -----------------------------------------------------------

  /** The values of a group leave a container. */
  method RemoveGroup(c: Container, group: seq<nat>) returns (c': Container)
    requires Sound(c) && Ascending(group) && AllBelow(group, LOW_DOMAIN)
    ensures Sound(c') && Lows(c') == Lows(c) - ValuesOf(group)
    ensures FormAfterRemoving(c, c')
  {
    hide Bits, Range, Has, Members, WordOf, BitOf, Ascending, IsListing;
    match c
    case ArrayOf(values) =>
      var a := new nat[|values|](i requires 0 <= i < |values| => values[i]);
      assert a[..|values|] == values;
      var kept := RemoveFromArray(a, |values|, group);
      SubsetIsBelow(a[..kept], values, LOW_DOMAIN);
      c' := ArrayOf(a[..kept]);
    case BitsetOf(seqWords, cardinality) =>
      var words := new bv64[WORDS](i requires 0 <= i < WORDS => seqWords[i]);
      assert words[..] == seqWords;
      var left := ClearGroup(words, cardinality, group);
      if left <= DEFAULT_MAX_SIZE {
        var values := ArrayFromBitset(words, left);
        ListingIsBelow(values[..], words[..]);
        assert Lows(ArrayOf(values[..])) == Members(words[..]);
        c' := ArrayOf(values[..]);
      } else {
        c' := BitsetOf(words[..], left);
      }
    case RunsOf(runs) =>
      var left := RemoveFromRuns(runs, group);
      c' := RunsOf(left);
  }

  lemma SubsetIsBelow(part: seq<nat>, values: seq<nat>, limit: nat)
    requires AllBelow(values, limit) && ValuesOf(part) <= ValuesOf(values)
    ensures AllBelow(part, limit)
  {
    assert forall i :: 0 <= i < |part| ==> part[i] in ValuesOf(part);
  }

  lemma ListingIsBelow(values: seq<nat>, words: seq<bv64>)
    requires IsListing(values, Members(words))
    ensures AllBelow(values, 64 * |words|) && StrictlyAscending(values) && ValuesOf(values) == Members(words)
  {
    hide Bits, Range, Has, Members;
    assert forall i :: 0 <= i < |values| ==> values[i] in ValuesOf(values);
  }

  method RemoveFromRuns(runs: seq<Run>, group: seq<nat>) returns (left: seq<Run>)
    requires SortedRuns(runs, LOW_DOMAIN)
    ensures SortedRuns(left, LOW_DOMAIN)
    ensures CoveredBelow(left, LOW_DOMAIN) == CoveredBelow(runs, LOW_DOMAIN) - ValuesOf(group)
  {
    hide Range, Covered, SortedRuns;
    left := runs;
    for j := 0 to |group|
      invariant SortedRuns(left, LOW_DOMAIN)
      invariant CoveredBelow(left, LOW_DOMAIN) == CoveredBelow(runs, LOW_DOMAIN) - ValuesOf(group[..j])
    {
      ghost var before := left;
      left := RemoveRunValue(left, group[j]);
      ValuesOfNext(group, j);
      assert CoveredBelow(left, LOW_DOMAIN) == CoveredBelow(before, LOW_DOMAIN) - {group[j]};
    }
    assert group[..|group|] == group;
  }

  method AddToRuns(runs: seq<Run>, group: seq<nat>) returns (more: seq<Run>)
    requires SortedRuns(runs, LOW_DOMAIN) && AllBelow(group, LOW_DOMAIN)
    ensures SortedRuns(more, LOW_DOMAIN)
    ensures CoveredBelow(more, LOW_DOMAIN) == CoveredBelow(runs, LOW_DOMAIN) + ValuesOf(group)
  {
    hide Range, Covered, SortedRuns;
    more := runs;
    for j := 0 to |group|
      invariant SortedRuns(more, LOW_DOMAIN)
      invariant CoveredBelow(more, LOW_DOMAIN) == CoveredBelow(runs, LOW_DOMAIN) + ValuesOf(group[..j])
    {
      ghost var before := more;
      more := AddRunValue(more, group[j]);
      ValuesOfNext(group, j);
      assert CoveredBelow(more, LOW_DOMAIN) == CoveredBelow(before, LOW_DOMAIN) + {group[j]};
    }
    assert group[..|group|] == group;
  }

  /** The values of a group join a container. */
  method AddGroup(c: Container, group: seq<nat>) returns (c': Container)
    requires Sound(c) && Ascending(group) && AllBelow(group, LOW_DOMAIN)
    ensures Sound(c') && Lows(c') == Lows(c) + ValuesOf(group)
    ensures FormAfterAdding(c, |group|, c')
  {
    hide Bits, Range, Has, Members, WordOf, BitOf, Ascending;
    match c
    case ArrayOf(values) =>
      if |values| + |group| > DEFAULT_MAX_SIZE {
        var words, cardinality := BitsetFrom(values);
        cardinality := SetGroup(words, cardinality, group);
        c' := BitsetOf(words[..], cardinality);
      } else {
        var merged := new nat[DEFAULT_MAX_SIZE];
        var mi := MergeIntoBuffer(values, group, merged);
        UnionIsBelow(merged[..mi], values, group, LOW_DOMAIN);
        c' := ArrayOf(merged[..mi]);
      }
    case BitsetOf(seqWords, cardinality) =>
      var words := new bv64[WORDS](i requires 0 <= i < WORDS => seqWords[i]);
      assert words[..] == seqWords;
      var more := SetGroup(words, cardinality, group);
      c' := BitsetOf(words[..], more);
    case RunsOf(runs) =>
      var more := AddToRuns(runs, group);
      c' := RunsOf(more);
  }

  lemma UnionIsBelow(list: seq<nat>, a: seq<nat>, b: seq<nat>, limit: nat)
    requires AllBelow(a, limit) && AllBelow(b, limit) && ValuesOf(list) == ValuesOf(a) + ValuesOf(b)
    ensures AllBelow(list, limit)
  {
    assert forall i :: 0 <= i < |list| ==> list[i] in ValuesOf(list);
  }

  /** A chunk's first container: an array up to `limit` values, a bitset past it. The array takes the group as
      it is given, so that one with a repeated value or with too many values is not sound. */
  method NewContainer(group: seq<nat>, limit: nat) returns (c: Container)
    requires AllBelow(group, LOW_DOMAIN)
    ensures Lows(c) == ValuesOf(group)
    ensures if |group| <= limit then c.ArrayOf? else c.BitsetOf?
    ensures c.ArrayOf? ==> c.values == group
    ensures Sound(c) <==> |group| > limit || (|group| <= DEFAULT_MAX_SIZE && StrictlyAscending(group))
  {
    hide Bits, Range, Has, Members;
    if |group| <= limit {
      c := ArrayOf(group);
    } else {
      var words, cardinality := BitsetFrom(group);
      c := BitsetOf(words[..], cardinality);
    }
  }
}
