/** The run plan: entries grouped into bands by key through a hash-sorted list, and the execution units
    of every order, in which each planned entry occurs exactly once. */
module BenchmarkPlan {
  import opened Listing
  import opened Scheduler

  // ---- the hash order ----------------------------------------------------------------------------

  /** Position a comes before position b in a stable sort by hash. */
  predicate Before(hashes: seq<nat>, a: nat, b: nat)
    requires a < |hashes| && b < |hashes|
  {
    hashes[a] < hashes[b] || (hashes[a] == hashes[b] && a < b)
  }

  /** The first n positions in stable hash order. */
  ghost predicate HashOrdered(byHash: seq<nat>, hashes: seq<nat>, n: nat)
    requires n <= |hashes|
  {
    && AllBelow(byHash, n)
    && (forall p :: 0 <= p < n ==> p in byHash)
    && (forall s, t :: 0 <= s < t < |byHash| ==> Before(hashes, byHash[s], byHash[t]))
  }

  /** std::stable_sort of the positions by hash. */
  method StableSortByHash(hashes: seq<nat>) returns (byHash: seq<nat>)
    ensures HashOrdered(byHash, hashes, |hashes|)
  {
    byHash := [];
    for p := 0 to |hashes|
      invariant HashOrdered(byHash, hashes, p)
    {
      var at := |byHash|;
      while at > 0 && hashes[byHash[at - 1]] > hashes[p]
        invariant 0 <= at <= |byHash|
        invariant forall t :: at <= t < |byHash| ==> hashes[byHash[t]] > hashes[p]
      {
        at := at - 1;
      }
      InsertKeepsOrder(byHash, hashes, p, at);
      byHash := byHash[..at] + [p] + byHash[at..];
    }
  }

  lemma InsertKeepsOrder(byHash: seq<nat>, hashes: seq<nat>, p: nat, at: nat)
    requires p < |hashes| && HashOrdered(byHash, hashes, p) && at <= |byHash|
    requires forall t :: at <= t < |byHash| ==> hashes[byHash[t]] > hashes[p]
    requires at > 0 ==> hashes[byHash[at - 1]] <= hashes[p]
    ensures HashOrdered(byHash[..at] + [p] + byHash[at..], hashes, p + 1)
  {
    var longer := byHash[..at] + [p] + byHash[at..];
    forall q | 0 <= q < p + 1 ensures q in longer {
      if q < p {
        assert q in byHash;
        var t :| 0 <= t < |byHash| && byHash[t] == q;
        assert longer[if t < at then t else t + 1] == q;
      } else {
        assert longer[at] == p;
      }
    }
    assert forall t :: 0 <= t < at ==> Before(hashes, byHash[t], p);
  }

  // ---- bands -------------------------------------------------------------------------------------

  /** The specification: a history entry leads itself; any other entry is led by the least position that
      is not a history entry and has its key. */
  ghost predicate Leads<K>(keys: seq<K>, history: seq<bool>, p: nat, leader: nat)
    requires p < |keys| == |history|
  {
    if history[p] then leader == p
    else
      && leader <= p && !history[leader] && keys[leader] == keys[p]
      && (forall q :: 0 <= q < leader ==> history[q] || keys[q] != keys[p])
  }

  /** Every position that the list has passed has its leader. */
  ghost predicate LedUpTo<K>(first: seq<nat>, keys: seq<K>, history: seq<bool>, byHash: seq<nat>, j: nat)
    requires |first| == |keys| == |history| && j <= |byHash| && AllBelow(byHash, |keys|)
  {
    forall t :: 0 <= t < j ==> Leads(keys, history, byHash[t], first[byHash[t]])
  }

  /** The hash runs: within one hash, every position joins the first earlier leader with an equal key. */
  method FirstOfBand<K(==)>(keys: seq<K>, hashes: seq<nat>, history: seq<bool>, byHash: seq<nat>) returns (first: seq<nat>)
    requires |keys| == |hashes| == |history| && HashOrdered(byHash, hashes, |keys|)
    requires forall i, j :: 0 <= i < |keys| && 0 <= j < |keys| && keys[i] == keys[j] ==> hashes[i] == hashes[j]
    ensures |first| == |keys|
    ensures forall p :: 0 <= p < |keys| ==> Leads(keys, history, p, first[p])
  {
    hide Leads;
    var k := |byHash|;
    first := seq(|keys|, _ => 0);
    var runBegin := 0;
    while runBegin < k
      invariant runBegin <= k && |first| == |keys|
      invariant 0 < runBegin < k ==> hashes[byHash[runBegin - 1]] != hashes[byHash[runBegin]]
      invariant LedUpTo(first, keys, history, byHash, runBegin)
    {
      var runEnd := runBegin + 1;
      while runEnd < k && hashes[byHash[runEnd]] == hashes[byHash[runBegin]]
        invariant runBegin < runEnd <= k
        invariant forall t :: runBegin <= t < runEnd ==> hashes[byHash[t]] == hashes[byHash[runBegin]]
      {
        runEnd := runEnd + 1;
      }
      first := LeadRun(keys, hashes, history, byHash, runBegin, runEnd, first);
      runBegin := runEnd;
    }
    forall p | 0 <= p < |keys| ensures Leads(keys, history, p, first[p]) {
      assert p in byHash;
      var t :| 0 <= t < |byHash| && byHash[t] == p;
    }
  }

  /** One hash run. */
  method LeadRun<K(==)>(keys: seq<K>, hashes: seq<nat>, history: seq<bool>, byHash: seq<nat>, runBegin: nat, runEnd: nat, first0: seq<nat>)
    returns (first: seq<nat>)
    requires |keys| == |hashes| == |history| == |first0| && HashOrdered(byHash, hashes, |keys|)
    requires forall i, j :: 0 <= i < |keys| && 0 <= j < |keys| && keys[i] == keys[j] ==> hashes[i] == hashes[j]
    requires runBegin < runEnd <= |byHash|
    requires forall t :: runBegin <= t < runEnd ==> hashes[byHash[t]] == hashes[byHash[runBegin]]
    requires 0 < runBegin ==> hashes[byHash[runBegin - 1]] != hashes[byHash[runBegin]]
    requires LedUpTo(first0, keys, history, byHash, runBegin)
    ensures |first| == |keys| && LedUpTo(first, keys, history, byHash, runEnd)
  {
    hide Leads;
    first := first0;
    for j := runBegin to runEnd
      invariant |first| == |keys| && LedUpTo(first, keys, history, byHash, j)
    {
      var pos := byHash[j];
      var leader := pos;
      if !history[pos] {
        leader := FindLeader(keys, hashes, history, byHash, runBegin, j, first);
      } else {
        HistoryLeadsItself(keys, history, pos);
      }
      assert forall t :: 0 <= t < j ==> byHash[t] != pos;
      first := first[pos := leader];
    }
  }

  lemma HistoryLeadsItself<K>(keys: seq<K>, history: seq<bool>, p: nat)
    requires p < |keys| == |history| && history[p]
    ensures Leads(keys, history, p, p)
  {
  }

  /** The first earlier position of the run that leads a band with this key, or the position itself. */
  method FindLeader<K(==)>(keys: seq<K>, hashes: seq<nat>, history: seq<bool>, byHash: seq<nat>, runBegin: nat, j: nat, first: seq<nat>)
    returns (leader: nat)
    requires |keys| == |hashes| == |history| == |first| && HashOrdered(byHash, hashes, |keys|)
    requires forall p, q :: 0 <= p < |keys| && 0 <= q < |keys| && keys[p] == keys[q] ==> hashes[p] == hashes[q]
    requires runBegin <= j < |byHash| && !history[byHash[j]]
    requires forall t :: runBegin <= t <= j ==> hashes[byHash[t]] == hashes[byHash[j]]
    requires 0 < runBegin ==> hashes[byHash[runBegin - 1]] != hashes[byHash[j]]
    requires LedUpTo(first, keys, history, byHash, j)
    ensures Leads(keys, history, byHash[j], leader)
  {
    var pos := byHash[j];
    var earlier := runBegin;
    while earlier < j
      invariant runBegin <= earlier <= j
      invariant forall t :: runBegin <= t < earlier ==> history[byHash[t]] || keys[byHash[t]] != keys[pos]
    {
      var other := byHash[earlier];
      if !history[other] && first[other] == other && keys[other] == keys[pos] {
        assert Leads(keys, history, other, first[other]);
        assert Before(hashes, byHash[earlier], byHash[j]);
        return other;
      }
      if !history[other] && keys[other] == keys[pos] {
        LeaderCameEarlier(keys, hashes, history, byHash, runBegin, earlier, first);
      }
      earlier := earlier + 1;
    }
    SameKeyIsInRun(keys, hashes, history, byHash, runBegin, j);
    leader := pos;
  }

  /** Among the positions of a run passed without a hit, one with this key would have been led by an
      earlier one of them. */
  lemma LeaderCameEarlier<K>(keys: seq<K>, hashes: seq<nat>, history: seq<bool>, byHash: seq<nat>, runBegin: nat, earlier: nat, first: seq<nat>)
    requires |keys| == |hashes| == |history| == |first| && HashOrdered(byHash, hashes, |keys|)
    requires forall p, q :: 0 <= p < |keys| && 0 <= q < |keys| && keys[p] == keys[q] ==> hashes[p] == hashes[q]
    requires runBegin <= earlier < |byHash| && !history[byHash[earlier]]
    requires 0 < runBegin ==> hashes[byHash[runBegin - 1]] != hashes[byHash[earlier]]
    requires forall t :: runBegin <= t <= earlier ==> hashes[byHash[t]] == hashes[byHash[earlier]]
    requires Leads(keys, history, byHash[earlier], first[byHash[earlier]])
    ensures first[byHash[earlier]] == byHash[earlier]
         || exists t :: runBegin <= t < earlier && byHash[t] == first[byHash[earlier]] && !history[byHash[t]] && keys[byHash[t]] == keys[byHash[earlier]]
  {
    var leader := first[byHash[earlier]];
    if leader != byHash[earlier] {
      assert leader in byHash;
      var t :| 0 <= t < |byHash| && byHash[t] == leader;
      PlaceInRun(hashes, byHash, runBegin, earlier, t);
    }
  }

  lemma OrderedPair(hashes: seq<nat>, byHash: seq<nat>, s: nat, t: nat)
    requires HashOrdered(byHash, hashes, |hashes|) && s < |byHash| && t < |byHash|
    ensures s < t ==> Before(hashes, byHash[s], byHash[t])
  {
  }

  /** An earlier position with the same hash lies in the run, before. */
  lemma PlaceInRun(hashes: seq<nat>, byHash: seq<nat>, runBegin: nat, j: nat, t: nat)
    requires HashOrdered(byHash, hashes, |hashes|) && runBegin <= j < |byHash| && t < |byHash|
    requires hashes[byHash[t]] == hashes[byHash[j]] && byHash[t] < byHash[j]
    requires 0 < runBegin ==> hashes[byHash[runBegin - 1]] != hashes[byHash[j]]
    ensures runBegin <= t < j
  {
    OrderedPair(hashes, byHash, j, t);
    if 0 < runBegin {
      OrderedPair(hashes, byHash, t, runBegin - 1);
      OrderedPair(hashes, byHash, runBegin - 1, j);
    }
  }

  lemma SameKeyIsInRun<K>(keys: seq<K>, hashes: seq<nat>, history: seq<bool>, byHash: seq<nat>, runBegin: nat, j: nat)
    requires |keys| == |hashes| == |history| && HashOrdered(byHash, hashes, |keys|)
    requires forall p, q :: 0 <= p < |keys| && 0 <= q < |keys| && keys[p] == keys[q] ==> hashes[p] == hashes[q]
    requires runBegin <= j < |byHash| && !history[byHash[j]]
    requires 0 < runBegin ==> hashes[byHash[runBegin - 1]] != hashes[byHash[j]]
    requires forall t :: runBegin <= t < j ==> history[byHash[t]] || keys[byHash[t]] != keys[byHash[j]]
    ensures Leads(keys, history, byHash[j], byHash[j])
  {
    var pos := byHash[j];
    forall q | 0 <= q < pos ensures history[q] || keys[q] != keys[pos] {
      if keys[q] == keys[pos] {
        assert q in byHash;
        var t :| 0 <= t < |byHash| && byHash[t] == q;
        PlaceInRun(hashes, byHash, runBegin, j, t);
      }
    }
  }

  // ---- group numbers -----------------------------------------------------------------------------

  /** How many of the first n positions lead a band. */
  function LeadersBelow(first: seq<nat>, n: nat): nat
    requires n <= |first|
  {
    if n == 0 then 0 else LeadersBelow(first, n - 1) + if first[n - 1] == n - 1 then 1 else 0
  }

  lemma {:induction false} LeadersGrow(first: seq<nat>, a: nat, b: nat)
    requires a < b <= |first|
    ensures LeadersBelow(first, a) <= LeadersBelow(first, b)
    ensures first[a] == a ==> LeadersBelow(first, a) < LeadersBelow(first, b)
  {
    if a + 1 < b {
      LeadersGrow(first, a, b - 1);
    }
  }

  /** Every leader leads itself and does not come after its followers. */
  predicate LeadersLead(first: seq<nat>) {
    forall p :: 0 <= p < |first| ==> first[p] <= p && first[first[p]] == first[p]
  }

  lemma LeadersLeadThemselves<K>(keys: seq<K>, history: seq<bool>, first: seq<nat>)
    requires |first| == |keys| == |history|
    requires forall p :: 0 <= p < |keys| ==> Leads(keys, history, p, first[p])
    ensures LeadersLead(first)
  {
    forall p | 0 <= p < |first| ensures first[p] <= p && first[first[p]] == first[p] {
      assert Leads(keys, history, p, first[p]);
      assert Leads(keys, history, first[p], first[first[p]]);
    }
  }

  lemma LeadersAreBefore(first: seq<nat>)
    requires LeadersLead(first)
    ensures forall p :: 0 <= p < |first| ==> first[p] <= p
  {
  }

  lemma LeaderOfLeader(first: seq<nat>, p: nat)
    requires LeadersLead(first) && p < |first|
    ensures first[p] <= p && first[first[p]] == first[p]
  {
  }

  lemma NoLeaders(first: seq<nat>)
    ensures LeadersBelow(first, 0) == 0
  {
  }

  lemma LeadersBelowNext(first: seq<nat>, i: nat)
    requires i < |first|
    ensures LeadersBelow(first, 0) == 0
    ensures LeadersBelow(first, i + 1) == LeadersBelow(first, i) + if first[i] == i then 1 else 0
  {
  }

  /** group_of: bands numbered by the first appearance of their leader. */
  method GroupNumbers(first: seq<nat>) returns (groupOf: seq<nat>, groupCount: nat)
    requires LeadersLead(first)
    ensures |groupOf| == |first| && groupCount == LeadersBelow(first, |first|)
    ensures forall p :: 0 <= p < |first| ==> groupOf[p] == LeadersBelow(first, first[p])
  {
    hide LeadersBelow, LeadersLead;
    LeadersAreBefore(first);
    if |first| > 0 {
      LeadersBelowNext(first, 0);
    } else {
      NoLeaders(first);
    }
    groupOf, groupCount := [], 0;
    for i := 0 to |first|
      invariant |groupOf| == i && groupCount == LeadersBelow(first, i)
      invariant forall p :: 0 <= p < i ==> groupOf[p] == LeadersBelow(first, first[p])
    {
      LeadersBelowNext(first, i);
      if first[i] == i {
        groupOf, groupCount := groupOf + [groupCount], groupCount + 1;
      } else {
        var leader := first[i];
        LeaderOfLeader(first, i);
        groupOf := groupOf + [groupOf[leader]];
      }
    }
  }

  /** Two positions get one group number exactly when they have one leader, and group numbers are below
      the count. */
  lemma GroupsAreBands(first: seq<nat>, p: nat, q: nat)
    requires LeadersLead(first) && p < |first| && q < |first|
    ensures LeadersBelow(first, first[p]) == LeadersBelow(first, first[q]) <==> first[p] == first[q]
    ensures LeadersBelow(first, first[p]) < LeadersBelow(first, |first|)
  {
    LeadersGrow(first, first[p], |first|);
    if first[p] < first[q] {
      LeadersGrow(first, first[p], first[q]);
    } else if first[q] < first[p] {
      LeadersGrow(first, first[q], first[p]);
    }
  }

  lemma {:induction false} NumberIsTaken(first: seq<nat>, n: nat, g: nat) returns (leader: nat)
    requires n <= |first| && g < LeadersBelow(first, n)
    ensures leader < n && first[leader] == leader && LeadersBelow(first, leader) == g
  {
    if first[n - 1] == n - 1 && g == LeadersBelow(first, n - 1) {
      leader := n - 1;
    } else {
      leader := NumberIsTaken(first, n - 1, g);
    }
  }

  /** Numbered in order of first appearance: whatever number a position gets, every smaller one has
      appeared before it. */
  predicate InOrderOfAppearance(groupOf: seq<nat>) {
    forall p, g :: 0 <= p < |groupOf| && 0 <= g < groupOf[p] ==> g in groupOf[..p]
  }

  lemma NumbersAppearInOrder(first: seq<nat>, groupOf: seq<nat>)
    requires LeadersLead(first) && |groupOf| == |first|
    requires forall p :: 0 <= p < |first| ==> groupOf[p] == LeadersBelow(first, first[p])
    ensures InOrderOfAppearance(groupOf)
  {
    hide LeadersBelow;
    forall p, g | 0 <= p < |groupOf| && 0 <= g < groupOf[p] ensures g in groupOf[..p] {
      LeaderOfLeader(first, p);
      var leader := NumberIsTaken(first, first[p], g);
      assert groupOf[..p][leader] == g;
    }
  }

  /** Grouping through the hash equals grouping by key: entries share a group exactly when they are one
      entry, or neither is a history entry and their keys are equal. */
  lemma GroupingIsByKey<K>(keys: seq<K>, history: seq<bool>, first: seq<nat>, p: nat, q: nat)
    requires |first| == |keys| == |history| && p < |first| && q < |first|
    requires LeadersLead(first) && forall r :: 0 <= r < |keys| ==> Leads(keys, history, r, first[r])
    ensures LeadersBelow(first, first[p]) == LeadersBelow(first, first[q])
       <==> p == q || (!history[p] && !history[q] && keys[p] == keys[q])
  {
    GroupsAreBands(first, p, q);
    assert Leads(keys, history, p, first[p]) && Leads(keys, history, q, first[q]);
  }

  // ---- planned entries ---------------------------------------------------------------------------

  /** Where an original's duplicate is (the source's no_duplicate otherwise). */
  datatype DuplicateOf = NoDuplicate | DuplicateAt(entry: nat)

  /** An original, or the A/A duplicate of one. */
  datatype PlannedEntry = PlannedEntry(original: nat, duplicate: bool, group: nat)

  /** The originals in registration order, then, with A/A on, a duplicate of every entry that is not a
      history entry; aaOf says where each original's duplicate is. */
  ghost predicate Planned(entries: seq<PlannedEntry>, aaOf: seq<DuplicateOf>, groupOf: seq<nat>, history: seq<bool>, aa: bool)
    requires |groupOf| == |history|
  {
    var k := |groupOf|;
    && |entries| >= k && |aaOf| == k
    && (forall i :: 0 <= i < k ==> entries[i] == PlannedEntry(i, false, groupOf[i]))
    && (forall e :: k <= e < |entries| ==> entries[e].original < k && entries[e].duplicate && aaOf[entries[e].original] == DuplicateAt(e)
                                           && !history[entries[e].original] && entries[e].group == groupOf[entries[e].original])
    && (forall i :: 0 <= i < k ==> if aa && !history[i] then aaOf[i].DuplicateAt? && k <= aaOf[i].entry < |entries| && entries[aaOf[i].entry].original == i
                                else aaOf[i] == NoDuplicate)
    && (forall e, f :: k <= e < f < |entries| ==> entries[e].original < entries[f].original)
  }

  method PlanEntries(groupOf: seq<nat>, history: seq<bool>, aa: bool) returns (entries: seq<PlannedEntry>, aaOf: seq<DuplicateOf>)
    requires |groupOf| == |history|
    ensures Planned(entries, aaOf, groupOf, history, aa)
  {
    var k := |groupOf|;
    entries := [];
    for i := 0 to k
      invariant |entries| == i && forall j :: 0 <= j < i ==> entries[j] == PlannedEntry(j, false, groupOf[j])
    {
      entries := entries + [PlannedEntry(i, false, groupOf[i])];
    }
    aaOf := seq(k, _ => NoDuplicate);
    if aa {
      for i := 0 to k
        invariant |entries| >= k && |aaOf| == k
        invariant PlannedBelow(entries, aaOf, groupOf, history, i)
      {
        if !history[i] {
          PlanDuplicate(entries, aaOf, groupOf, history, i);
          aaOf := aaOf[i := DuplicateAt(|entries|)];
          entries := entries + [entries[i].(duplicate := true)];
        }
      }
    }
  }

  /** The duplicates of the first x originals are planned. */
  ghost predicate PlannedBelow(entries: seq<PlannedEntry>, aaOf: seq<DuplicateOf>, groupOf: seq<nat>, history: seq<bool>, x: nat)
    requires |entries| >= |groupOf| == |history| == |aaOf|
  {
    var k := |groupOf|;
    && (forall j :: 0 <= j < k ==> entries[j] == PlannedEntry(j, false, groupOf[j]))
    && (forall e :: k <= e < |entries| ==> entries[e].original < x && entries[e].original < k && entries[e].duplicate
                                           && aaOf[entries[e].original] == DuplicateAt(e)
                                           && !history[entries[e].original] && entries[e].group == groupOf[entries[e].original])
    && (forall j :: 0 <= j < k ==> if j < x && !history[j] then aaOf[j].DuplicateAt? && k <= aaOf[j].entry < |entries| && entries[aaOf[j].entry].original == j
                                else aaOf[j] == NoDuplicate)
    && (forall e, f :: k <= e < f < |entries| ==> entries[e].original < entries[f].original)
  }

  lemma PlanDuplicate(entries: seq<PlannedEntry>, aaOf: seq<DuplicateOf>, groupOf: seq<nat>, history: seq<bool>, i: nat)
    requires |entries| >= |groupOf| == |history| == |aaOf| && i < |groupOf| && !history[i]
    requires PlannedBelow(entries, aaOf, groupOf, history, i)
    ensures PlannedBelow(entries + [entries[i].(duplicate := true)], aaOf[i := DuplicateAt(|entries|)], groupOf, history, i + 1)
  {
  }

  // ---- units -------------------------------------------------------------------------------------

  /** How often entry e occurs in a unit, and in all units. */
  function InUnit(unit: seq<nat>, e: nat): nat {
    if unit == [] then 0 else InUnit(unit[..|unit| - 1], e) + if unit[|unit| - 1] == e then 1 else 0
  }

  function Occurrences(units: seq<seq<nat>>, e: nat): nat {
    if units == [] then 0 else Occurrences(units[..|units| - 1], e) + InUnit(units[|units| - 1], e)
  }

  lemma UnitGrows(unit: seq<nat>, x: nat, e: nat)
    ensures InUnit(unit + [x], e) == InUnit(unit, e) + if x == e then 1 else 0
  {
    assert (unit + [x])[..|unit|] == unit;
  }

  lemma UnitsGrow(units: seq<seq<nat>>, x: nat, e: nat)
    ensures Occurrences(units + [[x]], e) == Occurrences(units, e) + if x == e then 1 else 0
  {
    assert (units + [[x]])[..|units|] == units;
    assert [x] == [] + [x];
    UnitGrows([], x, e);
  }

  lemma {:induction false} PushOntoUnit(units: seq<seq<nat>>, g: nat, x: nat, e: nat)
    requires g < |units|
    ensures Occurrences(units[g := units[g] + [x]], e) == Occurrences(units, e) + if x == e then 1 else 0
  {
    var n := |units| - 1;
    var after := units[g := units[g] + [x]];
    if g == n {
      assert after[..n] == units[..n];
      UnitGrows(units[n], x, e);
    } else {
      assert after[..n] == units[..n][g := units[..n][g] + [x]];
      PushOntoUnit(units[..n], g, x, e);
    }
  }

  lemma {:induction false} EmptyUnits(units: seq<seq<nat>>, e: nat)
    requires forall g :: 0 <= g < |units| ==> units[g] == []
    ensures Occurrences(units, e) == 0
  {
    if units != [] {
      EmptyUnits(units[..|units| - 1], e);
    }
  }

  /** Side by side: one unit per band, every planned entry in its band's unit exactly once. */
  method BandUnits(entries: seq<PlannedEntry>, groupCount: nat) returns (units: seq<seq<nat>>)
    requires forall e :: 0 <= e < |entries| ==> entries[e].group < groupCount
    ensures |units| == groupCount
    ensures forall e: nat :: Occurrences(units, e) == if e < |entries| then 1 else 0
    ensures forall g, i :: 0 <= g < groupCount && 0 <= i < |units[g]| ==> units[g][i] < |entries| && entries[units[g][i]].group == g
    ensures forall g :: 0 <= g < groupCount ==> StrictlyAscending(units[g])
    ensures forall e :: 0 <= e < |entries| ==> e in units[entries[e].group]
  {
    hide Occurrences;
    units := seq(groupCount, _ => []);
    forall e: nat ensures Occurrences(units, e) == 0 {
      EmptyUnits(units, e);
    }
    for i := 0 to |entries|
      invariant |units| == groupCount
      invariant forall e: nat :: Occurrences(units, e) == if e < i then 1 else 0
      invariant forall g, j :: 0 <= g < groupCount && 0 <= j < |units[g]| ==> units[g][j] < i && entries[units[g][j]].group == g
      invariant forall g :: 0 <= g < groupCount ==> StrictlyAscending(units[g])
      invariant forall e :: 0 <= e < i ==> e in units[entries[e].group]
    {
      var g := entries[i].group;
      var pushed := units[g := units[g] + [i]];
      forall e: nat ensures Occurrences(pushed, e) == if e < i + 1 then 1 else 0 {
        PushOntoUnit(units, g, i, e);
      }
      units := pushed;
    }
  }

  /** The members of a band in the order of the sequence. */
  function Members(sequence: seq<nat>, groupOf: seq<nat>, g: nat): (r: seq<nat>)
    requires AllBelow(sequence, |groupOf|)
    ensures forall i :: 0 <= i < |r| ==> r[i] in sequence && groupOf[r[i]] == g
    ensures forall m :: m in sequence && groupOf[m] == g ==> m in r
  {
    if sequence == [] then []
    else
      var init, last := sequence[..|sequence| - 1], sequence[|sequence| - 1];
      assert sequence == init + [last];
      if groupOf[last] == g then Members(init, groupOf, g) + [last] else Members(init, groupOf, g)
  }

  predicate Distinct(s: seq<nat>) {
    forall i, j :: 0 <= i < j < |s| ==> s[i] != s[j]
  }

  lemma {:induction false} MembersAreDistinct(sequence: seq<nat>, groupOf: seq<nat>, g: nat)
    requires AllBelow(sequence, |groupOf|) && Distinct(sequence)
    ensures Distinct(Members(sequence, groupOf, g))
  {
    if sequence != [] {
      var init, last := sequence[..|sequence| - 1], sequence[|sequence| - 1];
      MembersAreDistinct(init, groupOf, g);
      var r := Members(init, groupOf, g);
      assert last !in init;
      assert forall i :: 0 <= i < |r| ==> r[i] in init;
      assert Distinct(r + [last]);
    }
  }

  /** The band_members lists. */
  method BandMembers(sequence: seq<nat>, groupOf: seq<nat>, groupCount: nat) returns (members: seq<seq<nat>>)
    requires AllBelow(sequence, |groupOf|) && AllBelow(groupOf, groupCount)
    ensures |members| == groupCount
    ensures forall g :: 0 <= g < groupCount ==> members[g] == Members(sequence, groupOf, g)
  {
    members := seq(groupCount, _ => []);
    for t := 0 to |sequence|
      invariant |members| == groupCount
      invariant forall g :: 0 <= g < groupCount ==> members[g] == Members(sequence[..t], groupOf, g)
    {
      assert sequence[..t + 1][..t] == sequence[..t];
      members := members[groupOf[sequence[t]] := members[groupOf[sequence[t]]] + [sequence[t]]];
    }
    assert sequence[..|sequence|] == sequence;
  }

  /** The last member of the band is among the first t of the sequence. */
  ghost predicate BandDone(sequence: seq<nat>, groupOf: seq<nat>, g: nat, t: nat)
    requires AllBelow(sequence, |groupOf|) && t <= |sequence|
  {
    var members := Members(sequence, groupOf, g);
    members != [] && members[|members| - 1] in sequence[..t]
  }

  /** A duplicate of one of the first x members. */
  ghost predicate DuplicatesOne(entries: seq<PlannedEntry>, k: nat, members: seq<nat>, x: nat, e: nat)
    requires x <= |members|
  {
    k <= e < |entries| && entries[e].original in members[..x]
  }

  ghost function Duplicates(entries: seq<PlannedEntry>, k: nat, members: seq<nat>, x: nat, e: nat): nat
    requires x <= |members|
  {
    if DuplicatesOne(entries, k, members, x, e) then 1 else 0
  }

  // ---- the order of single-entry units -----------------------------------------------------------

  /** The sequence holds every position once. */
  predicate Whole(sequence: seq<nat>, k: nat) {
    Distinct(sequence) && AllBelow(sequence, k) && forall p :: 0 <= p < k ==> p in sequence
  }

  /** Where the sequence holds p. */
  ghost function TurnOf(sequence: seq<nat>, p: nat): (t: nat)
    requires p in sequence
    ensures t < |sequence| && sequence[t] == p
  {
    var t :| 0 <= t < |sequence| && sequence[t] == p;
    t
  }

  lemma {:induction false} MembersInTurn(sequence: seq<nat>, groupOf: seq<nat>, g: nat, x: nat, y: nat)
    requires Distinct(sequence) && AllBelow(sequence, |groupOf|) && x < y < |Members(sequence, groupOf, g)|
    ensures var members := Members(sequence, groupOf, g); TurnOf(sequence, members[x]) < TurnOf(sequence, members[y])
  {
    var init, last := sequence[..|sequence| - 1], sequence[|sequence| - 1];
    var members := Members(init, groupOf, g);
    assert sequence == init + [last];
    assert forall i :: 0 <= i < |members| ==> TurnOf(sequence, members[i]) < |init|;
    if y < |members| {
      MembersInTurn(init, groupOf, g, x, y);
      assert TurnOf(init, members[x]) == TurnOf(sequence, members[x]);
      assert TurnOf(init, members[y]) == TurnOf(sequence, members[y]);
    } else {
      assert TurnOf(sequence, last) == |init|;
    }
  }

  /** A place in the execution order: the turn of the sequence, and a rank within the turn. */
  datatype Slot = Slot(turn: nat, rank: nat)

  predicate SlotBefore(a: Slot, b: Slot) {
    a.turn < b.turn || (a.turn == b.turn && a.rank < b.rank)
  }

  /** An original runs first in its own turn; a duplicate runs in the turn of its band's last original,
      after it, in the order of the originals. */
  ghost function SlotOf(entries: seq<PlannedEntry>, groupOf: seq<nat>, sequence: seq<nat>, e: nat): Slot
    requires Whole(sequence, |groupOf|) && e < |entries| && entries[e].original < |groupOf|
  {
    var m := entries[e].original;
    if e < |groupOf| then Slot(TurnOf(sequence, m), 0)
    else
      var members := Members(sequence, groupOf, groupOf[m]);
      assert m in members;
      Slot(TurnOf(sequence, members[|members| - 1]), 1 + TurnOf(sequence, m))
  }

  /** The units run in the order of their slots, all of them before the given turn. */
  ghost predicate RunInOrder(units: seq<seq<nat>>, entries: seq<PlannedEntry>, groupOf: seq<nat>, sequence: seq<nat>, turn: nat)
    requires Whole(sequence, |groupOf|)
  {
    && (forall u :: 0 <= u < |units| ==> |units[u]| == 1 && units[u][0] < |entries| && entries[units[u][0]].original < |groupOf|)
    && (forall u :: 0 <= u < |units| ==> SlotOf(entries, groupOf, sequence, units[u][0]).turn < turn)
    && (forall u, v :: 0 <= u < v < |units| ==>
          SlotBefore(SlotOf(entries, groupOf, sequence, units[u][0]), SlotOf(entries, groupOf, sequence, units[v][0])))
  }

  lemma RunOriginal(units: seq<seq<nat>>, entries: seq<PlannedEntry>, groupOf: seq<nat>, sequence: seq<nat>, t: nat)
    requires Whole(sequence, |groupOf|) && t < |sequence| && |groupOf| <= |entries| && entries[sequence[t]].original == sequence[t]
    requires RunInOrder(units, entries, groupOf, sequence, t)
    ensures RunInOrder(units + [[sequence[t]]], entries, groupOf, sequence, t + 1)
  {
    hide Members;
    assert SlotOf(entries, groupOf, sequence, sequence[t]) == Slot(t, 0);
    hide SlotOf;
  }

  /** The appended units duplicate members of one band, in the order of the members. */
  ghost predicate Duplicating(units: seq<seq<nat>>, from: seq<nat>, members: seq<nat>, entries: seq<PlannedEntry>, k: nat) {
    && |from| == |units| && StrictlyAscending(from) && AllBelow(from, |members|)
    && (forall u :: 0 <= u < |units| ==> |units[u]| == 1 && k <= units[u][0] < |entries| && entries[units[u][0]].original == members[from[u]])
  }

  lemma DuplicateSlot(entries: seq<PlannedEntry>, groupOf: seq<nat>, sequence: seq<nat>, t: nat, e: nat, x: nat)
    requires Whole(sequence, |groupOf|) && t < |sequence| && |groupOf| <= e < |entries|
    requires var members := Members(sequence, groupOf, groupOf[sequence[t]]);
             members != [] && members[|members| - 1] == sequence[t] && x < |members| && entries[e].original == members[x]
    ensures entries[e].original < |groupOf|
    ensures SlotOf(entries, groupOf, sequence, e) == Slot(t, 1 + TurnOf(sequence, entries[e].original))
  {
    hide Members;
  }

  lemma RunDuplicates(units: seq<seq<nat>>, more: seq<seq<nat>>, from: seq<nat>, entries: seq<PlannedEntry>, groupOf: seq<nat>,
                      sequence: seq<nat>, t: nat)
    requires Whole(sequence, |groupOf|) && t < |sequence| && |groupOf| <= |entries| && entries[sequence[t]].original == sequence[t]
    requires RunInOrder(units, entries, groupOf, sequence, t)
    requires var members := Members(sequence, groupOf, groupOf[sequence[t]]);
             members != [] && members[|members| - 1] == sequence[t] && Duplicating(more, from, members, entries, |groupOf|)
    ensures RunInOrder(units + [[sequence[t]]] + more, entries, groupOf, sequence, t + 1)
  {
    hide SlotOf, Members;
    var members := Members(sequence, groupOf, groupOf[sequence[t]]);
    assert SlotOf(entries, groupOf, sequence, sequence[t]) == Slot(t, 0) by {
      SlotOfOriginal(entries, groupOf, sequence, t);
    }
    forall u | 0 <= u < |more|
      ensures entries[more[u][0]].original < |groupOf|
      ensures SlotOf(entries, groupOf, sequence, more[u][0]) == Slot(t, 1 + TurnOf(sequence, members[from[u]])) {
      DuplicateSlot(entries, groupOf, sequence, t, more[u][0], from[u]);
    }
    forall u, v | 0 <= u < v < |more| ensures TurnOf(sequence, members[from[u]]) < TurnOf(sequence, members[from[v]]) {
      MembersInTurn(sequence, groupOf, groupOf[sequence[t]], from[u], from[v]);
    }
  }

  lemma SlotOfOriginal(entries: seq<PlannedEntry>, groupOf: seq<nat>, sequence: seq<nat>, t: nat)
    requires Whole(sequence, |groupOf|) && t < |sequence| && |groupOf| <= |entries| && entries[sequence[t]].original == sequence[t]
    ensures SlotOf(entries, groupOf, sequence, sequence[t]) == Slot(t, 0)
  {
  }

  /** The duplicates of a band, each a unit of its own. */
  method PushDuplicates(units0: seq<seq<nat>>, members: seq<nat>, entries: seq<PlannedEntry>, aaOf: seq<DuplicateOf>,
                        groupOf: seq<nat>, history: seq<bool>, aa: bool) returns (units: seq<seq<nat>>, ghost from: seq<nat>)
    requires |groupOf| == |history| && Planned(entries, aaOf, groupOf, history, aa)
    requires Distinct(members) && AllBelow(members, |groupOf|)
    ensures forall e: nat :: Occurrences(units, e) == Occurrences(units0, e) + Duplicates(entries, |groupOf|, members, |members|, e)
    ensures units0 <= units && Duplicating(units[|units0|..], from, members, entries, |groupOf|)
  {
    hide Occurrences;
    units, from := units0, [];
    for x := 0 to |members|
      invariant forall e: nat :: Occurrences(units, e) == Occurrences(units0, e) + Duplicates(entries, |groupOf|, members, x, e)
      invariant units0 <= units && Duplicating(units[|units0|..], from, members, entries, |groupOf|) && AllBelow(from, x)
    {
      var m := members[x];
      ghost var before := units;
      if aaOf[m].DuplicateAt? {
        units, from := units + [[aaOf[m].entry]], from + [x];
        assert units[|units0|..] == before[|units0|..] + [[aaOf[m].entry]];
      }
      forall e: nat ensures Occurrences(units, e) == Occurrences(units0, e) + Duplicates(entries, |groupOf|, members, x + 1, e) {
        NextDuplicate(entries, aaOf, groupOf, history, aa, members, x, e);
        if aaOf[m].DuplicateAt? {
          UnitsGrow(before, aaOf[m].entry, e);
        }
      }
    }
  }

  lemma NextDuplicate(entries: seq<PlannedEntry>, aaOf: seq<DuplicateOf>, groupOf: seq<nat>, history: seq<bool>, aa: bool,
                      members: seq<nat>, x: nat, e: nat)
    requires |groupOf| == |history| && Planned(entries, aaOf, groupOf, history, aa)
    requires Distinct(members) && AllBelow(members, |groupOf|) && x < |members|
    ensures DuplicatesOne(entries, |groupOf|, members, x + 1, e)
       <==> DuplicatesOne(entries, |groupOf|, members, x, e) || aaOf[members[x]] == DuplicateAt(e)
    ensures !(DuplicatesOne(entries, |groupOf|, members, x, e) && aaOf[members[x]] == DuplicateAt(e))
  {
    assert members[..x + 1] == members[..x] + [members[x]];
    assert members[x] !in members[..x];
  }

  /** Registration and reversed order: every unit holds one entry, every planned entry occurs exactly
      once, and the units run in slot order: the originals in sequence, the duplicates of a band right
      after the band's last original. */
  method SequenceUnits(sequence: seq<nat>, entries: seq<PlannedEntry>, aaOf: seq<DuplicateOf>, groupOf: seq<nat>, groupCount: nat,
                       history: seq<bool>, aa: bool) returns (units: seq<seq<nat>>)
    requires |groupOf| == |history| && Planned(entries, aaOf, groupOf, history, aa) && AllBelow(groupOf, groupCount)
    requires Whole(sequence, |groupOf|)
    ensures forall e: nat :: Occurrences(units, e) == if e < |entries| then 1 else 0
    ensures RunInOrder(units, entries, groupOf, sequence, |sequence|)
  {
    hide Occurrences, BandDone, DuplicatesOne, RunInOrder, Duplicating;
    var bandMembers := BandMembers(sequence, groupOf, groupCount);
    units := [];
    forall e: nat ensures Occurrences(units, e) == 0 {
      EmptyUnits(units, e);
    }
    forall g: nat ensures !BandDone(sequence, groupOf, g, 0) {
      NotDoneAtFirst(sequence, groupOf, g);
    }
    assert RunInOrder(units, entries, groupOf, sequence, 0) by {
      NothingRun(entries, groupOf, sequence);
    }
    for t := 0 to |sequence|
      invariant forall e: nat :: Occurrences(units, e) == PlacedBy(sequence, entries, groupOf, t, e)
      invariant RunInOrder(units, entries, groupOf, sequence, t)
    {
      var i := sequence[t];
      ghost var before := units;
      RunOriginal(units, entries, groupOf, sequence, t);
      units := units + [[i]];
      forall e: nat ensures Occurrences(units, e) == Occurrences(before, e) + if e == i then 1 else 0 {
        UnitsGrow(before, i, e);
      }
      var members := bandMembers[groupOf[i]];
      InItsBand(sequence, groupOf, t);
      if aa && members[|members| - 1] == i {
        MembersAreDistinct(sequence, groupOf, groupOf[i]);
        MembersAreBelow(sequence, groupOf, groupOf[i]);
        ghost var from;
        units, from := PushDuplicates(units, members, entries, aaOf, groupOf, history, aa);
        RunDuplicates(before, units[|before| + 1..], from, entries, groupOf, sequence, t);
        assert units == before + [[i]] + units[|before| + 1..];
      }
      forall e: nat ensures Occurrences(units, e) == PlacedBy(sequence, entries, groupOf, t + 1, e) {
        PlacedNext(sequence, entries, aaOf, groupOf, history, aa, t, e);
      }
    }
    forall e: nat ensures Occurrences(units, e) == if e < |entries| then 1 else 0 {
      AllPlaced(sequence, entries, aaOf, groupOf, history, aa, e);
    }
  }

  lemma NothingRun(entries: seq<PlannedEntry>, groupOf: seq<nat>, sequence: seq<nat>)
    requires Whole(sequence, |groupOf|)
    ensures RunInOrder([], entries, groupOf, sequence, 0)
  {
  }

  /** How often entry e is in a unit once the first t entries of the sequence are placed. */
  ghost function PlacedBy(sequence: seq<nat>, entries: seq<PlannedEntry>, groupOf: seq<nat>, t: nat, e: nat): nat
    requires AllBelow(sequence, |groupOf|) && t <= |sequence|
  {
    if e < |groupOf| then (if e in sequence[..t] then 1 else 0)
    else if e < |entries| then (if BandDone(sequence, groupOf, entries[e].group, t) then 1 else 0)
    else 0
  }

  lemma NotDoneAtFirst(sequence: seq<nat>, groupOf: seq<nat>, g: nat)
    requires AllBelow(sequence, |groupOf|)
    ensures !BandDone(sequence, groupOf, g, 0)
  {
  }

  lemma InItsBand(sequence: seq<nat>, groupOf: seq<nat>, t: nat)
    requires AllBelow(sequence, |groupOf|) && t < |sequence|
    ensures Members(sequence, groupOf, groupOf[sequence[t]]) != []
  {
    hide Members;
    assert sequence[t] in Members(sequence, groupOf, groupOf[sequence[t]]);
  }

  lemma MembersAreBelow(sequence: seq<nat>, groupOf: seq<nat>, g: nat)
    requires AllBelow(sequence, |groupOf|)
    ensures AllBelow(Members(sequence, groupOf, g), |groupOf|)
  {
    hide Members;
  }

  /** The step at t completes a band exactly when it places the band's last member. */
  lemma BandDoneNext(sequence: seq<nat>, groupOf: seq<nat>, g: nat, t: nat)
    requires AllBelow(sequence, |groupOf|) && Distinct(sequence) && t < |sequence|
    ensures var members := Members(sequence, groupOf, g);
            && (BandDone(sequence, groupOf, g, t + 1) <==> (BandDone(sequence, groupOf, g, t) || (members != [] && members[|members| - 1] == sequence[t])))
            && !(BandDone(sequence, groupOf, g, t) && members != [] && members[|members| - 1] == sequence[t])
  {
    hide Members;
    assert sequence[..t + 1] == sequence[..t] + [sequence[t]];
    assert sequence[t] !in sequence[..t];
  }

  lemma PlacedNext(sequence: seq<nat>, entries: seq<PlannedEntry>, aaOf: seq<DuplicateOf>, groupOf: seq<nat>, history: seq<bool>, aa: bool,
                   t: nat, e: nat)
    requires |groupOf| == |history| && Planned(entries, aaOf, groupOf, history, aa)
    requires AllBelow(sequence, |groupOf|) && Distinct(sequence) && t < |sequence|
    requires forall p :: 0 <= p < |groupOf| ==> p in sequence
    ensures var members := Members(sequence, groupOf, groupOf[sequence[t]]);
            && members != []
            && PlacedBy(sequence, entries, groupOf, t + 1, e) == PlacedBy(sequence, entries, groupOf, t, e)
                 + (if e == sequence[t] then 1 else 0)
                 + (if aa && members[|members| - 1] == sequence[t] && DuplicatesOne(entries, |groupOf|, members, |members|, e) then 1 else 0)
  {
    hide Members, BandDone;
    var i := sequence[t];
    var members := Members(sequence, groupOf, groupOf[i]);
    InItsBand(sequence, groupOf, t);
    assert members[..|members|] == members;
    assert sequence[..t + 1] == sequence[..t] + [i];
    assert i !in sequence[..t];
    if |groupOf| <= e < |entries| {
      var g := entries[e].group;
      BandDoneNext(sequence, groupOf, g, t);
      var others := Members(sequence, groupOf, g);
      assert others != [] ==> groupOf[others[|others| - 1]] == g;
      DuplicateOfBand(sequence, entries, aaOf, groupOf, history, aa, t, e);
    }
  }

  /** A duplicate is pushed with the band of its original. */
  lemma DuplicateOfBand(sequence: seq<nat>, entries: seq<PlannedEntry>, aaOf: seq<DuplicateOf>, groupOf: seq<nat>, history: seq<bool>, aa: bool,
                        t: nat, e: nat)
    requires |groupOf| == |history| && Planned(entries, aaOf, groupOf, history, aa) && |groupOf| <= e < |entries|
    requires AllBelow(sequence, |groupOf|) && t < |sequence| && forall p :: 0 <= p < |groupOf| ==> p in sequence
    ensures aa
    ensures var members := Members(sequence, groupOf, groupOf[sequence[t]]);
            DuplicatesOne(entries, |groupOf|, members, |members|, e) <==> entries[e].group == groupOf[sequence[t]]
  {
    hide Members;
    var members := Members(sequence, groupOf, groupOf[sequence[t]]);
    assert members[..|members|] == members;
    assert entries[e].original in sequence;
  }

  lemma AllPlaced(sequence: seq<nat>, entries: seq<PlannedEntry>, aaOf: seq<DuplicateOf>, groupOf: seq<nat>, history: seq<bool>, aa: bool, e: nat)
    requires |groupOf| == |history| && Planned(entries, aaOf, groupOf, history, aa)
    requires AllBelow(sequence, |groupOf|) && forall p :: 0 <= p < |groupOf| ==> p in sequence
    ensures PlacedBy(sequence, entries, groupOf, |sequence|, e) == if e < |entries| then 1 else 0
  {
    hide Members;
    assert sequence[..|sequence|] == sequence;
    if |groupOf| <= e < |entries| {
      var m := entries[e].original;
      assert m in sequence && m in Members(sequence, groupOf, groupOf[m]);
    }
  }

  // ---- the whole plan ----------------------------------------------------------------------------

  /** The positions in registration order, or reversed. */
  function Sequence(k: nat, reversed: bool): (r: seq<nat>)
    ensures |r| == k && Whole(r, k)
    ensures forall t :: 0 <= t < k ==> r[t] == if reversed then k - 1 - t else t
  {
    var r := seq(k, i requires 0 <= i < k => if reversed then k - 1 - i else i);
    assert forall p :: 0 <= p < k ==> p in r by {
      forall p | 0 <= p < k ensures p in r {
        assert r[if reversed then k - 1 - p else p] == p;
      }
    }
    r
  }

  /** make_plan: bands are the entries with equal keys (history entries alone), whatever the hash, and in
      every order and A/A setting each planned entry occurs in exactly one unit exactly once. */
  method MakePlan<K(==)>(keys: seq<K>, history: seq<bool>, hash: K -> nat, aa: bool, order: RunOrder)
    returns (entries: seq<PlannedEntry>, aaOf: seq<DuplicateOf>, groupOf: seq<nat>, units: seq<seq<nat>>)
    requires |keys| == |history|
    ensures |groupOf| == |keys| && Planned(entries, aaOf, groupOf, history, aa)
    ensures forall p, q :: 0 <= p < |keys| && 0 <= q < |keys| ==>
              (groupOf[p] == groupOf[q] <==> (p == q || (!history[p] && !history[q] && keys[p] == keys[q])))
    ensures InOrderOfAppearance(groupOf)
    ensures forall e: nat :: Occurrences(units, e) == if e < |entries| then 1 else 0
    ensures order.Interleaved? || order.Shuffled? ==> forall g, i :: 0 <= g < |units| && 0 <= i < |units[g]| ==> units[g][i] < |entries| && entries[units[g][i]].group == g
    ensures order.Interleaved? || order.Shuffled? ==> forall g :: 0 <= g < |units| ==> StrictlyAscending(units[g])
    ensures order.Interleaved? || order.Shuffled? ==> forall g :: 0 <= g < |units| ==> units[g] != [] && g in groupOf
    ensures order.Interleaved? || order.Shuffled? ==> forall p :: 0 <= p < |keys| ==> groupOf[p] < |units|
    ensures order.Registration? || order.Reversed? ==> RunInOrder(units, entries, groupOf, Sequence(|keys|, order.Reversed?), |keys|)
  {
    hide Occurrences, LeadersBelow, Leads, LeadersLead, RunInOrder;
    var hashes := seq(|keys|, i requires 0 <= i < |keys| => hash(keys[i]));
    var byHash := StableSortByHash(hashes);
    var first := FirstOfBand(keys, hashes, history, byHash);
    LeadersLeadThemselves(keys, history, first);
    var groupCount;
    groupOf, groupCount := GroupNumbers(first);
    NumbersAppearInOrder(first, groupOf);
    forall p, q | 0 <= p < |keys| && 0 <= q < |keys|
      ensures groupOf[p] == groupOf[q] <==> (p == q || (!history[p] && !history[q] && keys[p] == keys[q])) {
      GroupingIsByKey(keys, history, first, p, q);
    }
    forall p | 0 <= p < |keys| ensures groupOf[p] < groupCount {
      GroupsAreBands(first, p, p);
    }
    entries, aaOf := PlanEntries(groupOf, history, aa);
    if SideBySide(order) {
      EntryGroupsAreBelow(entries, aaOf, groupOf, history, aa, groupCount);
      units := BandUnits(entries, groupCount);
      forall g | 0 <= g < |units| ensures units[g] != [] && g in groupOf {
        var p := NumberIsTaken(first, |first|, g);
        assert groupOf[p] == g && entries[p].group == g;
      }
    } else {
      units := SequenceUnits(Sequence(|keys|, order.Reversed?), entries, aaOf, groupOf, groupCount, history, aa);
    }
  }

  lemma EntryGroupsAreBelow(entries: seq<PlannedEntry>, aaOf: seq<DuplicateOf>, groupOf: seq<nat>, history: seq<bool>, aa: bool, groupCount: nat)
    requires |groupOf| == |history| && Planned(entries, aaOf, groupOf, history, aa) && AllBelow(groupOf, groupCount)
    ensures forall e :: 0 <= e < |entries| ==> entries[e].group < groupCount
  {
  }
}
