/** The sorted batch updates of a two-level table, and its count of values. */
module SortedBatch {
  import opened Word64
  import opened WordSets
  import opened Listing
  import opened Runs
  import opened BitsetContainer
  import opened ChunkContainers
  import opened ChunkTable

  // ---- groups ------------------------------------------------------------------------------------

  /** The end of the group of values[start]'s chunk. */
  method GroupEnd(values: seq<nat>, start: nat) returns (end: nat)
    requires start < |values|
    ensures start < end <= |values|
    ensures forall j :: start <= j < end ==> Chunk(values[j]) == Chunk(values[start])
    ensures end < |values| ==> Chunk(values[end]) != Chunk(values[start])
  {
    end := start + 1;
    while end < |values| && Chunk(values[end]) == Chunk(values[start])
      invariant start < end <= |values|
      invariant forall j :: start <= j < end ==> Chunk(values[j]) == Chunk(values[start])
    {
      end := end + 1;
    }
  }

  /** The group's values are those of one chunk whose low parts are listed. */
  ghost predicate SameGroup(group: seq<nat>, key: nat, lows: seq<nat>) {
    forall v: nat :: v in ValuesOf(group) <==> (Chunk(v) == key && Low(v) in ValuesOf(lows))
  }

  /** A group of one chunk is as ordered as its low parts, and holds v iff it holds v's low part. */
  lemma GroupLows(values: seq<nat>, start: nat, end: nat)
    requires start <= end <= |values| && Ascending(values)
    requires forall j :: start <= j < end ==> Chunk(values[j]) == Chunk(values[start])
    ensures var lows := LowsOf(values[start..end]);
            && AllBelow(lows, LOW_DOMAIN) && Ascending(lows)
            && (StrictlyAscending(values) ==> StrictlyAscending(lows))
            && (start < end ==> SameGroup(values[start..end], Chunk(values[start]), lows))
  {
    hide Chunk, Low;
    var group := values[start..end];
    assert forall i :: 0 <= i < |group| ==> group[i] == values[start + i];
    if start < end {
      GroupOrder(group, Chunk(values[start]));
      GroupValues(group, Chunk(values[start]));
    }
  }

  lemma GroupOrder(group: seq<nat>, key: nat)
    requires Ascending(group) && forall i :: 0 <= i < |group| ==> Chunk(group[i]) == key
    ensures AllBelow(LowsOf(group), LOW_DOMAIN) && Ascending(LowsOf(group))
    ensures StrictlyAscending(group) ==> StrictlyAscending(LowsOf(group))
  {
    hide Chunk, Low;
  }

  lemma GroupValues(group: seq<nat>, key: nat)
    requires forall i :: 0 <= i < |group| ==> Chunk(group[i]) == key
    ensures SameGroup(group, key, LowsOf(group))
  {
    hide Chunk, Low;
    var lows := LowsOf(group);
    forall v: nat ensures v in ValuesOf(group) <==> Chunk(v) == key && Low(v) in ValuesOf(lows) {
      if v in ValuesOf(group) {
        var i :| 0 <= i < |group| && group[i] == v;
        assert lows[i] == Low(v);
      }
      if Chunk(v) == key && Low(v) in ValuesOf(lows) {
        var i :| 0 <= i < |lows| && lows[i] == Low(v);
        assert group[i] == v;
      }
    }
  }

  // ---- where a list can be stored ----------------------------------------------------------------

  /** How many of the values are of chunk k. */
  ghost function GroupSize(values: seq<nat>, k: nat): nat {
    |set i | i in Range(0, |values|) && Chunk(values[i]) == k|
  }

  /** values[i] joins a chunk that exists, or a new bitset, or a new array that is short enough and has no
      room for a repetition. */
  ghost predicate StoresAt(values: seq<nat>, keys: seq<nat>, limit: nat, i: nat)
    requires i < |values|
  {
    var k := Chunk(values[i]);
    || k in keys
    || GroupSize(values, k) > limit
    || (GroupSize(values, k) <= DEFAULT_MAX_SIZE && (0 < i ==> values[i - 1] != values[i]))
  }

  /** Every value of chunk k does. */
  ghost predicate StoresChunk(values: seq<nat>, keys: seq<nat>, limit: nat, k: nat) {
    forall i :: 0 <= i < |values| && Chunk(values[i]) == k ==> StoresAt(values, keys, limit, i)
  }

  /** The exact condition under which new arrays of up to `limit` values are well formed: no value repeats,
      and no array is too long, in a group of at most `limit` values whose chunk is not among the keys. */
  ghost predicate StoresWell(values: seq<nat>, keys: seq<nat>, limit: nat) {
    forall i :: 0 <= i < |values| ==> StoresAt(values, keys, limit, i)
  }

  lemma StrictStoresWell(values: seq<nat>, keys: seq<nat>, limit: nat)
    requires StrictlyAscending(values) && limit <= DEFAULT_MAX_SIZE
    ensures StoresWell(values, keys, limit)
  {
    hide Chunk;
  }

  /** [start, end) is the whole group of chunk key. */
  ghost predicate IsGroup(values: seq<nat>, start: nat, end: nat, key: nat) {
    && start < end <= |values| && (forall j :: start <= j < end ==> Chunk(values[j]) == key)
    && (0 < start ==> Chunk(values[start - 1]) < key) && (end < |values| ==> key < Chunk(values[end]))
  }

  lemma ChunkIsMonotone(v: nat, w: nat)
    requires v <= w
    ensures Chunk(v) <= Chunk(w)
  {
  }

  lemma GroupIsWhole(values: seq<nat>, start: nat, end: nat, key: nat)
    requires Ascending(values) && IsGroup(values, start, end, key)
    ensures forall i :: 0 <= i < |values| ==> (Chunk(values[i]) == key <==> start <= i < end)
    ensures GroupSize(values, key) == end - start
  {
    hide Chunk, Range;
    forall i | 0 <= i < |values| ensures Chunk(values[i]) == key <==> start <= i < end {
      if i < start {
        ChunkIsMonotone(values[i], values[start - 1]);
      } else if end <= i {
        ChunkIsMonotone(values[end], values[i]);
      }
    }
    assert (set i | i in Range(0, |values|) && Chunk(values[i]) == key) == Range(start, end);
  }

  lemma StrictByNeighbours(values: seq<nat>, start: nat, end: nat)
    requires start <= end <= |values| && Ascending(values)
    ensures StrictlyAscending(values[start..end]) <==> forall i :: start < i < end ==> values[i - 1] != values[i]
  {
    var group := values[start..end];
    if StrictlyAscending(group) {
      forall i | start < i < end ensures values[i - 1] != values[i] {
        assert group[i - 1 - start] < group[i - start];
      }
    }
    if forall i :: start < i < end ==> values[i - 1] != values[i] {
      forall i, j | 0 <= i < j < |group| ensures group[i] < group[j] {
        assert values[start + i] <= values[start + j - 1] <= values[start + j];
        assert values[start + j - 1] != values[start + j];
      }
    }
  }

  /** A group can be stored as one exactly when each of its values can. */
  lemma GroupStores(values: seq<nat>, keys: seq<nat>, limit: nat, start: nat, end: nat, key: nat)
    requires Ascending(values) && IsGroup(values, start, end, key)
    ensures StoresChunk(values, keys, limit, key)
       <==> key in keys || end - start > limit || (end - start <= DEFAULT_MAX_SIZE && StrictlyAscending(values[start..end]))
  {
    GroupIsWhole(values, start, end, key);
    StrictByNeighbours(values, start, end);
    hide Chunk, GroupSize, StrictlyAscending, Ascending;
    assert 0 < start ==> values[start - 1] != values[start];
    if StoresChunk(values, keys, limit, key) && key !in keys && end - start <= limit {
      assert StoresAt(values, keys, limit, start);
      forall i | start < i < end ensures values[i - 1] != values[i] {
        assert StoresAt(values, keys, limit, i);
      }
    }
  }

  lemma StrictLows(group: seq<nat>, key: nat)
    requires forall i :: 0 <= i < |group| ==> Chunk(group[i]) == key
    ensures StrictlyAscending(LowsOf(group)) <==> StrictlyAscending(group)
  {
    hide Chunk, Low;
    var lows := LowsOf(group);
    assert forall i :: 0 <= i < |group| ==> group[i] == 0x1_0000 * key + lows[i];
  }

  /** The chunks of the values. */
  ghost function ChunksOf(values: seq<nat>): set<nat> {
    set i | 0 <= i < |values| :: Chunk(values[i])
  }

  lemma ChunksOfGroup(values: seq<nat>, start: nat, end: nat, key: nat)
    requires IsGroup(values, start, end, key)
    ensures ChunksOf(values[..end]) == ChunksOf(values[..start]) + {key}
  {
    hide Chunk;
    var before, after := values[..start], values[..end];
    forall k ensures k in ChunksOf(after) <==> k in ChunksOf(before) || k == key {
      if k in ChunksOf(before) {
        var i :| 0 <= i < |before| && Chunk(before[i]) == k;
        assert after[i] == before[i];
      }
      if k == key {
        assert after[start] == values[start];
      }
      if k in ChunksOf(after) {
        var i :| 0 <= i < |after| && Chunk(after[i]) == k;
        assert i < start ==> before[i] == after[i];
      }
    }
  }

  lemma ChunksAreStored(values: seq<nat>, keys: seq<nat>, limit: nat)
    ensures StoresWell(values, keys, limit) <==> forall k :: k in ChunksOf(values) ==> StoresChunk(values, keys, limit, k)
  {
    hide Chunk, StoresAt;
    if forall k :: k in ChunksOf(values) ==> StoresChunk(values, keys, limit, k) {
      forall i | 0 <= i < |values| ensures StoresAt(values, keys, limit, i) {
        assert StoresChunk(values, keys, limit, Chunk(values[i]));
      }
    }
  }

  /** The chunks of the values before `start`, the group of values[start] being next. */
  lemma NextGroup(values: seq<nat>, start: nat, end: nat)
    requires start < end <= |values| && Ascending(values)
    requires forall j :: start <= j < end ==> Chunk(values[j]) == Chunk(values[start])
    requires end < |values| ==> Chunk(values[end]) != Chunk(values[start])
    requires 0 < start ==> Chunk(values[start - 1]) < Chunk(values[start])
    ensures IsGroup(values, start, end, Chunk(values[start]))
    ensures Chunk(values[start]) !in ChunksOf(values[..start])
    ensures end < |values| ==> Chunk(values[end - 1]) < Chunk(values[end])
  {
    hide Chunk;
    if end < |values| {
      ChunkIsMonotone(values[start], values[end]);
    }
    forall i | 0 <= i < start ensures Chunk(values[i]) < Chunk(values[start]) {
      ChunkIsMonotone(values[i], values[start - 1]);
    }
  }

  lemma ValuesOfGroups(values: seq<nat>, start: nat, end: nat)
    requires start <= end <= |values|
    ensures ValuesOf(values[..end]) == ValuesOf(values[..start]) + ValuesOf(values[start..end])
  {
    assert values[..end] == values[..start] + values[start..end];
    ValuesOfConcat(values[..start], values[start..end]);
  }

  /** What one turn of the group loops needs to know of its group. */
  lemma GroupStep(values: seq<nat>, start: nat, end: nat, keys: seq<nat>, limit: nat)
    requires start < end <= |values| && Ascending(values) && AllBelow(values, KEY_LIMIT)
    requires forall j :: start <= j < end ==> Chunk(values[j]) == Chunk(values[start])
    requires end < |values| ==> Chunk(values[end]) != Chunk(values[start])
    requires 0 < start ==> Chunk(values[start - 1]) < Chunk(values[start])
    ensures var key, lows := Chunk(values[start]), LowsOf(values[start..end]);
            && key < LOW_DOMAIN && AllBelow(lows, LOW_DOMAIN) && Ascending(lows) && |lows| > 0
            && SameGroup(values[start..end], key, lows)
            && key !in ChunksOf(values[..start]) && ChunksOf(values[..end]) == ChunksOf(values[..start]) + {key}
            && (StoresChunk(values, keys, limit, key)
                <==> key in keys || |lows| > limit || (|lows| <= DEFAULT_MAX_SIZE && StrictlyAscending(lows)))
    ensures ValuesOf(values[..end]) == ValuesOf(values[..start]) + ValuesOf(values[start..end])
    ensures end < |values| ==> Chunk(values[end - 1]) < Chunk(values[end])
  {
    hide Low, StoresChunk, ChunksOf, SameGroup, StrictlyAscending;
    var key := Chunk(values[start]);
    assert key < LOW_DOMAIN;
    hide Chunk;
    GroupLows(values, start, end);
    NextGroup(values, start, end);
    ChunksOfGroup(values, start, end, key);
    GroupStores(values, keys, limit, start, end, key);
    StrictLows(values[start..end], key);
    ValuesOfGroups(values, start, end);
  }

  // ---- forms -------------------------------------------------------------------------------------

  /** The key's container is an array or, when it is not small, a bitset. */
  ghost predicate StoredAt(keys: seq<nat>, containers: seq<Container>, key: nat, small: bool) {
    forall i :: 0 <= i < |keys| && i < |containers| && keys[i] == key ==> if small then containers[i].ArrayOf? else containers[i].BitsetOf?
  }

  /** The key's container has the form its addition calls for. */
  ghost predicate GrownAt(keys: seq<nat>, containers: seq<Container>, keys': seq<nat>, containers': seq<Container>, key: nat, added: nat) {
    forall i, j :: 0 <= i < |keys'| && i < |containers'| && keys'[i] == key && 0 <= j < |keys| && j < |containers| && keys[j] == key
      ==> FormAfterAdding(containers[j], added, containers'[i])
  }

  /** The key's container, if it is still there, has the form its removal calls for. */
  ghost predicate ShrunkAt(keys: seq<nat>, containers: seq<Container>, keys': seq<nat>, containers': seq<Container>, key: nat) {
    forall i, j :: 0 <= i < |keys'| && i < |containers'| && keys'[i] == key && 0 <= j < |keys| && j < |containers| && keys[j] == key
      ==> FormAfterRemoving(containers[j], containers'[i])
  }

  /** The container of a new chunk. */
  method NewChunk(group: seq<nat>, limit: nat) returns (c: Container)
    requires AllBelow(group, LOW_DOMAIN) && |group| > 0
    ensures Lows(c) == ValuesOf(group) && if |group| <= limit then c.ArrayOf? else c.BitsetOf?
    ensures WellFormed(c) <==> |group| > limit || (|group| <= DEFAULT_MAX_SIZE && StrictlyAscending(group))
  {
    hide Lows, Sound, StrictlyAscending;
    InValues(group, 0);
    c := NewContainer(group, limit);
  }

  lemma KeysAfterInsert(keys: seq<nat>, pos: nat, key: nat)
    requires pos <= |keys|
    ensures forall k :: k in keys[..pos] + [key] + keys[pos..] <==> k in keys || k == key
  {
    assert keys == keys[..pos] + keys[pos..];
  }

  lemma StoredAfterInsert(keys: seq<nat>, containers: seq<Container>, pos: nat, key: nat, c: Container)
    requires InShape(keys, containers) && pos <= |keys|
    requires forall i :: 0 <= i < |keys| ==> keys[i] != key
    ensures StoredAt(keys[..pos] + [key] + keys[pos..], containers[..pos] + [c] + containers[pos..], key, c.ArrayOf?)
            <==> c.ArrayOf? || c.BitsetOf?
  {
    var keys', containers' := keys[..pos] + [key] + keys[pos..], containers[..pos] + [c] + containers[pos..];
    assert keys'[pos] == key && containers'[pos] == c;
    assert forall i :: 0 <= i < |keys'| && keys'[i] == key ==> i == pos;
  }

  // ---- the table ---------------------------------------------------------------------------------

  class Table {
    var keys: seq<nat>
    var containers: seq<Container>

    ghost predicate Valid()
      reads this
    {
      ValidTable(keys, containers)
    }

    /** Whether the table holds the value. */
    ghost predicate Holds(v: nat)
      reads this
    {
      HasLow(keys, containers, Chunk(v), Low(v))
    }

    /** The values the table holds, as a finite set. */
    ghost function Held(): (s: set<nat>)
      requires Valid()
      reads this
      ensures forall v: nat :: v in s <==> Holds(v)
    {
      hide Chunk, Low, HasLow, HeldValues, WellFormed;
      assert forall v: nat :: v in HeldValues(keys, containers) <==> Holds(v) by {
        forall v: nat ensures v in HeldValues(keys, containers) <==> Holds(v) {
          HeldMeans(keys, containers, v);
        }
      }
      HeldValues(keys, containers)
    }

    constructor ()
      ensures Valid() && keys == [] && forall v :: !Holds(v)
    {
      keys, containers := [], [];
    }

    /** ra_get_index: the position of the key, or minus one minus where it would be inserted. */
    method GetIndex(key: nat) returns (pos: int)
      requires InShape(keys, containers)
      ensures 0 <= pos ==> pos < |keys| && keys[pos] == key
      ensures pos < 0 ==> 0 <= -pos - 1 <= |keys|
      ensures pos < 0 ==> forall i :: 0 <= i < |keys| ==> if i < -pos - 1 then keys[i] < key else key < keys[i]
    {
      var low, high := 0, |keys|;
      while low < high
        invariant 0 <= low <= high <= |keys|
        invariant forall i :: 0 <= i < low ==> keys[i] < key
        invariant forall i :: high <= i < |keys| ==> key < keys[i]
      {
        var middle := (low + high) / 2;
        if keys[middle] < key {
          low := middle + 1;
        } else if key < keys[middle] {
          high := middle;
        } else {
          return middle;
        }
      }
      return -low - 1;
    }

    /** One chunk's group leaves the table; a chunk left empty is dropped. */
    method RemoveFromChunk(key: nat, group: seq<nat>)
      requires Valid() && Ascending(group) && AllBelow(group, LOW_DOMAIN)
      modifies this
      ensures Valid()
      ensures forall k, l :: HasLow(keys, containers, k, l)
                        <==> old(HasLow(keys, containers, k, l)) && !(k == key && l in ValuesOf(group))
      ensures ShrunkAt(old(keys), old(containers), keys, containers, key)
    {
      hide Lows, Ascending, ValuesOf, FormAfterRemoving;
      var pos := GetIndex(key);
      if pos < 0 {
        KeyIsAbsent(keys, containers, key, -pos - 1);
        return;
      }
      ghost var c0 := containers[pos];
      assert WellFormed(c0);
      var c := RemoveGroup(containers[pos], group);
      var empty := IsEmpty(c);
      hide Sound;
      forall l ensures HasLow(keys, containers, key, l) <==> l in Lows(c0) {
        HasLowAt(keys, containers, pos, l);
      }
      if empty {
        NothingLeft(Lows(c0), ValuesOf(group));
        RemoveChunk(keys, containers, pos);
        keys, containers := keys[..pos] + keys[pos + 1..], containers[..pos] + containers[pos + 1..];
      } else {
        ReplaceChunk(keys, containers, pos, c);
        containers := containers[pos := c];
      }
    }

    /** croaring_remove_sorted: the table loses exactly the listed values, and stays well formed. */
    method RemoveSorted(values: seq<nat>)
      requires Valid() && Ascending(values) && AllBelow(values, KEY_LIMIT)
      modifies this
      ensures Valid()
      ensures forall v: nat :: Holds(v) <==> old(Holds(v)) && v !in values
    {
      hide Chunk, Low, HasLow, ValidTable, Ascending;
      var vi := 0;
      while vi < |values|
        invariant vi <= |values| && Valid()
        invariant forall v: nat :: Holds(v) <==> old(Holds(v)) && v !in ValuesOf(values[..vi])
      {
        var end := GroupEnd(values, vi);
        GroupLows(values, vi, end);
        RemoveFromChunk(Chunk(values[vi]), LowsOf(values[vi..end]));
        ValuesOfGroups(values, vi, end);
        vi := end;
      }
      assert values[..vi] == values;
    }

    /** One chunk's group joins the table: into its container, or as a new chunk at its sorted place. The chunk
        is left well formed exactly when it was there, or is a bitset, or no value of the group repeats. */
    method AddToChunk(key: nat, group: seq<nat>)
      requires InShape(keys, containers) && WellAt(keys, containers, key)
      requires Ascending(group) && AllBelow(group, LOW_DOMAIN) && |group| > 0 && key < LOW_DOMAIN
      modifies this
      ensures InShape(keys, containers)
      ensures forall k, l :: HasLow(keys, containers, k, l)
                        <==> old(HasLow(keys, containers, k, l)) || (k == key && l in ValuesOf(group))
      ensures forall k :: k in keys <==> k in old(keys) || k == key
      ensures forall k :: WellAt(keys, containers, k)
                     <==> if k == key then key in old(keys) || |group| > DEFAULT_MAX_SIZE || StrictlyAscending(group)
                          else old(WellAt(keys, containers, k))
      ensures key in old(keys) ==> GrownAt(old(keys), old(containers), keys, containers, key, |group|)
      ensures key !in old(keys) ==> StoredAt(keys, containers, key, |group| <= DEFAULT_MAX_SIZE)
    {
      hide Lows, ValuesOf, Ascending, WellAt, HasLow, GrownAt, StoredAt;
      var pos := GetIndex(key);
      if pos < 0 {
        InsertNewChunk(-pos - 1, key, group, DEFAULT_MAX_SIZE);
      } else {
        AddToHeldChunk(pos, group);
      }
    }

    /** A new chunk at its sorted place: an array up to the limit, a bitset past it. */
    method InsertNewChunk(pos: nat, key: nat, group: seq<nat>, limit: nat)
      requires InShape(keys, containers) && AllBelow(group, LOW_DOMAIN) && |group| > 0 && key < LOW_DOMAIN && pos <= |keys|
      requires forall i :: 0 <= i < |keys| ==> if i < pos then keys[i] < key else key < keys[i]
      modifies this
      ensures InShape(keys, containers) && keys == old(keys)[..pos] + [key] + old(keys)[pos..]
      ensures forall k :: k in keys <==> k in old(keys) || k == key
      ensures forall k, l :: HasLow(keys, containers, k, l)
                        <==> old(HasLow(keys, containers, k, l)) || (k == key && l in ValuesOf(group))
      ensures forall k :: WellAt(keys, containers, k)
                     <==> if k == key then |group| > limit || (|group| <= DEFAULT_MAX_SIZE && StrictlyAscending(group))
                          else old(WellAt(keys, containers, k))
      ensures StoredAt(keys, containers, key, |group| <= limit)
    {
      hide Lows, ValuesOf, StrictlyAscending, HasLow, WellAt, WellFormed, StoredAt;
      var c := NewChunk(group, limit);
      InsertChunk(keys, containers, pos, key, c);
      StoredAfterInsert(keys, containers, pos, key, c);
      KeysAfterInsert(keys, pos, key);
      hide InShape;
      keys, containers := keys[..pos] + [key] + keys[pos..], containers[..pos] + [c] + containers[pos..];
    }

    /** The group joins the container at pos. */
    method AddToHeldChunk(pos: nat, group: seq<nat>)
      requires InShape(keys, containers) && pos < |keys| && WellAt(keys, containers, keys[pos])
      requires Ascending(group) && AllBelow(group, LOW_DOMAIN)
      modifies this
      ensures InShape(keys, containers) && keys == old(keys)
      ensures forall k, l :: HasLow(keys, containers, k, l)
                        <==> old(HasLow(keys, containers, k, l)) || (k == keys[pos] && l in ValuesOf(group))
      ensures forall k :: WellAt(keys, containers, k) <==> k == keys[pos] || old(WellAt(keys, containers, k))
      ensures GrownAt(old(keys), old(containers), keys, containers, keys[pos], |group|)
    {
      hide Lows, ValuesOf, FormAfterAdding, Ascending;
      ghost var c0 := containers[pos];
      assert WellFormed(c0);
      var c := AddGroup(containers[pos], group);
      assert WellFormed(c);
      hide Sound, WellFormed;
      forall l ensures HasLow(keys, containers, keys[pos], l) <==> l in Lows(c0) {
        HasLowAt(keys, containers, pos, l);
      }
      ReplaceChunk(keys, containers, pos, c);
      hide WellAt, HasLow;
      containers := containers[pos := c];
    }

    /** The chunks not yet reached are well formed, and a chunk that was is so exactly when its values could be
        stored well. */
    ghost predicate StoredUpTo(values: seq<nat>, vi: nat, keys0: seq<nat>, limit: nat)
      requires vi <= |values|
      reads this
    {
      && InShape(keys, containers)
      && (forall k :: k in keys <==> k in keys0 || k in ChunksOf(values[..vi]))
      && (forall k :: WellAt(keys, containers, k) <==> (k in ChunksOf(values[..vi]) ==> StoresChunk(values, keys0, limit, k)))
    }

    /** croaring_add_sorted: the table gains exactly the listed values, repeated or not, and stays well formed
        exactly when no value repeats in a group that becomes a new array. */
    method AddSorted(values: seq<nat>)
      requires Valid() && Ascending(values) && AllBelow(values, KEY_LIMIT)
      modifies this
      ensures InShape(keys, containers)
      ensures forall v: nat :: Holds(v) <==> old(Holds(v)) || v in values
      ensures Valid() <==> StoresWell(values, old(keys), DEFAULT_MAX_SIZE)
    {
      hide Chunk, Low, HasLow, ValidTable, Ascending, WellAt, StoresChunk, StoresWell, ChunksOf, InShape, StrictlyAscending, AllBelow;
      ghost var keys0 := keys;
      StoredNothing(keys, containers, values, DEFAULT_MAX_SIZE);
      var vi := 0;
      while vi < |values|
        invariant vi <= |values| && StoredUpTo(values, vi, keys0, DEFAULT_MAX_SIZE)
        invariant 0 < vi < |values| ==> Chunk(values[vi - 1]) < Chunk(values[vi])
        invariant forall v: nat :: Holds(v) <==> old(Holds(v)) || v in ValuesOf(values[..vi])
      {
        var end := GroupEnd(values, vi);
        GroupStep(values, vi, end, keys0, DEFAULT_MAX_SIZE);
        AddToChunk(Chunk(values[vi]), LowsOf(values[vi..end]));
        vi := end;
      }
      assert values[..vi] == values;
      ValidByKey(keys, containers);
      ChunksAreStored(values, keys0, DEFAULT_MAX_SIZE);
    }

    /** croaring_append_sorted: the values' chunks are appended past the last one, in the form their
        count calls for. */
    method AppendSorted(values: seq<nat>, threshold: nat)
      requires Valid() && Ascending(values) && AllBelow(values, KEY_LIMIT)
      requires |keys| > 0 && |values| > 0 ==> keys[|keys| - 1] < Chunk(values[0])
      modifies this
      ensures InShape(keys, containers)
      ensures forall v: nat :: Holds(v) <==> old(Holds(v)) || v in values
      ensures Valid() <==> StoresWell(values, old(keys), threshold)
    {
      hide Chunk, Low, HasLow, ValidTable, Ascending, WellAt, StoresChunk, StoresWell, ChunksOf, InShape, StrictlyAscending, AllBelow;
      ghost var keys0 := keys;
      StoredNothing(keys, containers, values, threshold);
      var it := 0;
      while it < |values|
        invariant it <= |values| && StoredUpTo(values, it, keys0, threshold)
        invariant 0 < it < |values| ==> Chunk(values[it - 1]) < Chunk(values[it])
        invariant |keys| > 0 && it < |values| ==> keys[|keys| - 1] < Chunk(values[it])
        invariant forall v: nat :: Holds(v) <==> old(Holds(v)) || v in ValuesOf(values[..it])
      {
        var end := GroupEnd(values, it);
        ghost var key := Chunk(values[it]);
        GroupStep(values, it, end, keys0, threshold);
        PastTheLast(keys, containers, key);
        AppendChunk(Chunk(values[it]), LowsOf(values[it..end]), threshold);
        it := end;
      }
      assert values[..it] == values;
      ValidByKey(keys, containers);
      ChunksAreStored(values, keys0, threshold);
    }

    method AppendChunk(key: nat, group: seq<nat>, threshold: nat)
      requires InShape(keys, containers) && AllBelow(group, LOW_DOMAIN) && |group| > 0 && key < LOW_DOMAIN
      requires |keys| > 0 ==> keys[|keys| - 1] < key
      modifies this
      ensures InShape(keys, containers) && |keys| > 0 && keys[|keys| - 1] == key
      ensures forall k :: k in keys <==> k in old(keys) || k == key
      ensures forall k, l :: HasLow(keys, containers, k, l)
                        <==> old(HasLow(keys, containers, k, l)) || (k == key && l in ValuesOf(group))
      ensures forall k :: WellAt(keys, containers, k)
                     <==> if k == key then |group| > threshold || (|group| <= DEFAULT_MAX_SIZE && StrictlyAscending(group))
                          else old(WellAt(keys, containers, k))
      ensures StoredAt(keys, containers, key, |group| <= threshold)
    {
      hide Lows, ValuesOf, WellAt, HasLow, StoredAt;
      InsertNewChunk(|keys|, key, group, threshold);
    }

    /** roaring_bitmap_get_cardinality: the counts of the containers, added up, are the number of values. */
    method Cardinality() returns (n: nat)
      requires Valid()
      ensures n == |Held()|
    {
      hide Chunk, Low, HasLow, WellFormed, Lows, HeldValues;
      assert |keys| == |containers|;
      hide ValidTable;
      NothingHeld(keys, containers);
      n := 0;
      for i := 0 to |keys|
        invariant n == |HeldValues(keys[..i], containers[..i])|
      {
        HeldOfNext(keys, containers, i);
        SoundAt(keys, containers, i);
        var more := Size(containers[i]);
        n := n + more;
      }
      assert keys[..|keys|] == keys && containers[..|keys|] == containers;
    }
  }

  /** The list [5, 5] on two tables: a new array stores the value twice and is not well formed; an array that
      exists merges it in once. */
  method RepeatedValueInNewChunk() returns (broken: Table, fine: Table)
    ensures !broken.Valid() && forall v: nat :: broken.Holds(v) <==> v == 5
    ensures fine.Valid() && forall v: nat :: fine.Holds(v) <==> v == 5 || v == 7
  {
    hide HasLow, Low;
    broken := new Table();
    assert [5, 5][0] == [5, 5][1];
    GroupIsWhole([5, 5], 0, 2, 0);
    assert !StoresAt([5, 5], [], DEFAULT_MAX_SIZE, 1);
    broken.AddSorted([5, 5]);
    fine := new Table();
    StrictStoresWell([7], [], DEFAULT_MAX_SIZE);
    fine.AddSorted([7]);
    assert fine.Holds(7);
    KeyOfHeld(fine.keys, fine.containers, Chunk(7), Low(7));
    assert StoresWell([5, 5], fine.keys, DEFAULT_MAX_SIZE);
    fine.AddSorted([5, 5]);
  }

  lemma PastTheLast(keys: seq<nat>, containers: seq<Container>, key: nat)
    requires InShape(keys, containers) && (|keys| > 0 ==> keys[|keys| - 1] < key)
    ensures key !in keys
  {
  }

  lemma KeyOfHeld(keys: seq<nat>, containers: seq<Container>, k: nat, l: nat)
    requires HasLow(keys, containers, k, l)
    ensures k in keys
  {
    hide Lows;
  }

  lemma NothingHeld(keys: seq<nat>, containers: seq<Container>)
    requires |keys| == |containers|
    ensures |HeldValues(keys[..0], containers[..0])| == 0
  {
  }

  lemma StoredNothing(keys: seq<nat>, containers: seq<Container>, values: seq<nat>, limit: nat)
    requires ValidTable(keys, containers)
    ensures InShape(keys, containers) && ChunksOf(values[..0]) == {} && forall k :: WellAt(keys, containers, k)
  {
    hide WellFormed;
    ValidByKey(keys, containers);
  }

  lemma SoundAt(keys: seq<nat>, containers: seq<Container>, i: nat)
    requires ValidTable(keys, containers) && i < |keys|
    ensures |keys| == |containers| && Sound(containers[i])
  {
  }

  lemma NothingLeft(a: set<nat>, b: set<nat>)
    requires a - b == {}
    ensures a <= b
  {
    assert forall x :: x in a ==> x in b || x in a - b;
  }

  lemma KeyIsAbsent(keys: seq<nat>, containers: seq<Container>, key: nat, at: nat)
    requires at <= |keys| && forall i :: 0 <= i < |keys| ==> if i < at then keys[i] < key else key < keys[i]
    ensures forall l :: !HasLow(keys, containers, key, l)
  {
  }

  /** container_get_cardinality: the array's length, the bitset's stored count, the lengths of the runs. */
  method Size(c: Container) returns (n: nat)
    requires Sound(c)
    ensures n == |Lows(c)|
  {
    hide Bits, Range, Has, Members, Covered;
    match c
    case ArrayOf(values) =>
      ListingLength(values, ValuesOf(values));
      n := |values|;
    case BitsetOf(words, cardinality) =>
      n := cardinality;
    case RunsOf(runs) =>
      NothingBelowZero(runs);
      n := 0;
      for r := 0 to |runs|
        invariant n == |CoveredBelow(runs, Done(runs, r))|
      {
        GapIsUncovered(runs, r, LOW_DOMAIN);
        CoveredStep(runs, r, runs[r].begin, runs[r].end + 1);
        n := n + (runs[r].end - runs[r].begin + 1);
      }
      GapIsUncovered(runs, |runs|, LOW_DOMAIN);
  }

  /** container_nonzero_cardinality. */
  method IsEmpty(c: Container) returns (empty: bool)
    requires Sound(c)
    ensures empty <==> Lows(c) == {}
  {
    hide Bits, Range, Has, Members, CoveredBelow;
    match c
    case ArrayOf(values) =>
      if values != [] {
        InValues(values, 0);
      }
      empty := values == [];
    case BitsetOf(words, cardinality) =>
      empty := cardinality == 0;
    case RunsOf(runs) =>
      RunsAreEmpty(runs);
      empty := runs == [];
  }

  lemma RunsAreEmpty(runs: seq<Run>)
    requires SortedRuns(runs, LOW_DOMAIN)
    ensures CoveredBelow(runs, LOW_DOMAIN) == {} <==> runs == []
  {
    hide Range;
    if runs != [] {
      assert Covered(runs, runs[0].begin);
      assert runs[0].begin in CoveredBelow(runs, LOW_DOMAIN);
    }
  }
}
