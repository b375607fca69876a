/** A per-value index of rows: a batch of rows changes value, each value's table losing the rows that
    leave it and gaining those that come to it. The tables partition the rows before and after. */
module IndexUpdate {
  import opened Word64
  import opened Listing
  import opened ChunkContainers
  import opened ChunkTable
  import opened SortedBatch

  /** list := lists[v]; list.push_back( row ). */
  function Pushed(lists: seq<seq<nat>>, v: nat, row: nat): (r: seq<seq<nat>>)
    requires v < |lists|
    ensures |r| == |lists|
  {
    lists[v := lists[v] + [row]]
  }

  /** Every list is strictly ascending and holds exactly the rows whose owner it is. */
  ghost predicate Sorted(lists: seq<seq<nat>>, rows: seq<nat>, owners: seq<nat>)
    requires |rows| == |owners|
  {
    forall v :: 0 <= v < |lists| ==> IsListing(lists[v], OwnedBy(rows, owners, v))
  }

  ghost function OwnedBy(rows: seq<nat>, owners: seq<nat>, v: nat): set<nat>
    requires |rows| == |owners|
  {
    set i | 0 <= i < |rows| && owners[i] == v :: rows[i]
  }

  lemma PushKeepsSorted(lists: seq<seq<nat>>, rows: seq<nat>, owners: seq<nat>, row: nat, owner: nat)
    requires |rows| == |owners| && Sorted(lists, rows, owners) && owner < |lists|
    requires forall i :: 0 <= i < |rows| ==> rows[i] < row
    ensures Sorted(Pushed(lists, owner, row), rows + [row], owners + [owner])
  {
    hide IsListing;
    var rows', owners' := rows + [row], owners + [owner];
    forall v | 0 <= v < |lists| ensures IsListing(Pushed(lists, owner, row)[v], OwnedBy(rows', owners', v)) {
      OwnedByNext(rows, owners, row, owner, v);
      if v == owner {
        ListedAreBelow(lists[v], rows, owners, v, row);
        AppendGreater(lists[v], OwnedBy(rows, owners, v), row);
      }
    }
  }

  lemma OwnedByNext(rows: seq<nat>, owners: seq<nat>, row: nat, owner: nat, v: nat)
    requires |rows| == |owners|
    ensures OwnedBy(rows + [row], owners + [owner], v) == if v == owner then OwnedBy(rows, owners, v) + {row} else OwnedBy(rows, owners, v)
  {
    var rows', owners' := rows + [row], owners + [owner];
    assert owners'[|rows|] == owner && rows'[|rows|] == row;
    forall x: nat ensures x in OwnedBy(rows', owners', v) <==> x in OwnedBy(rows, owners, v) || (v == owner && x == row) {
      if x in OwnedBy(rows, owners, v) {
        var i :| 0 <= i < |rows| && owners[i] == v && rows[i] == x;
        assert owners'[i] == v && rows'[i] == x;
      }
    }
  }

  lemma ListedAreBelow(list: seq<nat>, rows: seq<nat>, owners: seq<nat>, v: nat, row: nat)
    requires |rows| == |owners| && IsListing(list, OwnedBy(rows, owners, v))
    requires forall i :: 0 <= i < |rows| ==> rows[i] < row
    ensures forall i :: 0 <= i < |list| ==> list[i] < row
  {
    assert forall i :: 0 <= i < |list| ==> list[i] in ValuesOf(list);
  }

  // ---- the batch ---------------------------------------------------------------------------------

  datatype UpdateData = UpdateData(base: seq<seq<nat>>, removed: seq<seq<nat>>, added: seq<seq<nat>>)

  /** ( from + 1 + draw % ( values - 1 ) ) % values: never the value the row leaves. */
  function TargetOf(from: nat, draw: nat, values: nat): (to: nat)
    requires 2 <= values && from < values
    ensures to < values && to != from
  {
    var step := 1 + draw % (values - 1);
    if from + step < values then from + step else from + step - values
  }

  lemma TargetIsModular(from: nat, draw: nat, values: nat)
    requires 2 <= values && from < values
    ensures TargetOf(from, draw, values) == (from + 1 + draw % (values - 1)) % values
  {
    var step := draw % (values - 1);
    assert step < values - 1;
    Around(from + 1 + step, values);
  }

  lemma Around(x: nat, m: nat)
    requires 0 < m && x < 2 * m
    ensures x % m == if x < m then x else x - m
  {
    if m <= x {
      assert x == m + (x - m);
    }
  }

  /** The owners of the moved rows before and after. */
  ghost function Sources(valueOf: seq<nat>, moved: seq<nat>): (r: seq<nat>)
    requires AllBelow(moved, |valueOf|)
    ensures |r| == |moved|
  {
    seq(|moved|, i requires 0 <= i < |moved| => valueOf[moved[i]])
  }

  ghost function Targets(valueOf: seq<nat>, moved: seq<nat>, draws: seq<nat>, values: nat): (r: seq<nat>)
    requires AllBelow(moved, |valueOf|) && AllBelow(valueOf, values) && |draws| == |moved| && 2 <= values
    ensures |r| == |moved|
  {
    seq(|moved|, i requires 0 <= i < |moved| => TargetOf(valueOf[moved[i]], draws[i], values))
  }

  /** Where the row moved i-th ends: the modular expression of its draw. */
  lemma TargetsAreModular(valueOf: seq<nat>, moved: seq<nat>, draws: seq<nat>, values: nat, i: nat)
    requires AllBelow(moved, |valueOf|) && AllBelow(valueOf, values) && |draws| == |moved| && 2 <= values && i < |moved|
    ensures var to := (valueOf[moved[i]] + 1 + draws[i] % (values - 1)) % values;
            to < values && to != valueOf[moved[i]] && Targets(valueOf, moved, draws, values)[i] == to
  {
    hide TargetOf;
    TargetIsModular(valueOf[moved[i]], draws[i], values);
  }

  function Rows(n: nat): (r: seq<nat>)
    ensures |r| == n
  {
    seq(n, i => i)
  }

  /** index_update_data; the draws of the generator are parameters. */
  method BuildUpdate(values: nat, valueOf: seq<nat>, moved: seq<nat>, draws: seq<nat>) returns (d: UpdateData)
    requires 2 <= values && AllBelow(valueOf, values)
    requires StrictlyAscending(moved) && AllBelow(moved, |valueOf|) && |draws| == |moved|
    ensures |d.base| == |d.removed| == |d.added| == values
    ensures Sorted(d.base, Rows(|valueOf|), valueOf)
    ensures Sorted(d.removed, moved, Sources(valueOf, moved))
    ensures Sorted(d.added, moved, Targets(valueOf, moved, draws, values))
    ensures forall i :: 0 <= i < |moved| ==>
              var from, to := valueOf[moved[i]], (valueOf[moved[i]] + 1 + draws[i] % (values - 1)) % values;
              to < values && to != from && moved[i] in d.removed[from] && moved[i] in d.added[to]
  {
    hide Sorted;
    var base: seq<seq<nat>> := seq(values, _ => []);
    EmptyIsSorted(base);
    for row := 0 to |valueOf|
      invariant |base| == values && Sorted(base, Rows(row), valueOf[..row])
    {
      PushKeepsSorted(base, Rows(row), valueOf[..row], row, valueOf[row]);
      base := Pushed(base, valueOf[row], row);
      assert Rows(row + 1) == Rows(row) + [row];
      assert valueOf[..row + 1] == valueOf[..row] + [valueOf[row]];
    }
    assert valueOf[..|valueOf|] == valueOf;
    var removed: seq<seq<nat>> := seq(values, _ => []);
    var added: seq<seq<nat>> := seq(values, _ => []);
    EmptyIsSorted(removed);
    ghost var sources, targets := Sources(valueOf, moved), Targets(valueOf, moved, draws, values);
    for i := 0 to |moved|
      invariant |removed| == |added| == values
      invariant Sorted(removed, moved[..i], sources[..i])
      invariant Sorted(added, moved[..i], targets[..i])
    {
      var row := moved[i];
      var from := valueOf[row];
      var to := TargetOf(from, draws[i], values);
      PushKeepsSorted(removed, moved[..i], sources[..i], row, from);
      PushKeepsSorted(added, moved[..i], targets[..i], row, to);
      removed, added := Pushed(removed, from, row), Pushed(added, to, row);
      assert moved[..i + 1] == moved[..i] + [row] && sources[..i + 1] == sources[..i] + [from] && targets[..i + 1] == targets[..i] + [to];
    }
    assert moved[..|moved|] == moved && sources[..|moved|] == sources && targets[..|moved|] == targets;
    d := UpdateData(base, removed, added);
    assert moved[..|moved|] == moved && sources[..|moved|] == sources && targets[..|moved|] == targets;
    forall i | 0 <= i < |moved|
      ensures var from, to := valueOf[moved[i]], (valueOf[moved[i]] + 1 + draws[i] % (values - 1)) % values;
              to < values && to != from && moved[i] in d.removed[from] && moved[i] in d.added[to] {
      TargetsAreModular(valueOf, moved, draws, values, i);
      OwnedIsListed(d.removed, moved, sources, i);
      OwnedIsListed(d.added, moved, targets, i);
    }
  }

  lemma OwnedIsListed(lists: seq<seq<nat>>, rows: seq<nat>, owners: seq<nat>, i: nat)
    requires |rows| == |owners| && Sorted(lists, rows, owners) && i < |rows| && owners[i] < |lists|
    ensures rows[i] in lists[owners[i]]
  {
    assert rows[i] in OwnedBy(rows, owners, owners[i]);
    assert rows[i] in ValuesOf(lists[owners[i]]);
  }

  lemma EmptyIsSorted(lists: seq<seq<nat>>)
    requires forall v :: 0 <= v < |lists| ==> lists[v] == []
    ensures Sorted(lists, [], [])
  {
  }

  // ---- conservation ------------------------------------------------------------------------------

  /** The value of every row after the batch. */
  ghost function NewValueOf(valueOf: seq<nat>, moved: seq<nat>, targets: seq<nat>, row: nat): nat
    requires row < |valueOf| && |targets| == |moved|
  {
    if row in moved then TargetAt(moved, targets, row) else valueOf[row]
  }

  ghost function TargetAt(moved: seq<nat>, targets: seq<nat>, row: nat): nat
    requires row in moved && |targets| == |moved|
  {
    var i :| 0 <= i < |moved| && moved[i] == row;
    targets[i]
  }

  lemma InOwnedBy(rows: seq<nat>, owners: seq<nat>, i: nat)
    requires |rows| == |owners| && StrictlyAscending(rows) && i < |rows|
    ensures forall v :: rows[i] in OwnedBy(rows, owners, v) <==> owners[i] == v
  {
    forall v: nat ensures rows[i] in OwnedBy(rows, owners, v) <==> owners[i] == v {
      if rows[i] in OwnedBy(rows, owners, v) {
        var j :| 0 <= j < |rows| && owners[j] == v && rows[j] == rows[i];
        assert !(i < j) && !(j < i);
      }
    }
  }

  lemma NotOwned(rows: seq<nat>, owners: seq<nat>, row: nat)
    requires |rows| == |owners| && row !in rows
    ensures forall v :: row !in OwnedBy(rows, owners, v)
  {
  }

  /** Removing and adding as the batch says leaves value v exactly the rows whose new value is v. */
  lemma BatchMovesRows(values: nat, valueOf: seq<nat>, moved: seq<nat>, draws: seq<nat>, d: UpdateData, v: nat, row: nat)
    requires 2 <= values && AllBelow(valueOf, values) && |draws| == |moved| && v < values
    requires StrictlyAscending(moved) && AllBelow(moved, |valueOf|)
    requires |d.base| == |d.removed| == |d.added| == values
    requires Sorted(d.base, Rows(|valueOf|), valueOf)
    requires Sorted(d.removed, moved, Sources(valueOf, moved))
    requires Sorted(d.added, moved, Targets(valueOf, moved, draws, values))
    ensures (row in d.base[v] && row !in d.removed[v]) || row in d.added[v]
       <==> row < |valueOf| && NewValueOf(valueOf, moved, Targets(valueOf, moved, draws, values), row) == v
  {
    var sources, targets := Sources(valueOf, moved), Targets(valueOf, moved, draws, values);
    assert IsListing(d.base[v], OwnedBy(Rows(|valueOf|), valueOf, v));
    assert IsListing(d.removed[v], OwnedBy(moved, sources, v));
    assert IsListing(d.added[v], OwnedBy(moved, targets, v));
    assert row in d.base[v] <==> row in ValuesOf(d.base[v]);
    assert row in d.removed[v] <==> row in ValuesOf(d.removed[v]);
    assert row in d.added[v] <==> row in ValuesOf(d.added[v]);
    hide IsListing, OwnedBy, ValuesOf, Sorted;
    if row < |valueOf| {
      InOwnedBy(Rows(|valueOf|), valueOf, row);
    } else {
      NotOwned(Rows(|valueOf|), valueOf, row);
    }
    if row in moved {
      var i :| 0 <= i < |moved| && moved[i] == row;
      InOwnedBy(moved, sources, i);
      InOwnedBy(moved, targets, i);
      TargetIsUnique(moved, targets, i);
    } else {
      NotOwned(moved, sources, row);
      NotOwned(moved, targets, row);
    }
  }

  lemma TargetIsUnique(moved: seq<nat>, targets: seq<nat>, i: nat)
    requires StrictlyAscending(moved) && |targets| == |moved| && i < |moved|
    ensures TargetAt(moved, targets, moved[i]) == targets[i]
  {
    assert forall j :: 0 <= j < |moved| && moved[j] == moved[i] ==> !(i < j) && !(j < i);
  }

  /** The rows of the first n whose value is v. */
  ghost function Fibre(f: seq<nat>, v: nat, n: nat): set<nat>
    requires n <= |f|
  {
    set row | row in Range(0, n) && f[row] == v
  }

  /** The sum of the fibre sizes of the values below k. */
  ghost function SumOfFibres(f: seq<nat>, k: nat, n: nat): nat
    requires n <= |f|
  {
    if k == 0 then 0 else SumOfFibres(f, k - 1, n) + |Fibre(f, k - 1, n)|
  }

  lemma FibreOfNext(f: seq<nat>, v: nat, n: nat)
    requires n < |f|
    ensures |Fibre(f, v, n + 1)| == |Fibre(f, v, n)| + if f[n] == v then 1 else 0
  {
    hide Range;
    var before, after := Fibre(f, v, n), Fibre(f, v, n + 1);
    assert n !in before;
    assert after == if f[n] == v then before + {n} else before;
  }

  lemma {:induction false} SumOfFibresOfNext(f: seq<nat>, k: nat, n: nat)
    requires n < |f|
    ensures SumOfFibres(f, k, n + 1) == SumOfFibres(f, k, n) + if f[n] < k then 1 else 0
  {
    hide Fibre;
    if k > 0 {
      SumOfFibresOfNext(f, k - 1, n);
      FibreOfNext(f, k - 1, n);
    }
  }

  /** The fibres of n rows share the rows out. */
  lemma {:induction false} FibresAddUp(f: seq<nat>, values: nat, n: nat)
    requires n <= |f| && AllBelow(f, values)
    ensures SumOfFibres(f, values, n) == n
  {
    if n == 0 {
      EmptyFibres(f, values);
    } else {
      FibresAddUp(f, values, n - 1);
      SumOfFibresOfNext(f, values, n - 1);
    }
  }

  lemma {:induction false} EmptyFibres(f: seq<nat>, k: nat)
    ensures SumOfFibres(f, k, 0) == 0
  {
    if k > 0 {
      EmptyFibres(f, k - 1);
    }
  }

  /** The value of every row after the batch, as a list. */
  ghost function NewValues(valueOf: seq<nat>, moved: seq<nat>, targets: seq<nat>): (r: seq<nat>)
    requires |targets| == |moved|
    ensures |r| == |valueOf|
  {
    seq(|valueOf|, row requires 0 <= row < |valueOf| => NewValueOf(valueOf, moved, targets, row))
  }

  /** After the batch every row still has one of the values, so the new fibres share the rows out too. */
  lemma UpdatedFibresAddUp(values: nat, valueOf: seq<nat>, moved: seq<nat>, draws: seq<nat>)
    requires 2 <= values && AllBelow(valueOf, values) && |draws| == |moved|
    requires StrictlyAscending(moved) && AllBelow(moved, |valueOf|)
    ensures SumOfFibres(NewValues(valueOf, moved, Targets(valueOf, moved, draws, values)), values, |valueOf|) == |valueOf|
  {
    var targets := Targets(valueOf, moved, draws, values);
    var f := NewValues(valueOf, moved, targets);
    forall row | 0 <= row < |f| ensures f[row] < values {
      if row in moved {
        var i :| 0 <= i < |moved| && moved[i] == row;
        TargetIsUnique(moved, targets, i);
      }
    }
    FibresAddUp(f, values, |valueOf|);
  }

  // ---- on the tables -----------------------------------------------------------------------------

  /** One value's table: built from its rows and counted, then the batch's removals and additions, and counted
      again. */
  method UpdatedTable(base: seq<nat>, removed: seq<nat>, added: seq<nat>) returns (t: Table, before: nat, after: nat)
    requires StrictlyAscending(base) && StrictlyAscending(removed) && StrictlyAscending(added)
    requires AllBelow(base, KEY_LIMIT) && AllBelow(removed, KEY_LIMIT) && AllBelow(added, KEY_LIMIT)
    ensures t.Valid() && fresh(t)
    ensures forall row: nat :: t.Holds(row) <==> (row in base && row !in removed) || row in added
    ensures before == |ValuesOf(base)|
    ensures after == |ValuesOf(base) - ValuesOf(removed) + ValuesOf(added)|
  {
    hide HasLow, ValidTable, Chunk, Low, StoresWell, InShape;
    t := new Table();
    assert t.keys == [];
    assert Ascending(base) && Ascending(removed) && Ascending(added);
    hide Ascending;
    StrictStoresWell(base, t.keys, 1024);
    t.AppendSorted(base, 1024);
    before := t.Cardinality();
    assert t.Held() == ValuesOf(base);
    t.RemoveSorted(removed);
    StrictStoresWell(added, t.keys, DEFAULT_MAX_SIZE);
    t.AddSorted(added);
    after := t.Cardinality();
    assert t.Held() == ValuesOf(base) - ValuesOf(removed) + ValuesOf(added);
  }

  /** What the tables of value v hold before and after are its rows before and after. */
  lemma HeldAreFibres(values: nat, valueOf: seq<nat>, moved: seq<nat>, draws: seq<nat>, d: UpdateData, v: nat)
    requires 2 <= values && AllBelow(valueOf, values) && |draws| == |moved| && v < values
    requires StrictlyAscending(moved) && AllBelow(moved, |valueOf|)
    requires |d.base| == |d.removed| == |d.added| == values
    requires Sorted(d.base, Rows(|valueOf|), valueOf)
    requires Sorted(d.removed, moved, Sources(valueOf, moved))
    requires Sorted(d.added, moved, Targets(valueOf, moved, draws, values))
    ensures ValuesOf(d.base[v]) == Fibre(valueOf, v, |valueOf|)
    ensures ValuesOf(d.base[v]) - ValuesOf(d.removed[v]) + ValuesOf(d.added[v])
         == Fibre(NewValues(valueOf, moved, Targets(valueOf, moved, draws, values)), v, |valueOf|)
  {
    hide Range, NewValueOf, Targets, Sources;
    forall row: nat ensures row in d.base[v] <==> row < |valueOf| && valueOf[row] == v {
      if row < |valueOf| {
        InOwnedBy(Rows(|valueOf|), valueOf, row);
      } else {
        NotOwned(Rows(|valueOf|), valueOf, row);
      }
      assert row in ValuesOf(d.base[v]) <==> row in OwnedBy(Rows(|valueOf|), valueOf, v);
    }
    forall row: nat ensures (row in d.base[v] && row !in d.removed[v]) || row in d.added[v]
       <==> row < |valueOf| && NewValueOf(valueOf, moved, Targets(valueOf, moved, draws, values), row) == v {
      BatchMovesRows(values, valueOf, moved, draws, d, v, row);
    }
    hide Sorted;
  }

  /** The table is in order and holds exactly the rows whose value is v. */
  ghost predicate HoldsRowsOf(t: Table, f: seq<nat>, v: nat)
    reads t
  {
    t.Valid() && forall row: nat :: t.Holds(row) <==> row < |f| && f[row] == v
  }

  /** Value v's turn: its table holds its new rows, and the two counts are the sizes of its fibres. */
  method UpdatedValue(values: nat, valueOf: seq<nat>, moved: seq<nat>, draws: seq<nat>, d: UpdateData, v: nat)
    returns (t: Table, before: nat, after: nat)
    requires 2 <= values && AllBelow(valueOf, values) && |valueOf| <= KEY_LIMIT && v < values
    requires StrictlyAscending(moved) && AllBelow(moved, |valueOf|) && |draws| == |moved|
    requires |d.base| == |d.removed| == |d.added| == values
    requires Sorted(d.base, Rows(|valueOf|), valueOf)
    requires Sorted(d.removed, moved, Sources(valueOf, moved))
    requires Sorted(d.added, moved, Targets(valueOf, moved, draws, values))
    ensures fresh(t) && HoldsRowsOf(t, NewValues(valueOf, moved, Targets(valueOf, moved, draws, values)), v)
    ensures before == |Fibre(valueOf, v, |valueOf|)|
    ensures after == |Fibre(NewValues(valueOf, moved, Targets(valueOf, moved, draws, values)), v, |valueOf|)|
  {
    hide HasLow, ValidTable, Chunk, Low, Sorted, NewValueOf, Sources, Targets, Rows, Fibre;
    ListsAreRows(values, valueOf, moved, draws, d, v);
    HeldAreFibres(values, valueOf, moved, draws, d, v);
    t, before, after := UpdatedTable(d.base[v], d.removed[v], d.added[v]);
    forall row: nat ensures t.Holds(row)
       <==> row < |valueOf| && NewValueOf(valueOf, moved, Targets(valueOf, moved, draws, values), row) == v {
      BatchMovesRows(values, valueOf, moved, draws, d, v, row);
    }
  }

  /** The tables of all values, and their counts added up. */
  method UpdatedTables(values: nat, valueOf: seq<nat>, moved: seq<nat>, draws: seq<nat>)
    returns (tables: seq<Table>, heldBefore: nat, heldAfter: nat)
    requires 2 <= values && AllBelow(valueOf, values) && |valueOf| <= KEY_LIMIT
    requires StrictlyAscending(moved) && AllBelow(moved, |valueOf|) && |draws| == |moved|
    ensures |tables| == values
    ensures forall v :: 0 <= v < values ==> HoldsRowsOf(tables[v], NewValues(valueOf, moved, Targets(valueOf, moved, draws, values)), v)
    ensures heldBefore == SumOfFibres(valueOf, values, |valueOf|)
    ensures heldAfter == SumOfFibres(NewValues(valueOf, moved, Targets(valueOf, moved, draws, values)), values, |valueOf|)
  {
    hide HasLow, ValidTable, Chunk, Low, Sorted, Sources, Targets, Rows, Fibre, NewValues;
    var d := BuildUpdate(values, valueOf, moved, draws);
    ghost var newValues := NewValues(valueOf, moved, Targets(valueOf, moved, draws, values));
    tables, heldBefore, heldAfter := [], 0, 0;
    for v := 0 to values
      invariant |tables| == v && forall u :: 0 <= u < v ==> HoldsRowsOf(tables[u], newValues, u)
      invariant heldBefore == SumOfFibres(valueOf, v, |valueOf|) && heldAfter == SumOfFibres(newValues, v, |valueOf|)
    {
      var t, before, after := UpdatedValue(values, valueOf, moved, draws, d, v);
      tables, heldBefore, heldAfter := tables + [t], heldBefore + before, heldAfter + after;
    }
  }

  /** The whole index: every row is held by exactly one value's table, the one it moved to, and the counts of
      the tables add up to the row count, before the batch and after it. */
  method UpdatedIndex(values: nat, valueOf: seq<nat>, moved: seq<nat>, draws: seq<nat>)
    returns (tables: seq<Table>, heldBefore: nat, heldAfter: nat)
    requires 2 <= values && AllBelow(valueOf, values) && |valueOf| <= KEY_LIMIT
    requires StrictlyAscending(moved) && AllBelow(moved, |valueOf|) && |draws| == |moved|
    ensures |tables| == values && forall v :: 0 <= v < values ==> tables[v].Valid()
    ensures forall v, row: nat :: 0 <= v < values ==> (tables[v].Holds(row)
         <==> row < |valueOf| && NewValueOf(valueOf, moved, Targets(valueOf, moved, draws, values), row) == v)
    ensures forall i :: 0 <= i < |moved| ==>
              var to := (valueOf[moved[i]] + 1 + draws[i] % (values - 1)) % values;
              to < values && to != valueOf[moved[i]] && tables[to].Holds(moved[i])
    ensures forall row :: 0 <= row < |valueOf| && row !in moved ==> tables[valueOf[row]].Holds(row)
    ensures heldBefore == heldAfter == |valueOf|
  {
    hide HasLow, ValidTable, Chunk, Low, Sources, Targets, Fibre;
    tables, heldBefore, heldAfter := UpdatedTables(values, valueOf, moved, draws);
    forall i | 0 <= i < |moved|
      ensures var to := (valueOf[moved[i]] + 1 + draws[i] % (values - 1)) % values;
              to < values && to != valueOf[moved[i]] && tables[to].Holds(moved[i]) {
      TargetsAreModular(valueOf, moved, draws, values, i);
      TargetIsUnique(moved, Targets(valueOf, moved, draws, values), i);
    }
    FibresAddUp(valueOf, values, |valueOf|);
    UpdatedFibresAddUp(values, valueOf, moved, draws);
  }

  lemma ListsAreRows(values: nat, valueOf: seq<nat>, moved: seq<nat>, draws: seq<nat>, d: UpdateData, v: nat)
    requires 2 <= values && AllBelow(valueOf, values) && |valueOf| <= KEY_LIMIT && v < values
    requires StrictlyAscending(moved) && AllBelow(moved, |valueOf|) && |draws| == |moved|
    requires |d.base| == |d.removed| == |d.added| == values
    requires Sorted(d.base, Rows(|valueOf|), valueOf)
    requires Sorted(d.removed, moved, Sources(valueOf, moved))
    requires Sorted(d.added, moved, Targets(valueOf, moved, draws, values))
    ensures StrictlyAscending(d.base[v]) && StrictlyAscending(d.removed[v]) && StrictlyAscending(d.added[v])
    ensures AllBelow(d.base[v], KEY_LIMIT) && AllBelow(d.removed[v], KEY_LIMIT) && AllBelow(d.added[v], KEY_LIMIT)
  {
    OwnedListIsBelow(d.base[v], Rows(|valueOf|), valueOf, v, |valueOf|);
    OwnedListIsBelow(d.removed[v], moved, Sources(valueOf, moved), v, |valueOf|);
    OwnedListIsBelow(d.added[v], moved, Targets(valueOf, moved, draws, values), v, |valueOf|);
  }

  lemma OwnedListIsBelow(list: seq<nat>, rows: seq<nat>, owners: seq<nat>, v: nat, limit: nat)
    requires |rows| == |owners| && IsListing(list, OwnedBy(rows, owners, v)) && AllBelow(rows, limit)
    ensures AllBelow(list, limit)
  {
    assert forall i :: 0 <= i < |list| ==> list[i] in ValuesOf(list);
  }
}
