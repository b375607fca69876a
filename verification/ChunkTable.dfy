/** The two-level table of a reference bitmap as a list of (chunk key, container) entries: what it holds, and
    what replacing, removing or inserting one entry does to it. */
module ChunkTable {
  import opened Word64
  import opened WordSets
  import opened Listing
  import opened Runs
  import opened ChunkContainers

  const KEY_LIMIT: nat := 0x1_0000_0000

  /** value >> 16 and value & 0xFFFF. */
  function Chunk(v: nat): (k: nat)
    ensures 0x1_0000 * k <= v < 0x1_0000 * k + 0x1_0000
    ensures v < KEY_LIMIT ==> k < LOW_DOMAIN
  {
    v / 0x1_0000
  }

  function Low(v: nat): (l: nat)
    ensures l < LOW_DOMAIN && v == 0x1_0000 * Chunk(v) + l
  {
    v % 0x1_0000
  }

  lemma ChunkAndLow(k: nat, l: nat)
    requires l < LOW_DOMAIN
    ensures Chunk(0x1_0000 * k + l) == k && Low(0x1_0000 * k + l) == l
  {
    hide Chunk, Low;
  }

  /** The low parts of a list of values. */
  function LowsOf(values: seq<nat>): (lows: seq<nat>)
    ensures |lows| == |values|
  {
    seq(|values|, i requires 0 <= i < |values| => Low(values[i]))
  }

  /** Whether the table holds value (key, low). */
  ghost predicate HasLow(keys: seq<nat>, containers: seq<Container>, key: nat, low: nat)
  {
    exists i :: 0 <= i < |keys| && i < |containers| && keys[i] == key && low in Lows(containers[i])
  }

  /** One container a key, the keys in order. */
  ghost predicate InShape(keys: seq<nat>, containers: seq<Container>) {
    |keys| == |containers| && StrictlyAscending(keys) && AllBelow(keys, LOW_DOMAIN)
  }

  /** The key's container, if there is one, is well formed. */
  ghost predicate WellAt(keys: seq<nat>, containers: seq<Container>, key: nat) {
    forall i :: 0 <= i < |keys| && i < |containers| && keys[i] == key ==> WellFormed(containers[i])
  }

  ghost predicate ValidTable(keys: seq<nat>, containers: seq<Container>) {
    InShape(keys, containers) && forall i :: 0 <= i < |containers| ==> WellFormed(containers[i])
  }

  lemma ValidByKey(keys: seq<nat>, containers: seq<Container>)
    requires InShape(keys, containers)
    ensures ValidTable(keys, containers) <==> forall k :: WellAt(keys, containers, k)
  {
    hide WellFormed;
    if forall k :: WellAt(keys, containers, k) {
      forall i | 0 <= i < |containers| ensures WellFormed(containers[i]) {
        assert WellAt(keys, containers, keys[i]);
      }
    }
  }

  // ---- what one chunk's change does to the table --------------------------------------------------

  lemma HasLowAt(keys: seq<nat>, containers: seq<Container>, pos: nat, low: nat)
    requires InShape(keys, containers) && pos < |keys|
    ensures HasLow(keys, containers, keys[pos], low) <==> low in Lows(containers[pos])
  {
    hide Lows, WellFormed;
  }

  lemma ReplaceChunk(keys: seq<nat>, containers: seq<Container>, pos: nat, c: Container)
    requires InShape(keys, containers) && pos < |keys|
    ensures InShape(keys, containers[pos := c])
    ensures forall k :: WellAt(keys, containers[pos := c], k) <==> if k == keys[pos] then WellFormed(c) else WellAt(keys, containers, k)
    ensures forall k, l :: HasLow(keys, containers[pos := c], k, l)
                      <==> if k == keys[pos] then l in Lows(c) else HasLow(keys, containers, k, l)
  {
    hide Lows, WellFormed;
    var after := containers[pos := c];
    forall k ensures WellAt(keys, after, k) <==> if k == keys[pos] then WellFormed(c) else WellAt(keys, containers, k) {
      assert k != keys[pos] ==> forall i :: 0 <= i < |keys| && keys[i] == k ==> after[i] == containers[i];
      assert k == keys[pos] ==> after[pos] == c;
    }
    forall k, l ensures HasLow(keys, after, k, l) <==> if k == keys[pos] then l in Lows(c) else HasLow(keys, containers, k, l) {
      if k == keys[pos] {
        HasLowAt(keys, after, pos, l);
      } else if HasLow(keys, containers, k, l) {
        var i :| 0 <= i < |keys| && keys[i] == k && l in Lows(containers[i]);
        assert after[i] == containers[i];
      }
    }
  }

  /** `after` holds the entries of `before` other than those of `key`. */
  lemma OtherChunks(keys: seq<nat>, containers: seq<Container>, keys': seq<nat>, containers': seq<Container>, pos: nat, gap: nat, k: nat, l: nat)
    requires |keys| == |containers| && |keys'| == |containers'| && gap <= 1 && pos <= |keys'|
    requires |keys| == |keys'| + gap
    requires forall i :: 0 <= i < |keys'| ==> var j := if i < pos then i else i + gap;
               keys'[i] == keys[j] && containers'[i] == containers[j]
    requires forall i :: pos <= i < pos + gap ==> keys[i] != k
    ensures HasLow(keys', containers', k, l) <==> HasLow(keys, containers, k, l)
  {
    hide Lows;
    if HasLow(keys', containers', k, l) {
      var i :| 0 <= i < |keys'| && keys'[i] == k && l in Lows(containers'[i]);
      var j := if i < pos then i else i + gap;
      assert keys[j] == k && containers[j] == containers'[i];
    }
    if HasLow(keys, containers, k, l) {
      var j :| 0 <= j < |keys| && keys[j] == k && l in Lows(containers[j]);
      var i := if j < pos then j else j - gap;
      assert keys'[i] == k && containers'[i] == containers[j];
    }
  }

  lemma RemoveChunk(keys: seq<nat>, containers: seq<Container>, pos: nat)
    requires ValidTable(keys, containers) && pos < |keys|
    ensures ValidTable(keys[..pos] + keys[pos + 1..], containers[..pos] + containers[pos + 1..])
    ensures forall k, l :: HasLow(keys[..pos] + keys[pos + 1..], containers[..pos] + containers[pos + 1..], k, l)
                      <==> k != keys[pos] && HasLow(keys, containers, k, l)
  {
    hide Lows, WellFormed;
    var keys', containers' := keys[..pos] + keys[pos + 1..], containers[..pos] + containers[pos + 1..];
    assert forall i :: 0 <= i < |keys'| ==> var j := if i < pos then i else i + 1; keys'[i] == keys[j] && containers'[i] == containers[j];
    assert forall i :: 0 <= i < |keys'| ==> keys'[i] != keys[pos];
    hide HasLow;
    forall k, l ensures HasLow(keys', containers', k, l) <==> k != keys[pos] && HasLow(keys, containers, k, l) {
      if k != keys[pos] {
        OtherChunks(keys, containers, keys', containers', pos, 1, k, l);
      } else {
        NoSuchKey(keys', containers', k, l);
      }
    }
  }

  lemma NoSuchKey(keys: seq<nat>, containers: seq<Container>, k: nat, l: nat)
    requires forall i :: 0 <= i < |keys| ==> keys[i] != k
    ensures !HasLow(keys, containers, k, l)
  {
  }

  lemma InsertKeepsShape(keys: seq<nat>, containers: seq<Container>, pos: nat, key: nat, c: Container)
    requires InShape(keys, containers) && pos <= |keys| && key < LOW_DOMAIN
    requires forall i :: 0 <= i < |keys| ==> if i < pos then keys[i] < key else key < keys[i]
    ensures InShape(keys[..pos] + [key] + keys[pos..], containers[..pos] + [c] + containers[pos..])
  {
  }

  lemma InsertChunk(keys: seq<nat>, containers: seq<Container>, pos: nat, key: nat, c: Container)
    requires InShape(keys, containers) && pos <= |keys| && key < LOW_DOMAIN
    requires forall i :: 0 <= i < |keys| ==> if i < pos then keys[i] < key else key < keys[i]
    ensures InShape(keys[..pos] + [key] + keys[pos..], containers[..pos] + [c] + containers[pos..])
    ensures forall k :: WellAt(keys[..pos] + [key] + keys[pos..], containers[..pos] + [c] + containers[pos..], k)
                   <==> if k == key then WellFormed(c) else WellAt(keys, containers, k)
    ensures forall k, l :: HasLow(keys[..pos] + [key] + keys[pos..], containers[..pos] + [c] + containers[pos..], k, l)
                      <==> if k == key then l in Lows(c) else HasLow(keys, containers, k, l)
    ensures forall l :: !HasLow(keys, containers, key, l)
  {
    hide Lows, WellFormed, HasLow, WellAt;
    var keys', containers' := keys[..pos] + [key] + keys[pos..], containers[..pos] + [c] + containers[pos..];
    InsertKeepsShape(keys, containers, pos, key, c);
    assert Inserted(keys, containers, keys', containers', pos);
    forall k ensures WellAt(keys', containers', k) <==> if k == key then WellFormed(c) else WellAt(keys, containers, k) {
      WellAfterInsert(keys, containers, keys', containers', pos, k);
    }
    forall k, l ensures HasLow(keys', containers', k, l) <==> if k == key then l in Lows(c) else HasLow(keys, containers, k, l) {
      HeldAfterInsert(keys, containers, keys', containers', pos, k, l);
    }
    forall l ensures !HasLow(keys, containers, key, l) {
      NoSuchKey(keys, containers, key, l);
    }
  }

  /** The second table is the first with one more entry at pos. */
  ghost predicate Inserted(keys: seq<nat>, containers: seq<Container>, keys': seq<nat>, containers': seq<Container>, pos: nat) {
    && |keys| == |containers| && |keys'| == |containers'| == |keys| + 1 && pos <= |keys|
    && forall i :: 0 <= i < |keys| ==> var j := if i < pos then i else i + 1; keys[i] == keys'[j] && containers[i] == containers'[j]
  }

  lemma HeldAfterInsert(keys: seq<nat>, containers: seq<Container>, keys': seq<nat>, containers': seq<Container>, pos: nat, k: nat, l: nat)
    requires Inserted(keys, containers, keys', containers', pos) && InShape(keys', containers')
    ensures HasLow(keys', containers', k, l) <==> if k == keys'[pos] then l in Lows(containers'[pos]) else HasLow(keys, containers, k, l)
  {
    hide HasLow, Lows;
    if k == keys'[pos] {
      HasLowAt(keys', containers', pos, l);
    } else {
      OtherChunks(keys', containers', keys, containers, pos, 1, k, l);
    }
  }

  lemma WellAfterInsert(keys: seq<nat>, containers: seq<Container>, keys': seq<nat>, containers': seq<Container>, pos: nat, k: nat)
    requires Inserted(keys, containers, keys', containers', pos) && InShape(keys', containers')
    ensures WellAt(keys', containers', k) <==> if k == keys'[pos] then WellFormed(containers'[pos]) else WellAt(keys, containers, k)
  {
    hide WellFormed;
    if k != keys'[pos] && WellAt(keys, containers, k) {
      forall j | 0 <= j < |keys'| && keys'[j] == k ensures WellFormed(containers'[j]) {
        var i := if j < pos then j else j - 1;
        assert keys[i] == keys'[j] && containers[i] == containers'[j];
      }
    }
  }

  // ---- the values of a table ---------------------------------------------------------------------

  /** The values of one chunk: its lows behind its key. */
  function Lift(key: nat, lows: set<nat>): set<nat> {
    set l | l in lows :: 0x1_0000 * key + l
  }

  lemma {:induction false} LiftCard(key: nat, lows: set<nat>)
    ensures |Lift(key, lows)| == |lows|
  {
    if lows != {} {
      var l :| l in lows;
      LiftCard(key, lows - {l});
      var rest, v := Lift(key, lows - {l}), 0x1_0000 * key + l;
      forall u: nat ensures u in Lift(key, lows) <==> u in rest + {v} {
        if u in Lift(key, lows) && u != v {
          var m :| m in lows && u == 0x1_0000 * key + m;
          assert m in lows - {l};
        }
      }
      assert v !in rest;
      assert Lift(key, lows) == rest + {v};
    } else {
      assert Lift(key, lows) == {};
    }
  }

  lemma LiftHolds(key: nat, lows: set<nat>, v: nat)
    requires forall l :: l in lows ==> l < LOW_DOMAIN
    ensures v in Lift(key, lows) <==> Chunk(v) == key && Low(v) in lows
  {
    if v in Lift(key, lows) {
      var l :| l in lows && v == 0x1_0000 * key + l;
      ChunkAndLow(key, l);
    }
    hide Chunk, Low;
    if Chunk(v) == key && Low(v) in lows {
      assert v == 0x1_0000 * key + Low(v);
    }
  }

  /** The values of the table, chunk by chunk. */
  ghost function HeldValues(keys: seq<nat>, containers: seq<Container>): set<nat>
    requires |keys| == |containers|
  {
    if keys == [] then {}
    else
      var n := |keys| - 1;
      HeldValues(keys[..n], containers[..n]) + Lift(keys[n], Lows(containers[n]))
  }

  lemma LowsAreBelow(c: Container)
    requires Sound(c)
    ensures forall l :: l in Lows(c) ==> l < LOW_DOMAIN
  {
    hide Range, Bits, Has;
  }

  lemma {:induction false} HeldMeans(keys: seq<nat>, containers: seq<Container>, v: nat)
    requires ValidTable(keys, containers)
    ensures v in HeldValues(keys, containers) <==> HasLow(keys, containers, Chunk(v), Low(v))
  {
    hide Chunk, Low, Lows, Sound;
    if keys != [] {
      var n := |keys| - 1;
      HeldMeans(keys[..n], containers[..n], v);
      LowsAreBelow(containers[n]);
      LiftHolds(keys[n], Lows(containers[n]), v);
      HasLowOfNext(keys, containers, n, Chunk(v), Low(v));
    }
  }

  lemma HasLowOfNext(keys: seq<nat>, containers: seq<Container>, n: nat, k: nat, l: nat)
    requires |keys| == |containers| == n + 1
    ensures HasLow(keys, containers, k, l) <==> HasLow(keys[..n], containers[..n], k, l) || (keys[n] == k && l in Lows(containers[n]))
  {
    hide Lows;
    if HasLow(keys[..n], containers[..n], k, l) {
      var i :| 0 <= i < n && keys[..n][i] == k && l in Lows(containers[..n][i]);
      assert keys[i] == k && containers[i] == containers[..n][i];
    }
    if HasLow(keys, containers, k, l) {
      var i :| 0 <= i < |keys| && keys[i] == k && l in Lows(containers[i]);
      if i < n {
        assert keys[..n][i] == k && containers[..n][i] == containers[i];
      }
    }
  }

  /** The next chunk adds as many values as its container has: no earlier chunk holds any of them. */
  lemma HeldOfNext(keys: seq<nat>, containers: seq<Container>, i: nat)
    requires ValidTable(keys, containers) && i < |keys|
    ensures ValidTable(keys[..i], containers[..i])
    ensures |HeldValues(keys[..i + 1], containers[..i + 1])| == |HeldValues(keys[..i], containers[..i])| + |Lows(containers[i])|
  {
    hide Chunk, Low, Lows, Sound;
    var before, next := HeldValues(keys[..i], containers[..i]), Lift(keys[i], Lows(containers[i]));
    assert keys[..i + 1][..i] == keys[..i] && containers[..i + 1][..i] == containers[..i];
    assert HeldValues(keys[..i + 1], containers[..i + 1]) == before + next;
    assert ValidTable(keys[..i], containers[..i]);
    LowsAreBelow(containers[i]);
    hide HeldValues, Lift;
    forall v: nat | v in next ensures v !in before {
      LiftHolds(keys[i], Lows(containers[i]), v);
      HeldMeans(keys[..i], containers[..i], v);
      NoSuchKey(keys[..i], containers[..i], keys[i], Low(v));
    }
    LiftCard(keys[i], Lows(containers[i]));
  }
}
