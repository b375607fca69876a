/** The table's split of a value is the 32-bit key layout, and walking a table lists what it holds. */
module TableWalk {
  import opened Word64
  import opened WordSets
  import opened Listing
  import opened Runs
  import opened ChunkContainers
  import opened ChunkTable
  import opened KeyLayout

  lemma ThirtyTwoBits()
    ensures Power2(16) == LOW_DOMAIN && LowDomainSize(32) == LOW_DOMAIN && ChunkCount(32) == LOW_DOMAIN && Power2(32) == KEY_LIMIT
  {
    SixteenBits();
    Power2Sum(16, 16);
  }

  /** Chunk and Low are the layout's parts of a 32-bit key, and a lifted low is the composed key. */
  lemma SplitIsLayout(v: nat, key: nat, low: nat)
    ensures Chunk(v) == ChunkKey(32, v) && Low(v) == LowKey(32, v)
    ensures 0x1_0000 * key + low == Compose(32, key, low)
  {
    ThirtyTwoBits();
    hide Power2;
  }

  /** Some list of every set of small numbers. */
  lemma {:induction false} ListingBelow(s: set<nat>, limit: nat) returns (list: seq<nat>)
    ensures IsListing(list, Under(s, limit))
  {
    if limit == 0 {
      list := [];
    } else {
      list := ListingBelow(s, limit - 1);
      assert forall i :: 0 <= i < |list| ==> list[i] in ValuesOf(list);
      if limit - 1 in s {
        AppendGreater(list, Under(s, limit - 1), limit - 1);
        assert Under(s, limit) == Under(s, limit - 1) + {limit - 1};
        list := list + [limit - 1];
      } else {
        assert Under(s, limit) == Under(s, limit - 1);
      }
    }
  }

  /** The lows of every chunk, each listed in order. */
  ghost predicate ListsLows(containers: seq<Container>, lows: seq<seq<nat>>) {
    |lows| == |containers| && forall i :: 0 <= i < |lows| ==> IsListing(lows[i], Lows(containers[i]))
  }

  lemma ChunkOfWalk(key: nat, lows: seq<nat>, s: set<nat>)
    requires ValuesOf(lows) == s
    ensures ValuesOf(WalkChunk(32, key, lows)) == Lift(key, s)
  {
    hide Compose;
    var walk := WalkChunk(32, key, lows);
    forall v: nat ensures v in ValuesOf(walk) <==> v in Lift(key, s) {
      if v in ValuesOf(walk) {
        var i :| 0 <= i < |walk| && walk[i] == v;
        SplitIsLayout(v, key, lows[i]);
        assert lows[i] in s;
      }
      if v in Lift(key, s) {
        var l :| l in s && v == 0x1_0000 * key + l;
        assert l in ValuesOf(lows);
        var i :| 0 <= i < |lows| && lows[i] == l;
        SplitIsLayout(v, key, l);
        assert walk[i] == v;
      }
    }
  }

  lemma {:induction false} ValuesOfWalk(keys: seq<nat>, containers: seq<Container>, lows: seq<seq<nat>>)
    requires |keys| == |containers| && ListsLows(containers, lows)
    ensures ValuesOf(Walk(32, keys, lows)) == HeldValues(keys, containers)
  {
    hide Lows, Lift, WalkChunk, IsListing;
    if keys != [] {
      var n := |keys| - 1;
      ValuesOfWalk(keys[..n], containers[..n], lows[..n]);
      assert ValuesOf(lows[n]) == Lows(containers[n]) by {
        ListingMeans(lows[n], Lows(containers[n]));
      }
      ChunkOfWalk(keys[n], lows[n], Lows(containers[n]));
      ValuesOfConcat(Walk(32, keys[..n], lows[..n]), WalkChunk(32, keys[n], lows[n]));
    }
  }

  lemma ListingMeans(list: seq<nat>, s: set<nat>)
    requires IsListing(list, s)
    ensures StrictlyAscending(list) && ValuesOf(list) == s
  {
  }

  /** Walking the chunks of a valid table in order, and the lows of each in order, lists exactly the values
      the table holds in strictly ascending order. */
  lemma WalkListsTheTable(keys: seq<nat>, containers: seq<Container>, lows: seq<seq<nat>>)
    requires ValidTable(keys, containers) && ListsLows(containers, lows)
    ensures IsListing(Walk(32, keys, lows), HeldValues(keys, containers))
    ensures forall v: nat :: v in Walk(32, keys, lows) <==> HasLow(keys, containers, Chunk(v), Low(v))
  {
    hide Lows, HasLow, Chunk, Low, HeldValues, Walk, Sound;
    ThirtyTwoBits();
    forall c | 0 <= c < |lows| ensures StrictlyAscending(lows[c]) && AllBelow(lows[c], LOW_DOMAIN) {
      LowsAreBelow(containers[c]);
      ListingMeans(lows[c], Lows(containers[c]));
      assert forall i :: 0 <= i < |lows[c]| ==> lows[c][i] in ValuesOf(lows[c]);
    }
    WalkIsInOrder(32, keys, lows);
    ValuesOfWalk(keys, containers, lows);
    forall v: nat ensures v in Walk(32, keys, lows) <==> HasLow(keys, containers, Chunk(v), Low(v)) {
      HeldMeans(keys, containers, v);
      assert v in ValuesOf(Walk(32, keys, lows)) <==> v in Walk(32, keys, lows);
    }
  }

  /** Every valid table has such a walk. */
  lemma LowsCanBeListed(keys: seq<nat>, containers: seq<Container>) returns (lows: seq<seq<nat>>)
    requires ValidTable(keys, containers)
    ensures ListsLows(containers, lows)
  {
    hide Lows, Sound;
    lows := [];
    for i := 0 to |containers|
      invariant |lows| == i && forall j :: 0 <= j < i ==> IsListing(lows[j], Lows(containers[j]))
    {
      var list := ListingBelow(Lows(containers[i]), LOW_DOMAIN);
      LowsAreBelow(containers[i]);
      assert Under(Lows(containers[i]), LOW_DOMAIN) == Lows(containers[i]);
      lows := lows + [list];
    }
  }
}
