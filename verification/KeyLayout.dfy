/** The split of a key into a chunk and a low part, for every key width. */
module KeyLayout {
  import opened Listing

  /** 2^n. */
  function Power2(n: nat): (r: nat)
    ensures r > 0
  {
    if n == 0 then 1 else 2 * Power2(n - 1)
  }

  lemma {:induction false} Power2Sum(a: nat, b: nat)
    ensures Power2(a + b) == Power2(a) * Power2(b)
  {
    if a > 0 {
      Power2Sum(a - 1, b);
      assert 2 * (Power2(a - 1) * Power2(b)) == 2 * Power2(a - 1) * Power2(b);
    }
  }

  // ---- quotient and remainder --------------------------------------------------------------------

  function Times(q: nat, m: nat): (r: nat) {
    q * m
  }

  function Quotient(v: nat, m: nat): (q: nat)
    requires m > 0
  {
    v / m
  }

  function Remainder(v: nat, m: nat): (r: nat)
    requires m > 0
    ensures r < m
  {
    v % m
  }

  lemma Division(v: nat, m: nat)
    requires m > 0
    ensures v == Times(Quotient(v, m), m) + Remainder(v, m)
  {
  }

  lemma TimesGrows(a: nat, b: nat, m: nat)
    requires a < b
    ensures Times(a, m) + m <= Times(b, m)
  {
    var d := b - a - 1;
    assert b * m == a * m + m + d * m;
    assert d * m >= 0;
  }

  /** Quotient and remainder order numbers lexicographically. */
  lemma LexicographicOrder(m: nat, q1: nat, r1: nat, q2: nat, r2: nat)
    requires r1 < m && r2 < m
    ensures Times(q1, m) + r1 < Times(q2, m) + r2 <==> q1 < q2 || (q1 == q2 && r1 < r2)
    ensures Times(q1, m) + r1 == Times(q2, m) + r2 <==> q1 == q2 && r1 == r2
  {
    hide Times;
    if q1 < q2 {
      TimesGrows(q1, q2, m);
    } else if q2 < q1 {
      TimesGrows(q2, q1, m);
    }
  }

  lemma QuotientBelow(v: nat, m: nat, n: nat)
    requires m > 0 && v < Times(n, m)
    ensures Quotient(v, m) < n
  {
    hide Times, Quotient, Remainder;
    Division(v, m);
    if n < Quotient(v, m) {
      TimesGrows(n, Quotient(v, m), m);
    }
  }

  // ---- the layout --------------------------------------------------------------------------------

  function LowBits(keyBits: nat): (r: nat)
    ensures r <= keyBits
  {
    if keyBits < 16 then keyBits else 16
  }

  function LowDomainSize(keyBits: nat): (r: nat)
    ensures r > 0
  {
    Power2(LowBits(keyBits))
  }

  function WordCount(keyBits: nat): nat {
    LowDomainSize(keyBits) / 64
  }

  /** value >> low_bits, or 0 when the key is all low bits. */
  function ChunkKey(keyBits: nat, v: nat): nat {
    if keyBits == LowBits(keyBits) then 0 else Quotient(v, LowDomainSize(keyBits))
  }

  /** value & low_mask. */
  function LowKey(keyBits: nat, v: nat): nat {
    Remainder(v, LowDomainSize(keyBits))
  }

  /** ( chunk << low_bits ) | low, the chunk being dropped when the key is all low bits. */
  function Compose(keyBits: nat, chunk: nat, low: nat): nat {
    if keyBits == LowBits(keyBits) then low else Times(chunk, LowDomainSize(keyBits)) + low
  }

  /** How many chunks a key space has. */
  function ChunkCount(keyBits: nat): nat {
    Power2(keyBits - LowBits(keyBits))
  }

  lemma DomainIsChunksTimesLows(keyBits: nat)
    ensures Power2(keyBits) == Times(ChunkCount(keyBits), LowDomainSize(keyBits))
  {
    hide Power2;
    Power2Sum(keyBits - LowBits(keyBits), LowBits(keyBits));
  }

  lemma OneChunk(keyBits: nat)
    requires keyBits == LowBits(keyBits)
    ensures ChunkCount(keyBits) == 1 && LowDomainSize(keyBits) == Power2(keyBits)
  {
  }

  /** Composing the parts of a key gives the key back, and the parts are in range. */
  lemma ComposeOfParts(keyBits: nat, v: nat)
    requires v < Power2(keyBits)
    ensures Compose(keyBits, ChunkKey(keyBits, v), LowKey(keyBits, v)) == v
    ensures LowKey(keyBits, v) < LowDomainSize(keyBits)
    ensures ChunkKey(keyBits, v) < ChunkCount(keyBits)
  {
    hide Power2, Times, Quotient, Remainder, LowDomainSize, ChunkCount;
    Division(v, LowDomainSize(keyBits));
    DomainIsChunksTimesLows(keyBits);
    QuotientBelow(v, LowDomainSize(keyBits), ChunkCount(keyBits));
    if keyBits == LowBits(keyBits) {
      OneChunk(keyBits);
      NothingTimes(LowDomainSize(keyBits));
    }
  }

  lemma NothingTimes(m: nat)
    ensures Times(0, m) == 0
  {
  }

  /** The parts of a composed key are the parts. */
  lemma PartsOfCompose(keyBits: nat, chunk: nat, low: nat)
    requires low < LowDomainSize(keyBits) && chunk < ChunkCount(keyBits)
    ensures ChunkKey(keyBits, Compose(keyBits, chunk, low)) == chunk
    ensures LowKey(keyBits, Compose(keyBits, chunk, low)) == low
    ensures Compose(keyBits, chunk, low) < Power2(keyBits)
  {
    hide Power2, Times, Quotient, Remainder, LowDomainSize, ChunkCount;
    var m := LowDomainSize(keyBits);
    var v := Compose(keyBits, chunk, low);
    Division(v, m);
    DomainIsChunksTimesLows(keyBits);
    NothingTimes(m);
    if keyBits == LowBits(keyBits) {
      OneChunk(keyBits);
      LexicographicOrder(m, 0, low, Quotient(v, m), Remainder(v, m));
    } else {
      LexicographicOrder(m, chunk, low, Quotient(v, m), Remainder(v, m));
      TimesGrows(chunk, ChunkCount(keyBits), m);
    }
  }

  /** Key order is lexicographic order on (chunk, low): walking ascending chunks with ascending lows
      walks the keys in order. */
  lemma OrderIsLexicographic(keyBits: nat, v: nat, w: nat)
    requires v < Power2(keyBits) && w < Power2(keyBits)
    ensures v < w <==>
      (ChunkKey(keyBits, v) < ChunkKey(keyBits, w)
       || (ChunkKey(keyBits, v) == ChunkKey(keyBits, w) && LowKey(keyBits, v) < LowKey(keyBits, w)))
  {
    hide Power2, Times, Quotient, Remainder, LowDomainSize, ChunkCount;
    ComposeOfParts(keyBits, v);
    ComposeOfParts(keyBits, w);
    LexicographicOrder(LowDomainSize(keyBits), ChunkKey(keyBits, v), LowKey(keyBits, v), ChunkKey(keyBits, w), LowKey(keyBits, w));
  }

  /** The keys of the chunks, walked chunk by chunk and low by low. */
  function Walk(keyBits: nat, chunks: seq<nat>, lows: seq<seq<nat>>): (keys: seq<nat>)
    requires |chunks| == |lows|
  {
    if chunks == [] then []
    else
      var n := |chunks| - 1;
      Walk(keyBits, chunks[..n], lows[..n]) + WalkChunk(keyBits, chunks[n], lows[n])
  }

  function WalkChunk(keyBits: nat, chunk: nat, lows: seq<nat>): (keys: seq<nat>)
    ensures |keys| == |lows|
  {
    seq(|lows|, i requires 0 <= i < |lows| => Compose(keyBits, chunk, lows[i]))
  }

  lemma WalkChunkIsInOrder(keyBits: nat, chunk: nat, lows: seq<nat>)
    requires chunk < ChunkCount(keyBits) && StrictlyAscending(lows) && AllBelow(lows, LowDomainSize(keyBits))
    ensures StrictlyAscending(WalkChunk(keyBits, chunk, lows)) && AllBelow(WalkChunk(keyBits, chunk, lows), Power2(keyBits))
  {
    hide Power2, Compose, LowDomainSize, ChunkCount;
    var walk := WalkChunk(keyBits, chunk, lows);
    forall i, j | 0 <= i < j < |walk| ensures walk[i] < walk[j] {
      ComposedOrder(keyBits, chunk, lows[i], chunk, lows[j]);
    }
    forall j | 0 <= j < |walk| ensures walk[j] < Power2(keyBits) {
      PartsOfCompose(keyBits, chunk, lows[j]);
    }
  }

  /** The walk visits exactly the composed keys. */
  lemma {:induction false} WalkVisits(keyBits: nat, chunks: seq<nat>, lows: seq<seq<nat>>)
    requires |chunks| == |lows|
    ensures forall k :: k in Walk(keyBits, chunks, lows) ==>
              exists c, i :: 0 <= c < |chunks| && 0 <= i < |lows[c]| && k == Compose(keyBits, chunks[c], lows[c][i])
    ensures forall c, i :: 0 <= c < |chunks| && 0 <= i < |lows[c]| ==> Compose(keyBits, chunks[c], lows[c][i]) in Walk(keyBits, chunks, lows)
  {
    hide Compose;
    if chunks != [] {
      var n := |chunks| - 1;
      WalkVisits(keyBits, chunks[..n], lows[..n]);
      var before, last := Walk(keyBits, chunks[..n], lows[..n]), WalkChunk(keyBits, chunks[n], lows[n]);
      forall c, i | 0 <= c < |chunks| && 0 <= i < |lows[c]|
        ensures Compose(keyBits, chunks[c], lows[c][i]) in before + last {
        if c == n {
          assert last[i] == Compose(keyBits, chunks[c], lows[c][i]);
        } else {
          assert Compose(keyBits, chunks[..n][c], lows[..n][c][i]) in before;
        }
      }
    }
  }

  /** Chunks in order with lows in order: the walk visits exactly the composed keys, in strictly
      ascending order. */
  lemma {:induction false} WalkIsInOrder(keyBits: nat, chunks: seq<nat>, lows: seq<seq<nat>>)
    requires |chunks| == |lows| && StrictlyAscending(chunks) && AllBelow(chunks, ChunkCount(keyBits))
    requires forall c :: 0 <= c < |lows| ==> StrictlyAscending(lows[c]) && AllBelow(lows[c], LowDomainSize(keyBits))
    ensures StrictlyAscending(Walk(keyBits, chunks, lows)) && AllBelow(Walk(keyBits, chunks, lows), Power2(keyBits))
    ensures forall k :: k in Walk(keyBits, chunks, lows) ==>
              exists c, i :: 0 <= c < |chunks| && 0 <= i < |lows[c]| && k == Compose(keyBits, chunks[c], lows[c][i])
    ensures forall c, i :: 0 <= c < |chunks| && 0 <= i < |lows[c]| ==> Compose(keyBits, chunks[c], lows[c][i]) in Walk(keyBits, chunks, lows)
  {
    hide Power2, Compose, LowDomainSize, ChunkCount, WalkChunk;
    WalkVisits(keyBits, chunks, lows);
    if chunks != [] {
      var n := |chunks| - 1;
      WalkIsInOrder(keyBits, chunks[..n], lows[..n]);
      WalkChunkIsInOrder(keyBits, chunks[n], lows[n]);
      var before, last := Walk(keyBits, chunks[..n], lows[..n]), WalkChunk(keyBits, chunks[n], lows[n]);
      forall i, j | 0 <= i < |before| && 0 <= j < |last| ensures before[i] < last[j] {
        EarlierChunkIsBefore(keyBits, chunks, lows, i, j);
      }
    }
  }

  lemma EarlierChunkIsBefore(keyBits: nat, chunks: seq<nat>, lows: seq<seq<nat>>, i: nat, j: nat)
    requires 0 < |chunks| == |lows| && StrictlyAscending(chunks) && AllBelow(chunks, ChunkCount(keyBits))
    requires forall c :: 0 <= c < |lows| ==> AllBelow(lows[c], LowDomainSize(keyBits))
    requires var n := |chunks| - 1; i < |Walk(keyBits, chunks[..n], lows[..n])| && j < |lows[n]|
    ensures var n := |chunks| - 1; Walk(keyBits, chunks[..n], lows[..n])[i] < WalkChunk(keyBits, chunks[n], lows[n])[j]
  {
    hide Power2, Compose, LowDomainSize, ChunkCount, Walk;
    var n := |chunks| - 1;
    WalkVisits(keyBits, chunks[..n], lows[..n]);
    var before := Walk(keyBits, chunks[..n], lows[..n]);
    assert before[i] in before;
    var c, l :| 0 <= c < n && 0 <= l < |lows[..n][c]| && before[i] == Compose(keyBits, chunks[..n][c], lows[..n][c][l]);
    ComposedOrder(keyBits, chunks[c], lows[c][l], chunks[n], lows[n][j]);
  }

  lemma ComposedOrder(keyBits: nat, c1: nat, l1: nat, c2: nat, l2: nat)
    requires c1 < ChunkCount(keyBits) && c2 < ChunkCount(keyBits) && l1 < LowDomainSize(keyBits) && l2 < LowDomainSize(keyBits)
    ensures Compose(keyBits, c1, l1) < Compose(keyBits, c2, l2) <==> c1 < c2 || (c1 == c2 && l1 < l2)
  {
    hide Power2, Compose, LowDomainSize, ChunkCount, ChunkKey, LowKey;
    PartsOfCompose(keyBits, c1, l1);
    PartsOfCompose(keyBits, c2, l2);
    OrderIsLexicographic(keyBits, Compose(keyBits, c1, l1), Compose(keyBits, c2, l2));
  }

  /** Whatever the width, the low part is the last sixteen bits of the key and the chunk is the rest. */
  lemma SplitAtSixteenBits(keyBits: nat, v: nat)
    requires v < Power2(keyBits)
    ensures LowKey(keyBits, v) == v % 0x1_0000 && ChunkKey(keyBits, v) == v / 0x1_0000
    ensures keyBits <= 16 ==> LowKey(keyBits, v) == v && ChunkKey(keyBits, v) == 0
  {
    SixteenBits();
    hide Power2;
    if keyBits <= 16 {
      Power2Grows(keyBits, 16);
      SmallKey(v, Power2(keyBits));
    }
  }

  lemma SixteenBits()
    ensures Power2(16) == 0x1_0000
  {
    assert Power2(4) == 16;
    Power2Sum(4, 4);
    Power2Sum(8, 8);
  }

  lemma SmallKey(v: nat, m: nat)
    requires v < m
    ensures Remainder(v, m) == v
  {
  }

  lemma {:induction false} Power2Grows(a: nat, b: nat)
    requires a <= b
    ensures Power2(a) <= Power2(b)
  {
    if a < b {
      Power2Grows(a, b - 1);
    }
  }

  /** From 8-bit keys on, the words of a chunk hold exactly its low domain. */
  lemma WordsCoverLowDomain(keyBits: nat)
    requires 8 <= keyBits
    ensures 64 * WordCount(keyBits) == LowDomainSize(keyBits)
  {
    Power2Sum(6, LowBits(keyBits) - 6);
    assert Power2(6) == 64;
  }
}
