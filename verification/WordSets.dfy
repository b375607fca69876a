/** A block of words as the set of values it holds: v is a member iff bit BitOf(v) of word WordOf(v) is set. */
module WordSets {
  import opened Word64

  /** The word that holds v's bit. */
  function WordOf(v: nat): (i: nat)
    ensures 64 * i <= v < 64 * i + 64
  {
    v / 64
  }

  /** The position of v's bit in its word. */
  function BitOf(v: nat): (k: nat)
    ensures k < 64
    ensures v == 64 * WordOf(v) + k
  {
    v % 64
  }

  /** Whether the block holds v. */
  predicate Has(words: seq<bv64>, v: nat)
  {
    WordOf(v) < |words| && BitOf(v) in Bits(words[WordOf(v)])
  }

  /** The set the block denotes. */
  function Members(words: seq<bv64>): (s: set<nat>)
    ensures s <= Range(0, 64 * |words|)
  {
    set v | v in Range(0, 64 * |words|) && Has(words, v)
  }

  /** The sum of the words' population counts. */
  function Count(words: seq<bv64>): (n: nat)
    ensures n <= 64 * |words|
  {
    if words == [] then 0 else Count(words[..|words| - 1]) + PopCount(words[|words| - 1])
  }

  /** Position k of word i, as a member. */
  lemma HasBit(words: seq<bv64>, i: nat, k: nat)
    requires i < |words| && k < 64
    ensures Has(words, 64 * i + k) <==> k in Bits(words[i])
  {
    hide Bits, WordOf, BitOf;
    assert WordOf(64 * i + k) == i && BitOf(64 * i + k) == k;
  }

  lemma MemberBit(words: seq<bv64>, i: nat, k: nat)
    requires i < |words| && k < 64
    ensures 64 * i + k in Members(words) <==> k in Bits(words[i])
  {
    hide Bits, Range, WordOf, BitOf, Has;
    HasBit(words, i, k);
  }

  lemma MemberParts(words: seq<bv64>, v: nat)
    ensures v in Members(words) <==> WordOf(v) < |words| && BitOf(v) in Bits(words[WordOf(v)])
  {
    hide Bits, Range, WordOf, BitOf;
  }

  /** Bit positions of a word whose first value is d, as values. */
  function Lifted(s: set<nat>, d: nat): set<nat> {
    set v {:trigger v in Range(d, d + 64)} | v in Range(d, d + 64) && v - d in s
  }

  lemma {:induction false} LiftedCard(s: set<nat>, d: nat)
    requires s <= Range(0, 64)
    ensures |Lifted(s, d)| == |s|
  {
    hide Range;
    if s == {} {
      assert Lifted(s, d) == {};
    } else {
      var x :| x in s;
      LiftedCard(s - {x}, d);
      assert Lifted(s, d) == Lifted(s - {x}, d) + {x + d};
    }
  }

  lemma MembersOfNothing()
    ensures Members([]) == {}
  {
  }

  lemma PopCountIsCardinality(w: bv64)
    ensures PopCount(w) == |Bits(w)|
  {
    hide Bits, Range, WordOf, BitOf;
  }

  /** The sum of the population counts is the number of members. */
  lemma {:induction false} CountIsCardinality(words: seq<bv64>)
    ensures Count(words) == |Members(words)|
  {
    hide Bits, Range, WordOf, BitOf, Has, Members, PopCount;
    if words == [] {
      MembersOfNothing();
    } else {
      var n := |words| - 1;
      var init := words[..n];
      CountIsCardinality(init);
      var top := Lifted(Bits(words[n]), 64 * n);
      forall v: nat ensures v in Members(words) <==> v in Members(init) + top {
        MemberParts(words, v);
        MemberParts(init, v);
        assert WordOf(v) == n ==> v - 64 * n == BitOf(v);
        assert v in top ==> WordOf(v) == n;
      }
      LiftedCard(Bits(words[n]), 64 * n);
      PopCountIsCardinality(words[n]);
      assert Members(words) == Members(init) + top;
      assert Members(init) !! top;
    }
  }

  lemma {:induction false} CountOfConcat(a: seq<bv64>, b: seq<bv64>)
    ensures Count(a + b) == Count(a) + Count(b)
  {
    hide Bits, PopCount;
    if b == [] {
      assert a + b == a;
    } else {
      var n := |b| - 1;
      assert (a + b)[..|a| + n] == a + b[..n];
      CountOfConcat(a, b[..n]);
    }
  }

  /** Overwriting one word moves the count by that word's change. */
  lemma CountOfUpdate(words: seq<bv64>, i: nat, w: bv64)
    requires i < |words|
    ensures Count(words[i := w]) == Count(words) - PopCount(words[i]) + PopCount(w)
  {
    hide PopCount;
    var before, after := words[..i], words[i + 1..];
    assert words == before + [words[i]] + after;
    assert words[i := w] == before + [w] + after;
    CountOfConcat(before + [words[i]], after);
    CountOfConcat(before, [words[i]]);
    CountOfConcat(before + [w], after);
    CountOfConcat(before, [w]);
    CountOfOne(w);
    CountOfOne(words[i]);
  }

  lemma CountOfOne(w: bv64)
    ensures Count([w]) == PopCount(w)
  {
    assert [w][..0] == [];
  }

  lemma CountOfNext(words: seq<bv64>, i: nat)
    requires i < |words|
    ensures Count(words[..i + 1]) == Count(words[..i]) + PopCount(words[i])
  {
    assert words[..i + 1][..i] == words[..i];
  }

  /** A block of fixed length is determined by its members. */
  lemma MembersDetermineWords(a: seq<bv64>, b: seq<bv64>)
    requires |a| == |b| && Members(a) == Members(b)
    ensures a == b
  {
    hide Bits, Range, WordOf, BitOf;
    forall i | 0 <= i < |a| ensures a[i] == b[i] {
      forall k: nat ensures k in Bits(a[i]) <==> k in Bits(b[i]) {
        if k < 64 {
          MemberBit(a, i, k);
          MemberBit(b, i, k);
        }
      }
      BitsDetermineWord(a[i], b[i]);
    }
  }

  lemma ZeroWordsAreEmpty(words: seq<bv64>)
    requires forall i :: 0 <= i < |words| ==> words[i] == 0
    ensures Members(words) == {} && Count(words) == 0
  {
    hide Bits, Range, WordOf, BitOf;
    BitsOfZero();
    CountIsCardinality(words);
  }

  /** Setting one bit adds one member. */
  lemma MembersWithBit(words: seq<bv64>, v: nat, w: bv64)
    requires WordOf(v) < |words| && Bits(w) == Bits(words[WordOf(v)]) + {BitOf(v)}
    ensures Members(words[WordOf(v) := w]) == Members(words) + {v}
  {
    hide Has, Members, Bits, Range, WordOf, BitOf;
    forall u: nat ensures u in Members(words[WordOf(v) := w]) <==> u in Members(words) + {v} {
      MemberParts(words, u);
      MemberParts(words[WordOf(v) := w], u);
    }
  }

  /** Clearing one bit removes one member. */
  lemma MembersWithoutBit(words: seq<bv64>, v: nat, w: bv64)
    requires WordOf(v) < |words| && Bits(w) == Bits(words[WordOf(v)]) - {BitOf(v)}
    ensures Members(words[WordOf(v) := w]) == Members(words) - {v}
  {
    hide Has, Members, Bits, Range, WordOf, BitOf;
    forall u: nat ensures u in Members(words[WordOf(v) := w]) <==> u in Members(words) - {v} {
      MemberParts(words, u);
      MemberParts(words[WordOf(v) := w], u);
    }
  }

  // ---- the four set operations -------------------------------------------------------------------

  datatype SetOperation = BitOr | BitAnd | BitAndNot | BitXor

  function ApplyWord(op: SetOperation, a: bv64, b: bv64): (r: bv64)
    ensures Bits(r) == ApplySet(op, Bits(a), Bits(b))
  {
    hide Bits, Range, WordOf, BitOf;
    match op
    case BitOr => Or(a, b)
    case BitAnd => And(a, b)
    case BitAndNot => AndNot(a, b)
    case BitXor => Xor(a, b)
  }

  function ApplySet(op: SetOperation, a: set<nat>, b: set<nat>): set<nat> {
    match op
    case BitOr => a + b
    case BitAnd => a * b
    case BitAndNot => a - b
    case BitXor => (a - b) + (b - a)
  }

  /** The block combined word by word. */
  function Combined(op: SetOperation, a: seq<bv64>, b: seq<bv64>): seq<bv64>
    requires |a| == |b|
  {
    seq(|a|, i requires 0 <= i < |a| => ApplyWord(op, a[i], b[i]))
  }

  /** Combining word by word combines the sets. */
  lemma MembersOfCombined(op: SetOperation, a: seq<bv64>, b: seq<bv64>)
    requires |a| == |b|
    ensures Members(Combined(op, a, b)) == ApplySet(op, Members(a), Members(b))
    ensures op.BitOr? ==> Members(Combined(op, a, b)) == Members(a) + Members(b)
    ensures op.BitAnd? ==> Members(Combined(op, a, b)) == Members(a) * Members(b)
    ensures op.BitAndNot? ==> Members(Combined(op, a, b)) == Members(a) - Members(b)
    ensures op.BitXor? ==> forall v :: v in Members(Combined(op, a, b)) <==> (v in Members(a)) != (v in Members(b))
  {
    hide Has, Members, Bits, Range, WordOf, BitOf, ApplyWord;
    var c := Combined(op, a, b);
    forall v: nat ensures v in Members(c) <==> v in ApplySet(op, Members(a), Members(b)) {
      MemberParts(a, v);
      MemberParts(b, v);
      MemberParts(c, v);
    }
  }
}
