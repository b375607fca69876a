/** The byte-table set-bit decoder into 32-bit values: eight lanes are stored per byte, so the table
    loop stops 64 slots short of the buffer's end and a scalar tail finishes. */
module ByteTable {
  import opened Word64
  import opened WordSets
  import opened Listing
  import opened Decoders

  const MODULUS: nat := 0x1_0000_0000

  /** 32-bit wrap-around. */
  function Wrap(v: nat): (r: nat)
    ensures r < MODULUS
    ensures v < MODULUS ==> r == v
  {
    v % MODULUS
  }

  lemma WrapOfSum(a: nat, b: nat)
    ensures Wrap(Wrap(a) + b) == Wrap(a + b)
  {
  }

  // ---- bytes of a word ---------------------------------------------------------------------------

  lemma ShiftOfByte(j: nat, b: nat)
    requires j < 8 && b < 8
    ensures Shift(8 * j + b) == Shift(8 * j) + Shift(b)
    ensures Shift(b) < 8 && Shift(8 * j) <= 56 && Shift(8 * j) & 7 == 0
  {
    assert (8 * j + b) / 8 == j && (8 * j + b) % 8 == b;
  }

  /** The byte that starts at bit s. */
  function ByteAt(w: bv64, s: bv64): bv64
    requires s <= 56
  {
    (w >> s) & 0xFF
  }

  lemma LowBit(w: bv64, s: bv64, i: bv64)
    requires s <= 56 && s & 7 == 0 && i < 8
    ensures Bit(ByteAt(w, s), i) == Bit(w, s + i)
  {
  }

  lemma HighBit(w: bv64, s: bv64, i: bv64)
    requires s <= 56 && 8 <= i < 64
    ensures !Bit(ByteAt(w, s), i)
  {
  }

  /** Byte j of the word. */
  function ByteOf(w: bv64, j: nat): bv64
    requires j < 8
  {
    hide Shift;
    ShiftOfByte(j, 0);
    ByteAt(w, Shift(8 * j))
  }

  lemma LowBitOfByte(w: bv64, j: nat, b: nat)
    requires j < 8 && b < 8
    ensures Bit(ByteOf(w, j), Shift(b)) <==> Bit(w, Shift(8 * j + b))
  {
    hide Shift, Bit, ByteAt;
    ShiftOfByte(j, b);
    LowBit(w, Shift(8 * j), Shift(b));
  }

  lemma HighBitOfByte(w: bv64, j: nat, b: nat)
    requires j < 8 && 8 <= b < 64
    ensures !Bit(ByteOf(w, j), Shift(b))
  {
    hide Shift, Bit, ByteAt;
    ShiftOfByte(j, 0);
    HighShift(b);
    HighBit(w, Shift(8 * j), Shift(b));
  }

  lemma BitsOfByte(w: bv64, j: nat, b: nat)
    requires j < 8
    ensures b in Bits(ByteOf(w, j)) <==> b < 8 && 8 * j + b in Bits(w)
  {
    hide Shift, Bit, Range, ByteOf;
    if b < 8 {
      LowBitOfByte(w, j, b);
    } else if b < 64 {
      HighBitOfByte(w, j, b);
    }
  }

  lemma HighShift(b: nat)
    requires 8 <= b < 64
    ensures 8 <= Shift(b)
  {
    hide Shift;
    ShiftOrder(8, b);
    ShiftOfEight();
  }

  lemma ShiftOfEight()
    ensures Shift(8) == 8
  {
  }

  // ---- the decode table --------------------------------------------------------------------------

  /** The set positions of a byte below `bit`, in order. */
  function Row(byte: bv64, bit: nat): (r: seq<nat>)
    requires bit <= 8
    ensures |r| <= bit
  {
    hide Bits, Range, TestMask;
    if bit == 0 then []
    else if TestMask(byte, bit - 1) then Row(byte, bit - 1) + [bit - 1]
    else Row(byte, bit - 1)
  }

  /** setbit_decode_table_uint32: eight lanes, zero padded past the count. */
  function TableRow(byte: bv64): (r: seq<nat>)
    ensures |r| == 8
  {
    Row(byte, 8) + seq(8 - |Row(byte, 8)|, _ => 0)
  }

  lemma {:induction false} RowIsListing(byte: bv64, bit: nat)
    requires bit <= 8
    ensures IsListing(Row(byte, bit), Under(Bits(byte), bit))
  {
    hide Bits, Range, TestMask;
    if bit > 0 {
      RowIsListing(byte, bit - 1);
      var shorter := Row(byte, bit - 1);
      assert forall i :: 0 <= i < |shorter| ==> shorter[i] in ValuesOf(shorter);
      ValuesOfConcat(shorter, [bit - 1]);
      if TestMask(byte, bit - 1) {
        assert Under(Bits(byte), bit) == Under(Bits(byte), bit - 1) + {bit - 1};
      } else {
        assert Under(Bits(byte), bit) == Under(Bits(byte), bit - 1);
      }
    }
  }

  /** The byte holds the members of [f, f + 8), relative to f. */
  ghost predicate ByteHolds(byte: bv64, s: set<nat>, f: nat) {
    forall b: nat :: b in Bits(byte) <==> b < 8 && f + b in s
  }

  lemma BytesHold(w: bv64, s: set<nat>, i: nat, j: nat)
    requires j < 8 && WordHolds(w, s, i, 64 * i, 64 * i + 64)
    ensures ByteHolds(ByteOf(w, j), s, 64 * i + 8 * j)
  {
    hide Bits, Range, ByteOf;
    forall b: nat ensures b in Bits(ByteOf(w, j)) <==> b < 8 && 64 * i + 8 * j + b in s {
      BitsOfByte(w, j, b);
      assert 64 * i + (8 * j + b) == 64 * i + 8 * j + b;
    }
  }

  /** The row's positions, moved up by f. */
  function Placed(row: seq<nat>, f: nat): (r: seq<nat>)
    ensures |r| == |row|
  {
    seq(|row|, k requires 0 <= k < |row| => f + row[k])
  }

  /** A byte's row lists what the byte holds, and its length is the byte's population count. */
  lemma RowOfByte(byte: bv64, s: set<nat>, f: nat)
    requires ByteHolds(byte, s, f)
    ensures IsListing(Row(byte, 8), Bits(byte)) && |Row(byte, 8)| == PopCount(byte)
  {
    hide Bits, Range;
    RowIsListing(byte, 8);
    assert Under(Bits(byte), 8) == Bits(byte);
    ListingLength(Row(byte, 8), Bits(byte));
  }

  lemma PlacedValues(row: seq<nat>, byte: bv64, s: set<nat>, f: nat)
    requires IsListing(row, Bits(byte)) && ByteHolds(byte, s, f)
    ensures forall v: nat :: v in ValuesOf(Placed(row, f)) <==> v in s && f <= v < f + 8
  {
    hide Bits, Range;
    var placed := Placed(row, f);
    forall v: nat ensures v in ValuesOf(placed) <==> v in s && f <= v < f + 8 {
      if v in ValuesOf(placed) {
        var k :| 0 <= k < |placed| && placed[k] == v;
        assert row[k] in ValuesOf(row);
      }
      if v in s && f <= v < f + 8 {
        var b: nat := v - f;
        assert f + b == v && b in Bits(byte) && b in ValuesOf(row);
        var k :| 0 <= k < |row| && row[k] == b;
        assert placed[k] == v;
      }
    }
  }

  lemma AppendRow(list: seq<nat>, row: seq<nat>, byte: bv64, s: set<nat>, f: nat)
    requires IsListing(list, Under(s, f)) && IsListing(row, Bits(byte)) && ByteHolds(byte, s, f)
    ensures IsListing(list + Placed(row, f), Under(s, f + 8))
  {
    hide Bits, Range;
    var placed := Placed(row, f);
    assert StrictlyAscending(placed);
    hide Placed, ByteHolds;
    PlacedValues(row, byte, s, f);
    assert forall k :: 0 <= k < |placed| ==> placed[k] in ValuesOf(placed);
    assert forall k :: 0 <= k < |list| ==> list[k] in ValuesOf(list);
    ValuesOfConcat(list, placed);
    assert ValuesOf(placed) + Under(s, f) == Under(s, f + 8);
  }

  // ---- the decoder -------------------------------------------------------------------------------

  /** The buffer's first slots are the listed values plus the base, in 32-bit arithmetic. */
  ghost predicate Written(out: seq<nat>, list: seq<nat>, base: nat) {
    |list| <= |out| && forall j :: 0 <= j < |list| ==> out[j] == Wrap(base + list[j])
  }

  /** One byte: a full eight-lane store, of which the byte's population count is kept. */
  method StoreByte(out: array<nat>, written: nat, byte: bv64, lane: nat, ghost list: seq<nat>, ghost s: set<nat>, ghost f: nat, ghost base: nat)
    returns (written': nat, ghost list': seq<nat>)
    requires written + 8 <= out.Length && |list| == written && lane == Wrap(base + f)
    requires Written(out[..], list, base) && IsListing(list, Under(s, f)) && ByteHolds(byte, s, f)
    modifies out
    ensures written <= written' <= written + 8 && |list'| == written'
    ensures Written(out[..], list', base) && IsListing(list', Under(s, f + 8))
  {
    hide Bits, Range, ByteHolds, IsListing, Under, Row, Wrap, PopCount;
    RowOfByte(byte, s, f);
    var positions := TableRow(byte);
    forall l | written <= l < written + 8 {
      out[l] := Wrap(lane + positions[l - written]);
    }
    ghost var row := Row(byte, 8);
    AppendRow(list, row, byte, s, f);
    list' := list + Placed(row, f);
    written' := written + PopCount(byte);
    forall j | 0 <= j < |list'| ensures out[j] == Wrap(base + list'[j]) {
      if written <= j {
        var position := row[j - written];
        assert positions[j - written] == position;
        WrapOfSum(base + f, position);
        assert base + f + position == base + list'[j];
      }
    }
  }

  /** One word, byte by byte, when at least 64 slots are left. */
  method StoreWordByBytes(out: array<nat>, written: nat, w: bv64, i: nat, lane: nat, ghost list: seq<nat>, ghost s: set<nat>, ghost base: nat)
    returns (written': nat, lane': nat, ghost list': seq<nat>)
    requires written + 64 <= out.Length && |list| == written && lane == Wrap(base + 64 * i)
    requires Written(out[..], list, base) && IsListing(list, Under(s, 64 * i)) && WordHolds(w, s, i, 64 * i, 64 * i + 64)
    modifies out
    ensures written <= written' <= written + 64 && |list'| == written' && lane' == Wrap(base + 64 * (i + 1))
    ensures Written(out[..], list', base) && IsListing(list', Under(s, 64 * (i + 1)))
  {
    hide Bits, Range, ByteHolds, IsListing, Under, Wrap, WordHolds, ByteOf, Written;
    written', lane', list' := written, lane, list;
    for j := 0 to 8
      invariant written <= written' <= written + 8 * j && |list'| == written' && lane' == Wrap(base + (64 * i + 8 * j))
      invariant Written(out[..], list', base) && IsListing(list', Under(s, 64 * i + 8 * j))
    {
      BytesHold(w, s, i, j);
      written', list' := StoreByte(out, written', ByteOf(w, j), lane', list', s, 64 * i + 8 * j, base);
      WrapOfSum(base + (64 * i + 8 * j), 8);
      lane' := Wrap(lane' + 8);
      assert base + (64 * i + 8 * j) + 8 == base + (64 * i + 8 * (j + 1));
    }
    assert 64 * i + 8 * 8 == 64 * (i + 1);
  }

  /** Everything below word `index` is listed and written. */
  ghost predicate DecodedTo(out: seq<nat>, list: seq<nat>, s: set<nat>, f: nat, base: nat) {
    Written(out, list, base) && IsListing(list, Under(s, f))
  }

  /** The table loop. */
  method DecodeByTable(words: array<bv64>, out: array<nat>, base: nat) returns (index: nat, written: nat, ghost list: seq<nat>)
    requires out as object != words
    modifies out
    ensures index <= words.Length && |list| == written <= out.Length
    ensures index == words.Length || out.Length < written + 64
    ensures DecodedTo(out[..], list, Members(words[..]), 64 * index, base)
  {
    hide Bits, Range, Has, Members, WordOf, BitOf, IsListing, Under, Wrap, WordHolds, Written;
    ghost var s := Members(words[..]);
    UnderAll(s, 64 * words.Length);
    index, written, list := 0, 0, [];
    EmptyListing(list);
    NothingWritten(out[..], base);
    var lane := Wrap(base);
    while index < words.Length && written + 64 <= out.Length
      invariant index <= words.Length && |list| == written <= out.Length && lane == Wrap(base + 64 * index)
      invariant DecodedTo(out[..], list, s, 64 * index, base)
    {
      BlockWordHolds(words[..], index);
      if words[index] == 0 {
        SkipZeroWord(list, s, index, words[index]);
        NextBase(base, index);
        lane := Wrap(lane + 64);
        index := index + 1;
        continue;
      }
      written, lane, list := StoreWordByBytes(out, written, words[index], index, lane, list, s, base);
      index := index + 1;
    }
  }

  lemma NextBase(base: nat, i: nat)
    ensures Wrap(Wrap(base + 64 * i) + 64) == Wrap(base + 64 * (i + 1))
  {
    hide Wrap;
    WrapOfSum(base + 64 * i, 64);
    assert base + 64 * i + 64 == base + 64 * (i + 1);
  }

  /** extract_setbits_uint32 (portable path): whatever room is left, the buffer receives the first
      `written` values of the block, in order; with room for all of them, all. */
  method ExtractSetBits(words: array<bv64>, out: array<nat>, base: nat) returns (written: nat, ghost list: seq<nat>)
    requires out as object != words
    modifies out
    ensures written == |list| == if |Members(words[..])| <= out.Length then |Members(words[..])| else out.Length
    ensures forall full :: IsListing(full, Members(words[..])) ==> list <= full
    ensures forall j :: 0 <= j < written ==> out[j] == Wrap(base + list[j])
  {
    hide Bits, Range, Has, Members, WordOf, BitOf, IsListing, Under, Wrap, WordHolds, Written;
    ghost var s := Members(words[..]);
    UnderAll(s, 64 * words.Length);
    var index;
    index, written, list := DecodeByTable(words, out, base);
    ghost var frontier: nat := 64 * index;
    var valueBase := Wrap(base + index * 64);
    while index < words.Length && written < out.Length
      invariant index <= words.Length && |list| == written <= out.Length
      invariant DecodedTo(out[..], list, s, frontier, base)
      invariant frontier == 64 * index || written == out.Length
      invariant valueBase == Wrap(base + 64 * index)
    {
      BlockWordHolds(words[..], index);
      written, list, frontier := StoreTailWord(out, written, words[index], index, valueBase, list, s, base);
      NextBase(base, index);
      valueBase := Wrap(valueBase + 64);
      index := index + 1;
    }
    FirstValues(list, s, frontier, 64 * words.Length, out.Length);
    WrittenMeans(out[..], list, base);
  }

  lemma NothingWritten(out: seq<nat>, base: nat)
    ensures Written(out, [], base)
  {
  }

  lemma WrittenMeans(out: seq<nat>, list: seq<nat>, base: nat)
    requires Written(out, list, base)
    ensures forall j :: 0 <= j < |list| ==> out[j] == Wrap(base + list[j])
  {
  }

  lemma SkipZeroWord(list: seq<nat>, s: set<nat>, i: nat, w: bv64)
    requires w == 0 && WordHolds(w, s, i, 64 * i, 64 * i + 64) && IsListing(list, Under(s, 64 * i))
    ensures IsListing(list, Under(s, 64 * (i + 1)))
  {
    hide Bits, Range, IsListing;
    BitsOfZero();
    EmptyWord(w, s, i);
    assert Under(s, 64 * i) == Under(s, 64 * (i + 1));
  }

  /** A word of the scalar tail; it stops at the end of the buffer. */
  method StoreTailWord(out: array<nat>, written: nat, w: bv64, i: nat, valueBase: nat, ghost list: seq<nat>, ghost s: set<nat>, ghost base: nat)
    returns (written': nat, ghost list': seq<nat>, ghost frontier: nat)
    requires written == |list| <= out.Length && valueBase == Wrap(base + 64 * i)
    requires Written(out[..], list, base) && IsListing(list, Under(s, 64 * i)) && WordHolds(w, s, i, 64 * i, 64 * i + 64)
    modifies out
    ensures written <= written' == |list'| <= out.Length
    ensures Written(out[..], list', base) && IsListing(list', Under(s, frontier))
    ensures frontier == 64 * (i + 1) || written' == out.Length
  {
    hide Bits, Range, IsListing, Under, Wrap, WordHolds, Emitting, TrailingZeros, ClearLowest;
    EmitStart(list, w, s, i, 64 * i, 64 * i + 64);
    var rest := w;
    written', list' := written, list;
    while rest != 0 && written' < out.Length
      invariant written <= written' == |list'| <= out.Length
      invariant Written(out[..], list', base) && Emitting(list', rest, s, i, 64 * i + 64)
      decreases |Bits(rest)|
    {
      EmitBit(list', rest, s, i, 64 * i + 64);
      assert TrailingZeros(rest) in Bits(rest);
      WrapOfSum(base + 64 * i, TrailingZeros(rest));
      assert base + 64 * i + TrailingZeros(rest) == base + (64 * i + TrailingZeros(rest));
      out[written'] := Wrap(valueBase + TrailingZeros(rest));
      list' := list' + [64 * i + TrailingZeros(rest)];
      rest := ClearLowest(rest);
      written' := written' + 1;
    }
    frontier := Frontier(rest, i, 64 * i + 64);
    EmittingMeans(list', rest, s, i, 64 * i + 64);
  }

  lemma EmittingMeans(list: seq<nat>, w: bv64, s: set<nat>, i: nat, hi: nat)
    requires Emitting(list, w, s, i, hi)
    ensures IsListing(list, Under(s, Frontier(w, i, hi)))
  {
  }

  /** A listing of the members below a frontier is the start of the full listing. */
  lemma {:induction false} ListingPrefix(list: seq<nat>, full: seq<nat>, s: set<nat>, f: nat)
    requires IsListing(full, s) && IsListing(list, Under(s, f))
    ensures list <= full
    decreases |full|
  {
    if full == [] {
      assert Under(s, f) == {};
      ListingLength(list, {});
    } else {
      LastIsGreatest(full);
      var last, rest := full[|full| - 1], full[..|full| - 1];
      if last < f {
        assert Under(s, f) == s;
        ListingIsUnique(list, full);
      } else {
        assert Under(s, f) == Under(s - {last}, f);
        ListingPrefix(list, rest, s - {last}, f);
        assert rest[..|list|] == full[..|list|];
      }
    }
  }

  lemma FirstValues(list: seq<nat>, s: set<nat>, f: nat, end: nat, room: nat)
    requires IsListing(list, Under(s, f)) && s <= Range(0, end) && |list| <= room
    requires f == end || |list| == room
    ensures |list| == if |s| <= room then |s| else room
    ensures forall full :: IsListing(full, s) ==> list <= full
  {
    hide Range, IsListing;
    ListingLength(list, Under(s, f));
    SubsetIsNoLarger(Under(s, f), s);
    assert f == end ==> Under(s, f) == s;
    forall full | IsListing(full, s) ensures list <= full {
      ListingPrefix(list, full, s, f);
    }
  }
}
