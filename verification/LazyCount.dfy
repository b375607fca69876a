/** The header of a bitset container: the members, the stored count, and whether that count is stale.
    `Step` is one operation's effect on the header, branch by branch as the kernels take them. */
module LazyCount {
  import opened Word64
  import opened WordSets

  datatype Header = Header(members: set<nat>, stored: nat, stale: bool)

  /** An exact count is the cardinality; a stale one is never above it. */
  ghost predicate Sound(h: Header, domain: nat)
  {
    && h.members <= Range(0, domain)
    && (h.stale ==> h.stored <= |h.members|)
    && (!h.stale ==> h.stored == |h.members|)
  }

  /** The count is the cardinality, and is known to be. */
  predicate IsExact(h: Header) {
    !h.stale && h.stored == |h.members|
  }

  datatype Change =
    | Combine(op: SetOperation, operand: set<nat>)  // whole block, recounted
    | LazyOr(operand: set<nat>)                     // whole block, count kept as a lower bound
    | LazyXor(operand: set<nat>)                    // whole block, count dropped
    | AddArray(values: set<nat>)                    // bits set, count moved by the bits gained
    | LazyAddArray(values: set<nat>)
    | RemoveArray(values: set<nat>)                 // bits cleared, count moved by the bits lost
    | FlipArray(values: set<nat>)                   // bits flipped, count moved by the signed sum
    | LazyFlipArray(values: set<nat>)
    | AddRuns(values: set<nat>)
    | RemoveRuns(values: set<nat>)
    | FlipRuns(values: set<nat>)                    // recounted
    | LazyFlipRuns(values: set<nat>)
    | AddValue(value: nat)                          // count moved, staleness kept
    | RemoveValue(value: nat)
    | Repair                                        // the count is made exact

  /** The values an operation is given. */
  function Operand(c: Change): set<nat> {
    match c
    case Combine(_, s) => s
    case LazyOr(s) => s
    case LazyXor(s) => s
    case AddArray(s) => s
    case LazyAddArray(s) => s
    case RemoveArray(s) => s
    case FlipArray(s) => s
    case LazyFlipArray(s) => s
    case AddRuns(s) => s
    case RemoveRuns(s) => s
    case FlipRuns(s) => s
    case LazyFlipRuns(s) => s
    case AddValue(v) => {v}
    case RemoveValue(v) => {v}
    case Repair => {}
  }

  /** What the operation is for, as plain set algebra. */
  function Meaning(c: Change, members: set<nat>): set<nat> {
    match c
    case Combine(op, s) => ApplySet(op, members, s)
    case LazyOr(_) | AddArray(_) | LazyAddArray(_) | AddRuns(_) | AddValue(_) => members + Operand(c)
    case RemoveArray(_) | RemoveRuns(_) | RemoveValue(_) => members - Operand(c)
    case LazyXor(_) | FlipArray(_) | LazyFlipArray(_) | FlipRuns(_) | LazyFlipRuns(_) =>
      ApplySet(BitXor, members, Operand(c))
    case Repair => members
  }

  /** The header with a stale count counted; an exact one unchanged. */
  function Settled(h: Header): Header {
    if h.stale then Header(h.members, |h.members|, false) else h
  }

  /** One operation on the header of a bitset over [0, domain). */
  function Step(h: Header, c: Change, domain: nat): Header {
    var h1 := Settled(h);
    match c
    case Combine(op, s) =>
      if op.BitOr? && h.stored == domain then h
      else Header(ApplySet(op, h.members, s), |ApplySet(op, h.members, s)|, false)
    case LazyOr(s) => Header(h.members + s, h.stored, true)
    case LazyXor(s) => Header(ApplySet(BitXor, h.members, s), 0, true)
    case AddArray(s) =>
      if s == {} then h else Header(h.members + s, h1.stored + |s - h.members|, false)
    case LazyAddArray(s) =>
      if s == {} then h else Header(h.members + s, h.stored, true)
    case RemoveArray(s) =>
      Header(h.members - s, Reduced(h1.stored, |s * h.members|), false)
    case FlipArray(s) =>
      Header(ApplySet(BitXor, h.members, s), Reduced(h1.stored + |s - h.members|, |s * h.members|), false)
    case LazyFlipArray(s) => Header(ApplySet(BitXor, h.members, s), 0, true)
    case AddRuns(s) => Header(h.members + s, h1.stored + |s - h.members|, false)
    case RemoveRuns(s) => Header(h.members - s, Reduced(h1.stored, |s * h.members|), false)
    case FlipRuns(s) => Header(ApplySet(BitXor, h.members, s), |ApplySet(BitXor, h.members, s)|, false)
    case LazyFlipRuns(s) => Header(ApplySet(BitXor, h.members, s), 0, true)
    case AddValue(v) =>
      if v in h.members then h else Header(h.members + {v}, h.stored + 1, h.stale)
    case RemoveValue(v) =>
      if v !in h.members then h else Header(h.members - {v}, Reduced(h1.stored, 1), false)
    case Repair => h1
  }

  /** Subtraction in the header's unsigned 32-bit arithmetic. */
  function Reduced(n: nat, d: nat): (r: nat) {
    if d <= n then n - d else (n - d) % 0x1_0000_0000
  }

  // ---- one step ----------------------------------------------------------------------------------

  lemma DifferenceSizes(a: set<nat>, b: set<nat>)
    ensures |a + b| == |a| + |b - a|
    ensures |a| == |a - b| + |b * a|
    ensures |ApplySet(BitXor, a, b)| == |a| + |b - a| - |b * a|
    ensures |b * a| <= |a| <= |a + b|
  {
    assert a + b == a + (b - a);
    assert a == (a - b) + (b * a);
    assert (a - b) !! (b - a);
  }

  /** A stored count that says full is right, exact or stale. */
  lemma StoredFullMeansFull(h: Header, domain: nat)
    requires Sound(h, domain) && h.stored == domain
    ensures h.members == Range(0, domain)
  {
    hide Range;
    SubsetIsNoLarger(h.members, Range(0, domain));
  }

  lemma CombineIsSound(h: Header, op: SetOperation, operand: set<nat>, domain: nat)
    requires Sound(h, domain) && operand <= Range(0, domain)
    ensures Sound(Step(h, Combine(op, operand), domain), domain)
    ensures Step(h, Combine(op, operand), domain).members == ApplySet(op, h.members, operand)
    ensures if op.BitOr? && h.stored == domain then Step(h, Combine(op, operand), domain) == h
            else IsExact(Step(h, Combine(op, operand), domain))
  {
    hide Range;
    if op.BitOr? && h.stored == domain {
      StoredFullMeansFull(h, domain);
      assert h.members + operand == h.members;
    }
  }

  /** The operations that move an exact count by the bits they change. */
  lemma AdjustingIsSound(h: Header, c: Change, domain: nat)
    requires Sound(h, domain) && Operand(c) <= Range(0, domain)
    requires c.AddArray? || c.RemoveArray? || c.FlipArray? || c.AddRuns? || c.RemoveRuns?
    ensures Sound(Step(h, c, domain), domain)
    ensures Step(h, c, domain).members == Meaning(c, h.members)
  {
    hide Range;
    DifferenceSizes(h.members, Operand(c));
    if c.AddArray? && c.values == {} {
      assert h.members + c.values == h.members;
    }
  }

  lemma LazyIsSound(h: Header, c: Change, domain: nat)
    requires Sound(h, domain) && Operand(c) <= Range(0, domain)
    requires c.LazyOr? || c.LazyXor? || c.LazyAddArray? || c.LazyFlipArray? || c.LazyFlipRuns? || c.FlipRuns? || c.Repair?
    ensures Sound(Step(h, c, domain), domain)
    ensures Step(h, c, domain).members == Meaning(c, h.members)
  {
    hide Range;
    DifferenceSizes(h.members, Operand(c));
    if c.LazyAddArray? && c.values == {} {
      assert h.members + c.values == h.members;
    }
  }

  lemma SingleIsSound(h: Header, c: Change, domain: nat)
    requires Sound(h, domain) && Operand(c) <= Range(0, domain)
    requires c.AddValue? || c.RemoveValue?
    ensures Sound(Step(h, c, domain), domain)
    ensures Step(h, c, domain).members == Meaning(c, h.members)
  {
    hide Range;
    if c.AddValue? {
      assert c.value in h.members ==> h.members + {c.value} == h.members;
    } else {
      assert c.value !in h.members ==> h.members - {c.value} == h.members;
    }
  }

  /** Every operation keeps the header sound and does to the members what it is for. */
  lemma StepIsSound(h: Header, c: Change, domain: nat)
    requires Sound(h, domain) && Operand(c) <= Range(0, domain)
    ensures Sound(Step(h, c, domain), domain)
    ensures Step(h, c, domain).members == Meaning(c, h.members)
  {
    hide Range, Sound, Step;
    match c
    case Combine(op, s) => CombineIsSound(h, op, s, domain);
    case AddArray(_) | RemoveArray(_) | FlipArray(_) | AddRuns(_) | RemoveRuns(_) => AdjustingIsSound(h, c, domain);
    case AddValue(_) | RemoveValue(_) => SingleIsSound(h, c, domain);
    case _ => LazyIsSound(h, c, domain);
  }

  /** The operations that leave the header exact, whatever it was. */
  lemma ExactStep(h: Header, c: Change, domain: nat)
    requires Sound(h, domain) && Operand(c) <= Range(0, domain)
    requires c.RemoveArray? || c.FlipArray? || c.AddRuns? || c.RemoveRuns? || c.FlipRuns? || c.Repair?
          || (c.Combine? && !(c.op.BitOr? && h.stored == domain)) || (c.AddArray? && c.values != {}) || (c.RemoveValue? && c.value in h.members)
    ensures Step(h, c, domain) == Header(Meaning(c, h.members), |Meaning(c, h.members)|, false)
    ensures Sound(Step(h, c, domain), domain)
  {
    hide Range;
    StepIsSound(h, c, domain);
  }

  /** Only a lazy operation can make an exact count stale. */
  predicate IsLazy(c: Change) {
    c.LazyOr? || c.LazyXor? || c.LazyAddArray? || c.LazyFlipArray? || c.LazyFlipRuns?
  }

  /** An exact header stays exact under every eager operation, the shortcut and the value that changes nothing
      included. */
  lemma ExactStaysExact(h: Header, c: Change, domain: nat)
    requires Sound(h, domain) && Operand(c) <= Range(0, domain) && !h.stale && !IsLazy(c)
    ensures IsExact(Step(h, c, domain))
  {
    hide Range;
    StepIsSound(h, c, domain);
    assert c.Combine? ==> IsExact(Step(h, c, domain)) by {
      if c.Combine? {
        CombineIsSound(h, c.op, c.operand, domain);
      }
    }
  }

  /** The operations that leave the header stale. */
  lemma StaleStep(h: Header, c: Change, domain: nat)
    requires Sound(h, domain) && Operand(c) <= Range(0, domain)
    requires c.LazyOr? || c.LazyXor? || c.LazyFlipArray? || c.LazyFlipRuns? || (c.LazyAddArray? && c.values != {})
    ensures Step(h, c, domain) == Header(Meaning(c, h.members), if c.LazyOr? || c.LazyAddArray? then h.stored else 0, true)
    ensures Sound(Step(h, c, domain), domain)
  {
    hide Range;
    StepIsSound(h, c, domain);
  }

  /** The three eager ways of flipping values. */
  predicate Flips(c: Change) {
    c.FlipArray? || c.FlipRuns? || (c.Combine? && c.op.BitXor?)
  }

  /** Flipping the same values twice, from an array, from runs or from a block, restores the members, and
      the count when it was exact; a count that was not ends exact. */
  lemma FlipTwiceIsNothing(h: Header, c: Change, domain: nat)
    requires Sound(h, domain) && Flips(c) && Operand(c) <= Range(0, domain)
    ensures Step(Step(h, c, domain), c, domain) == Settled(h)
  {
    hide Range, Step;
    ExactStep(h, c, domain);
    var flipped := Step(h, c, domain);
    ExactStep(flipped, c, domain);
    MeaningOfFlips(c, h.members);
    MeaningOfFlips(c, flipped.members);
    hide Meaning, Operand, ApplySet;
    SettledIsExact(h, domain);
  }

  lemma MeaningOfFlips(c: Change, members: set<nat>)
    requires Flips(c)
    ensures Meaning(c, members) == ApplySet(BitXor, members, Operand(c))
    ensures ApplySet(BitXor, ApplySet(BitXor, members, Operand(c)), Operand(c)) == members
  {
    var s := Operand(c);
    var flipped := ApplySet(BitXor, members, s);
    assert forall v :: v in flipped <==> (v in members) != (v in s);
    assert ApplySet(BitXor, flipped, s) == members;
  }

  lemma SettledIsExact(h: Header, domain: nat)
    requires Sound(h, domain)
    ensures Settled(h) == Header(h.members, |h.members|, false)
  {
  }

  // ---- whole runs --------------------------------------------------------------------------------

  function RunOf(h: Header, changes: seq<Change>, domain: nat): Header
    decreases |changes|
  {
    if changes == [] then h else RunOf(Step(h, changes[0], domain), changes[1..], domain)
  }

  function MeaningOf(members: set<nat>, changes: seq<Change>): set<nat>
    decreases |changes|
  {
    if changes == [] then members else MeaningOf(Meaning(changes[0], members), changes[1..])
  }

  /** Over any sequence of eager and lazy operations the header stays sound and the members are those
      of plain set algebra, so every shortcut taken on the way was invisible. */
  lemma {:induction false} RunIsSound(h: Header, changes: seq<Change>, domain: nat)
    requires Sound(h, domain)
    requires forall c :: c in changes ==> Operand(c) <= Range(0, domain)
    ensures Sound(RunOf(h, changes, domain), domain)
    ensures RunOf(h, changes, domain).members == MeaningOf(h.members, changes)
    decreases |changes|
  {
    hide Range, Step, Meaning, Operand, Sound;
    if changes != [] {
      StepIsSound(h, changes[0], domain);
      RunIsSound(Step(h, changes[0], domain), changes[1..], domain);
    }
  }

  /** Without a lazy operation an exact header stays exact over any sequence, with no repair. */
  lemma {:induction false} EagerRunIsExact(h: Header, changes: seq<Change>, domain: nat)
    requires Sound(h, domain) && !h.stale
    requires forall c :: c in changes ==> Operand(c) <= Range(0, domain) && !IsLazy(c)
    ensures IsExact(RunOf(h, changes, domain))
    decreases |changes|
  {
    hide Range, Step, Operand, IsLazy;
    if changes == [] {
      assert Sound(h, domain);
    } else {
      StepIsSound(h, changes[0], domain);
      ExactStaysExact(h, changes[0], domain);
      EagerRunIsExact(Step(h, changes[0], domain), changes[1..], domain);
    }
  }

  /** A repair after any sequence leaves the exact count. */
  lemma RepairedRunIsExact(h: Header, changes: seq<Change>, domain: nat)
    requires Sound(h, domain)
    requires forall c :: c in changes ==> Operand(c) <= Range(0, domain)
    ensures var r := Step(RunOf(h, changes, domain), Repair, domain);
            !r.stale && r.members == MeaningOf(h.members, changes) && r.stored == |r.members|
  {
    hide Range;
    RunIsSound(h, changes, domain);
  }
}
