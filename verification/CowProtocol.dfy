/** The copy-on-write reference count as a protocol: any number of handles, each driven by its own
    thread, taking the atomic steps of copy, release, write barrier and clone in any interleaving.
    The specification is a map of values copied deeply. */
module CowProtocol {
  import opened Word64

  /** The count word is 32 bits wide. */
  const COUNT_MODULUS: nat := 0x1_0000_0000

  type Handle = nat
  type Payload = nat

  /** A payload: its count word, its contents, and how often it was freed. */
  datatype Block<V> = Block(count: nat, value: V, freed: nat)

  /** What a handle does once its claim on a payload is released. */
  datatype After = Vanish | Install(clone: Payload)

  datatype Phase =
    | Idle(p: Payload)                                     // owns a counted reference
    | Copying(source: Handle, p: Payload)                  // fields copied, count not yet raised
    | Writing(p: Payload)                                  // past the write barrier
    | Cloning(p: Payload)                                  // the barrier saw a count other than 1
    | Releasing(p: Payload, after: After)                  // about to load the count
    | Subtracting(p: Payload, after: After)                // loaded a count other than 1
    | Freeing(p: Payload, subtracted: bool, after: After)  // found to be the last owner

  datatype State<V> = State(handles: map<Handle, Phase>, blocks: map<Payload, Block<V>>)

  datatype Action<V> =
    | Create(h: Handle, p: Payload, v: V)
    | CopyFields(h: Handle, copy: Handle)
    | Raise(h: Handle)                      // fetch_add( 1 )
    | DropBegin(h: Handle)
    | BarrierLoad(h: Handle)                // rc_load( ) == 1 ?
    | Store(h: Handle, v: V)
    | FinishWrite(h: Handle)
    | Clone(h: Handle, clone: Payload)      // allocate and memcpy
    | Load(h: Handle)                       // the load of rc_decrement_is_last
    | Subtract(h: Handle)                   // its fetch_sub( 1 )
    | Free(h: Handle)

  // ---- the steps ---------------------------------------------------------------------------------

  /** A handle another one is being copied from is neither written nor released meanwhile. */
  ghost predicate Unpinned<V>(s: State<V>, h: Handle) {
    forall g :: g in s.handles && s.handles[g].Copying? ==> s.handles[g].source != h
  }

  ghost predicate Enabled<V>(s: State<V>, a: Action<V>) {
    match a
    case Create(h, p, _) => h !in s.handles && p !in s.blocks
    case CopyFields(h, copy) => h in s.handles && s.handles[h].Idle? && copy !in s.handles
    case Raise(h) => h in s.handles && s.handles[h].Copying? && s.handles[h].p in s.blocks
    case DropBegin(h) => h in s.handles && s.handles[h].Idle? && Unpinned(s, h)
    case BarrierLoad(h) => h in s.handles && s.handles[h].Idle? && Unpinned(s, h) && s.handles[h].p in s.blocks
    case Store(h, _) => h in s.handles && s.handles[h].Writing? && s.handles[h].p in s.blocks
    case FinishWrite(h) => h in s.handles && s.handles[h].Writing?
    case Clone(h, q) => h in s.handles && s.handles[h].Cloning? && q !in s.blocks && s.handles[h].p in s.blocks
    case Load(h) => h in s.handles && s.handles[h].Releasing? && s.handles[h].p in s.blocks
    case Subtract(h) => h in s.handles && s.handles[h].Subtracting? && s.handles[h].p in s.blocks
    case Free(h) => h in s.handles && s.handles[h].Freeing? && s.handles[h].p in s.blocks
  }

  function Resumed(handles: map<Handle, Phase>, h: Handle, after: After): map<Handle, Phase> {
    match after
    case Vanish => handles - {h}
    case Install(q) => handles[h := Writing(q)]
  }

  ghost function Apply<V>(s: State<V>, a: Action<V>): State<V>
    requires Enabled(s, a)
  {
    match a
    case Create(h, p, v) => State(s.handles[h := Idle(p)], s.blocks[p := Block(1, v, 0)])
    case CopyFields(h, copy) => s.(handles := s.handles[copy := Copying(h, s.handles[h].p)])
    case Raise(h) =>
      var p := s.handles[h].p;
      var b := s.blocks[p];
      State(s.handles[h := Idle(p)], s.blocks[p := b.(count := (b.count + 1) % COUNT_MODULUS)])
    case DropBegin(h) => s.(handles := s.handles[h := Releasing(s.handles[h].p, Vanish)])
    case BarrierLoad(h) =>
      var p := s.handles[h].p;
      s.(handles := s.handles[h := if s.blocks[p].count == 1 then Writing(p) else Cloning(p)])
    case Store(h, v) =>
      var p := s.handles[h].p;
      s.(blocks := s.blocks[p := s.blocks[p].(value := v)])
    case FinishWrite(h) => s.(handles := s.handles[h := Idle(s.handles[h].p)])
    case Clone(h, q) =>
      var p := s.handles[h].p;
      State(s.handles[h := Releasing(p, Install(q))], s.blocks[q := Block(1, s.blocks[p].value, 0)])
    case Load(h) =>
      var ph := s.handles[h];
      s.(handles := s.handles[h :=
        if s.blocks[ph.p].count == 1 then Freeing(ph.p, false, ph.after) else Subtracting(ph.p, ph.after)])
    case Subtract(h) =>
      var ph := s.handles[h];
      var b := s.blocks[ph.p];
      State(if b.count == 1 then s.handles[h := Freeing(ph.p, true, ph.after)] else Resumed(s.handles, h, ph.after),
            s.blocks[ph.p := b.(count := (b.count + COUNT_MODULUS - 1) % COUNT_MODULUS)])
    case Free(h) =>
      var ph := s.handles[h];
      var b := s.blocks[ph.p];
      State(Resumed(s.handles, h, ph.after), s.blocks[ph.p := b.(freed := b.freed + 1)])
  }

  // ---- ownership ---------------------------------------------------------------------------------

  predicate Installs(ph: Phase, p: Payload) {
    (ph.Releasing? || ph.Subtracting? || ph.Freeing?) && ph.after == Install(p)
  }

  /** The handle has not released its counted reference to p. */
  predicate Holds(ph: Phase, p: Payload) {
    || ((ph.Idle? || ph.Writing? || ph.Cloning? || ph.Releasing? || ph.Subtracting?) && ph.p == p)
    || (ph.Freeing? && ph.p == p && !ph.subtracted)
    || Installs(ph, p)
  }

  /** The handle may still touch p. */
  predicate Refers(ph: Phase, p: Payload) {
    ph.p == p || Installs(ph, p)
  }

  /** The phases in which the handle must be alone on p. */
  predicate Alone(ph: Phase, p: Payload) {
    ((ph.Writing? || ph.Freeing?) && ph.p == p) || Installs(ph, p)
  }

  /** The handles that have not released p. */
  ghost function Owners<V>(s: State<V>, p: Payload): set<Handle> {
    set h | h in s.handles && Holds(s.handles[h], p)
  }

  /** The count word reads 1 exactly for a sole owner as long as there are no more than 2^32 owners. */
  lemma CountReadsOne(owners: nat)
    requires 1 <= owners
    ensures (forall n: nat :: 1 <= n <= owners && n % COUNT_MODULUS == 1 ==> n == 1) <==> owners <= COUNT_MODULUS
  {
    if owners > COUNT_MODULUS {
      var n: nat := COUNT_MODULUS + 1;
      assert n % COUNT_MODULUS == 1 && n != 1;
    }
  }

  /** No payload has more owners than this. */
  ghost predicate OwnersAtMost<V>(s: State<V>, bound: nat) {
    forall p :: p in s.blocks ==> |Owners(s, p)| <= bound
  }

  /** No payload has more owners than the count word can tell apart. */
  ghost predicate Bounded<V>(s: State<V>) {
    OwnersAtMost(s, COUNT_MODULUS)
  }

  ghost predicate HandleOk<V>(s: State<V>, h: Handle)
    requires h in s.handles
  {
    var ph := s.handles[h];
    && (forall p :: Refers(ph, p) ==> p in s.blocks && s.blocks[p].freed == 0)
    && !Installs(ph, ph.p)
    && (ph.Copying? ==> ph.source in s.handles && s.handles[ph.source] == Idle(ph.p))
    && (forall p, g :: Alone(ph, p) && g in s.handles && g != h ==> !Refers(s.handles[g], p))
  }

  ghost predicate BlockOk<V>(s: State<V>, p: Payload)
    requires p in s.blocks
  {
    var b := s.blocks[p];
    && b.freed <= 1
    && (b.freed == 0 ==> b.count == |Owners(s, p)| % COUNT_MODULUS)
    && (b.freed == 0 ==> exists h :: h in s.handles && Refers(s.handles[h], p))
  }

  /** The invariant: counts are exact, nothing referred to is freed, writers and freers are alone, nothing
      is freed twice, and every payload not freed has a handle that will free it. */
  ghost predicate Inv<V>(s: State<V>) {
    && (forall h :: h in s.handles ==> HandleOk(s, h))
    && (forall p :: p in s.blocks ==> BlockOk(s, p))
  }

  // ---- the specification -------------------------------------------------------------------------

  /** The phases in which the handle is still a value of the program. */
  predicate Live(ph: Phase) {
    !((ph.Releasing? || ph.Subtracting? || ph.Freeing?) && ph.after.Vanish?)
  }

  /** The payload the handle's value is read from. */
  function Target(ph: Phase): Payload {
    if (ph.Releasing? || ph.Subtracting? || ph.Freeing?) && ph.after.Install? then ph.after.clone else ph.p
  }

  /** What every live handle reads. */
  ghost function View<V>(s: State<V>): map<Handle, V>
    requires forall h :: h in s.handles ==> Target(s.handles[h]) in s.blocks
  {
    map h | h in s.handles && Live(s.handles[h]) :: s.blocks[Target(s.handles[h])].value
  }

  /** Value semantics: every copy is deep, a store changes one handle. */
  ghost function Values<V>(m: map<Handle, V>, a: Action<V>): map<Handle, V> {
    match a
    case Create(h, _, v) => m[h := v]
    case CopyFields(h, copy) => if h in m then m[copy := m[h]] else m
    case DropBegin(h) => m - {h}
    case Store(h, v) => m[h := v]
    case _ => m
  }

  lemma TargetsExist<V>(s: State<V>)
    requires Inv(s)
    ensures forall h :: h in s.handles ==> Target(s.handles[h]) in s.blocks
  {
    forall h | h in s.handles ensures Target(s.handles[h]) in s.blocks {
      assert HandleOk(s, h);
      assert Refers(s.handles[h], Target(s.handles[h]));
    }
  }

  // ---- what one step changes ---------------------------------------------------------------------

  lemma OwnersOfUpdate<V>(s: State<V>, s': State<V>, h: Handle, ph: Phase, p: Payload)
    requires s'.handles == s.handles[h := ph]
    ensures Owners(s', p) == if Holds(ph, p) then Owners(s, p) + {h} else Owners(s, p) - {h}
  {
  }

  /** The count word in modular arithmetic, for up to 2^32 owners. */
  lemma SoleByCount(owners: set<Handle>, h: Handle, count: nat)
    requires h in owners && |owners| <= COUNT_MODULUS && count == |owners| % COUNT_MODULUS
    ensures count == 1 <==> owners == {h}
    ensures (count + COUNT_MODULUS - 1) % COUNT_MODULUS == |owners - {h}| % COUNT_MODULUS
  {
    var others := owners - {h};
    assert owners == others + {h};
    assert |owners| == |others| + 1;
    if |others| == 0 {
      assert others == {};
    }
  }

  /** For a handle that holds p, the count word reads 1 exactly when it is the only owner. */
  lemma CountTellsSoleOwner<V>(s: State<V>, h: Handle, p: Payload)
    requires Inv(s) && Bounded(s) && h in s.handles && Holds(s.handles[h], p)
    ensures p in s.blocks && s.blocks[p].freed == 0 && h in Owners(s, p)
    ensures s.blocks[p].count == 1 <==> Owners(s, p) == {h}
    ensures (s.blocks[p].count + COUNT_MODULUS - 1) % COUNT_MODULUS == |Owners(s, p) - {h}| % COUNT_MODULUS
  {
    assert p in s.blocks && s.blocks[p].freed == 0 by {
      assert HandleOk(s, h) && Refers(s.handles[h], p);
    }
    assert s.blocks[p].count == |Owners(s, p)| % COUNT_MODULUS by {
      assert BlockOk(s, p);
    }
    hide Inv;
    SoleByCount(Owners(s, p), h, s.blocks[p].count);
  }

  lemma CopySourceOwns<V>(s: State<V>, g: Handle)
    requires Inv(s) && g in s.handles && s.handles[g].Copying?
    ensures s.handles[g].source in Owners(s, s.handles[g].p)
  {
    assert HandleOk(s, g);
  }

  /** A sole owner that nobody copies from is the only handle that may touch the payload. */
  lemma SoleOwnerIsAlone<V>(s: State<V>, h: Handle, p: Payload)
    requires Inv(s) && h in s.handles && Owners(s, p) == {h} && Refers(s.handles[h], p)
    requires Unpinned(s, h)
    ensures forall g :: g in s.handles && g != h ==> !Refers(s.handles[g], p)
  {
    forall g | g in s.handles && g != h ensures !Refers(s.handles[g], p) {
      assert HandleOk(s, g);
      if s.handles[g].Copying? {
        CopySourceOwns(s, g);
      } else {
        assert g !in Owners(s, p);
        assert Refers(s.handles[g], p) ==> Alone(s.handles[g], p);
      }
    }
  }

  /** Only an idle handle is copied from. */
  lemma BusyIsUnpinned<V>(s: State<V>, h: Handle)
    requires Inv(s) && h in s.handles && !s.handles[h].Idle?
    ensures Unpinned(s, h)
  {
    forall g | g in s.handles && s.handles[g].Copying? ensures s.handles[g].source != h {
      assert HandleOk(s, g);
    }
  }

  /** Blocks of payloads whose owners, count word and referrers a step leaves alone stay in order. */
  lemma UntouchedBlock<V>(s: State<V>, s': State<V>, h: Handle, p: Payload)
    requires Inv(s) && p in s.blocks && p in s'.blocks && h in s.handles
    requires s'.blocks[p].count == s.blocks[p].count && s'.blocks[p].freed == s.blocks[p].freed
    requires forall g :: g != h ==> (g in s'.handles <==> g in s.handles)
    requires forall g :: g != h && g in s.handles ==> s'.handles[g] == s.handles[g]
    requires (h in s'.handles && Holds(s'.handles[h], p)) <==> Holds(s.handles[h], p)
    requires Refers(s.handles[h], p) ==> h in s'.handles && Refers(s'.handles[h], p)
    ensures BlockOk(s', p)
  {
    assert BlockOk(s, p);
    assert Owners(s', p) == Owners(s, p);
    if s.blocks[p].freed == 0 {
      var k :| k in s.handles && Refers(s.handles[k], p);
      assert k in s'.handles && Refers(s'.handles[k], p);
    }
  }

  /** In phase ph, handle h would be alone on everything that phase must be alone on. */
  ghost predicate AloneIn<V>(s: State<V>, h: Handle, ph: Phase) {
    forall p, g :: Alone(ph, p) && g in s.handles && g != h ==> !Refers(s.handles[g], p)
  }

  /** A clone not yet installed stays private, and a payload found to be solely owned is private. */
  lemma StaysAlone<V>(s: State<V>, h: Handle, ph: Phase)
    requires Inv(s) && h in s.handles
    requires forall p :: Alone(ph, p) ==> Alone(s.handles[h], p) || (forall g :: g in s.handles && g != h ==> !Refers(s.handles[g], p))
    ensures AloneIn(s, h, ph)
  {
    assert HandleOk(s, h);
    forall p, g | Alone(ph, p) && g in s.handles && g != h ensures !Refers(s.handles[g], p) {
    }
  }

  /** A new handle adds itself to the owners of what it holds, and refers to it. */
  lemma NewHandleBlock<V>(s: State<V>, s': State<V>, h: Handle, p: Payload)
    requires Inv(s) && h !in s.handles && h in s'.handles && s'.handles == s.handles[h := s'.handles[h]]
    ensures Owners(s', p) == if Holds(s'.handles[h], p) then Owners(s, p) + {h} else Owners(s, p)
    ensures Refers(s'.handles[h], p) ==> exists k :: k in s'.handles && Refers(s'.handles[k], p)
    ensures p in s.blocks && s.blocks[p].freed == 0 ==> exists k :: k in s'.handles && Refers(s'.handles[k], p)
    ensures p in s.blocks ==> BlockOk(s, p)
  {
    if p in s.blocks && s.blocks[p].freed == 0 {
      assert BlockOk(s, p);
      var k :| k in s.handles && Refers(s.handles[k], p);
      assert k in s'.handles && Refers(s'.handles[k], p);
    }
  }

  /** A step of h that refers to nothing new leaves every handle in order. */
  lemma HandlesStayOk<V>(s: State<V>, s': State<V>, h: Handle)
    requires Inv(s) && h in s.handles && Unpinned(s, h)
    requires forall g :: g != h ==> (g in s'.handles <==> g in s.handles)
    requires forall g :: g != h && g in s.handles ==> s'.handles[g] == s.handles[g]
    requires forall p, g :: g in s.handles && g != h && Refers(s.handles[g], p) && p in s.blocks && s.blocks[p].freed == 0
               ==> p in s'.blocks && s'.blocks[p].freed == 0
    requires h in s'.handles ==> var ph := s'.handles[h];
               && !ph.Copying? && !Installs(ph, ph.p)
               && (forall p :: Refers(ph, p) ==> Refers(s.handles[h], p) && p in s'.blocks && s'.blocks[p].freed == 0)
               && AloneIn(s, h, ph)
    ensures forall g :: g in s'.handles ==> HandleOk(s', g)
  {
    forall g | g in s'.handles && g != h ensures HandleOk(s', g) {
      assert HandleOk(s, g);
    }
    if h in s'.handles {
      assert HandleOk(s', h);
    }
  }

  // ---- every step keeps the invariant ------------------------------------------------------------

  lemma CreateKeeps<V>(s: State<V>, h: Handle, p: Payload, v: V)
    requires Inv(s) && Enabled(s, Create(h, p, v))
    ensures Inv(Apply(s, Create(h, p, v)))
  {
    var s' := Apply(s, Create(h, p, v));
    forall k | k in s.handles ensures !Refers(s.handles[k], p) {
      assert HandleOk(s, k);
    }
    forall g | g in s'.handles ensures HandleOk(s', g) {
      if g != h {
        assert HandleOk(s, g);
      }
    }
    forall q | q in s'.blocks ensures BlockOk(s', q) {
      NewHandleBlock(s, s', h, q);
      if q == p {
        assert Owners(s, p) == {};
      }
    }
  }

  lemma CopyFieldsKeeps<V>(s: State<V>, h: Handle, copy: Handle)
    requires Inv(s) && Enabled(s, CopyFields(h, copy))
    ensures Inv(Apply(s, CopyFields(h, copy)))
  {
    var s' := Apply(s, CopyFields(h, copy));
    var p := s.handles[h].p;
    assert HandleOk(s, h) && Refers(s.handles[h], p);
    forall g | g in s'.handles ensures HandleOk(s', g) {
      if g != copy {
        assert HandleOk(s, g);
      }
    }
    forall q | q in s'.blocks ensures BlockOk(s', q) {
      NewHandleBlock(s, s', copy, q);
    }
  }

  lemma RaisedBlock<V>(s: State<V>, h: Handle)
    requires Inv(s) && Enabled(s, Raise(h))
    ensures BlockOk(Apply(s, Raise(h)), s.handles[h].p)
  {
    var s' := Apply(s, Raise(h));
    var p := s.handles[h].p;
    assert BlockOk(s, p);
    assert HandleOk(s, h) && Refers(s.handles[h], p);
    hide Inv;
    OwnersOfUpdate(s, s', h, Idle(p), p);
    assert h !in Owners(s, p);
    assert |Owners(s', p)| == |Owners(s, p)| + 1;
    CountSteps(|Owners(s, p)|);
    assert Refers(s'.handles[h], p);
  }

  lemma RaiseKeeps<V>(s: State<V>, h: Handle)
    requires Inv(s) && Enabled(s, Raise(h))
    ensures Inv(Apply(s, Raise(h)))
  {
    var s' := Apply(s, Raise(h));
    var p := s.handles[h].p;
    assert HandleOk(s, h) && Refers(s.handles[h], p);
    BusyIsUnpinned(s, h);
    StaysAlone(s, h, Idle(p));
    HandlesStayOk(s, s', h);
    forall q | q in s'.blocks ensures BlockOk(s', q) {
      if q == p {
        RaisedBlock(s, h);
      } else {
        UntouchedBlock(s, s', h, q);
      }
    }
  }

  /** Steps that only move a handle between phases holding the same payload. */
  lemma PhaseChangeKeeps<V>(s: State<V>, s': State<V>, h: Handle, ph: Phase)
    requires Inv(s) && h in s.handles && s' == s.(handles := s.handles[h := ph])
    requires Unpinned(s, h) && !ph.Copying?
    requires forall p :: Holds(ph, p) <==> Holds(s.handles[h], p)
    requires forall p :: Refers(ph, p) <==> Refers(s.handles[h], p)
    requires Installs(ph, ph.p) ==> Installs(s.handles[h], s.handles[h].p)
    requires AloneIn(s, h, ph)
    ensures Inv(s')
  {
    assert HandleOk(s, h);
    HandlesStayOk(s, s', h);
    forall q | q in s'.blocks ensures BlockOk(s', q) {
      UntouchedBlock(s, s', h, q);
    }
  }

  lemma DropBeginKeeps<V>(s: State<V>, h: Handle)
    requires Inv(s) && Enabled(s, DropBegin(h))
    ensures Inv(Apply(s, DropBegin(h)))
  {
    StaysAlone(s, h, Releasing(s.handles[h].p, Vanish));
    PhaseChangeKeeps(s, Apply(s, DropBegin(h)), h, Releasing(s.handles[h].p, Vanish));
  }

  /** The barrier lets a handle write in place only when it is alone on the payload. */
  lemma BarrierLoadKeeps<V>(s: State<V>, h: Handle)
    requires Inv(s) && Bounded(s) && Enabled(s, BarrierLoad(h))
    ensures Inv(Apply(s, BarrierLoad(h)))
  {
    hide Inv, Bounded, Owners;
    var p := s.handles[h].p;
    CountTellsSoleOwner(s, h, p);
    if s.blocks[p].count == 1 {
      SoleOwnerIsAlone(s, h, p);
      StaysAlone(s, h, Writing(p));
      PhaseChangeKeeps(s, Apply(s, BarrierLoad(h)), h, Writing(p));
    } else {
      StaysAlone(s, h, Cloning(p));
      PhaseChangeKeeps(s, Apply(s, BarrierLoad(h)), h, Cloning(p));
    }
  }

  lemma StoreKeeps<V>(s: State<V>, h: Handle, v: V)
    requires Inv(s) && Enabled(s, Store(h, v))
    ensures Inv(Apply(s, Store(h, v)))
  {
    var s' := Apply(s, Store(h, v));
    forall g | g in s'.handles ensures HandleOk(s', g) {
      assert HandleOk(s, g);
    }
    forall q | q in s'.blocks ensures BlockOk(s', q) {
      UntouchedBlock(s, s', h, q);
    }
  }

  lemma FinishWriteKeeps<V>(s: State<V>, h: Handle)
    requires Inv(s) && Enabled(s, FinishWrite(h))
    ensures Inv(Apply(s, FinishWrite(h)))
  {
    BusyIsUnpinned(s, h);
    StaysAlone(s, h, Idle(s.handles[h].p));
    PhaseChangeKeeps(s, Apply(s, FinishWrite(h)), h, Idle(s.handles[h].p));
  }

  lemma CloneKeeps<V>(s: State<V>, h: Handle, q: Payload)
    requires Inv(s) && Enabled(s, Clone(h, q))
    ensures Inv(Apply(s, Clone(h, q)))
  {
    var s' := Apply(s, Clone(h, q));
    var p := s.handles[h].p;
    BusyIsUnpinned(s, h);
    forall k | k in s.handles ensures !Refers(s.handles[k], q) {
      assert HandleOk(s, k);
    }
    forall g | g in s'.handles ensures HandleOk(s', g) {
      assert HandleOk(s, g);
    }
    forall r | r in s'.blocks ensures BlockOk(s', r) {
      if r == q {
        OwnersOfUpdate(s, s', h, Releasing(p, Install(q)), q);
        assert Owners(s, q) == {};
        assert Owners(s', q) == {h};
        assert Refers(s'.handles[h], q);
      } else {
        UntouchedBlock(s, s', h, r);
      }
    }
  }

  lemma LoadKeeps<V>(s: State<V>, h: Handle)
    requires Inv(s) && Bounded(s) && Enabled(s, Load(h))
    ensures Inv(Apply(s, Load(h)))
  {
    var ph := s.handles[h];
    CountTellsSoleOwner(s, h, ph.p);
    BusyIsUnpinned(s, h);
    if s.blocks[ph.p].count == 1 {
      SoleOwnerIsAlone(s, h, ph.p);
      StaysAlone(s, h, Freeing(ph.p, false, ph.after));
      PhaseChangeKeeps(s, Apply(s, Load(h)), h, Freeing(ph.p, false, ph.after));
    } else {
      StaysAlone(s, h, Subtracting(ph.p, ph.after));
      PhaseChangeKeeps(s, Apply(s, Load(h)), h, Subtracting(ph.p, ph.after));
    }
  }

  /** Releasing a claim leaves the releasing handle with its clone, if it has one, still private. */
  lemma ResumedHandlesOk<V>(s: State<V>, s': State<V>, h: Handle)
    requires Inv(s) && h in s.handles
    requires s.handles[h].Subtracting? || s.handles[h].Freeing?
    requires s'.handles == Resumed(s.handles, h, s.handles[h].after)
    requires forall p :: p in s.blocks ==> p in s'.blocks
    requires forall p :: p in s.blocks && s'.blocks[p].freed != s.blocks[p].freed ==> p == s.handles[h].p && s.handles[h].Freeing?
    ensures forall g :: g in s'.handles ==> HandleOk(s', g)
  {
    var ph := s.handles[h];
    BusyIsUnpinned(s, h);
    assert HandleOk(s, h);
    assert ph.Freeing? ==> Alone(ph, ph.p);
    if ph.after.Install? {
      var q := ph.after.clone;
      assert Installs(ph, q) && Refers(ph, q) && q != ph.p;
      StaysAlone(s, h, Writing(q));
    }
    HandlesStayOk(s, s', h);
  }

  lemma ResumedBlocksOk<V>(s: State<V>, s': State<V>, h: Handle)
    requires Inv(s) && h in s.handles
    requires s.handles[h].Subtracting? || s.handles[h].Freeing?
    requires s'.handles == Resumed(s.handles, h, s.handles[h].after)
    requires s'.blocks.Keys == s.blocks.Keys
    requires forall q :: q in s.blocks && q != s.handles[h].p ==> s'.blocks[q] == s.blocks[q]
    ensures forall q :: q in s'.blocks && q != s.handles[h].p ==> BlockOk(s', q)
  {
    forall q | q in s'.blocks && q != s.handles[h].p ensures BlockOk(s', q) {
      UntouchedBlock(s, s', h, q);
    }
  }

  /** A decrement that was the last leaves the handle to free the payload, alone. */
  lemma LastSubtractKeeps<V>(s: State<V>, h: Handle)
    requires Inv(s) && Bounded(s) && Enabled(s, Subtract(h)) && s.blocks[s.handles[h].p].count == 1
    ensures Inv(Apply(s, Subtract(h)))
  {
    var s' := Apply(s, Subtract(h));
    var ph := s.handles[h];
    CountTellsSoleOwner(s, h, ph.p);
    BusyIsUnpinned(s, h);
    SoleOwnerIsAlone(s, h, ph.p);
    StaysAlone(s, h, Freeing(ph.p, true, ph.after));
    assert HandleOk(s, h);
    HandlesStayOk(s, s', h);
    forall q | q in s'.blocks ensures BlockOk(s', q) {
      if q == ph.p {
        LastSubtractedBlock(s, h);
      } else {
        UntouchedBlock(s, s', h, q);
      }
    }
  }

  lemma LastSubtractedBlock<V>(s: State<V>, h: Handle)
    requires Inv(s) && Bounded(s) && Enabled(s, Subtract(h)) && s.blocks[s.handles[h].p].count == 1
    ensures BlockOk(Apply(s, Subtract(h)), s.handles[h].p)
  {
    var s' := Apply(s, Subtract(h));
    var ph := s.handles[h];
    CountTellsSoleOwner(s, h, ph.p);
    assert BlockOk(s, ph.p) && HandleOk(s, h);
    hide Inv, Bounded;
    OwnersOfUpdate(s, s', h, Freeing(ph.p, true, ph.after), ph.p);
    assert Owners(s', ph.p) == {};
    assert Refers(s'.handles[h], ph.p);
  }

  lemma SubtractedBlock<V>(s: State<V>, s': State<V>, h: Handle, p: Payload)
    requires Inv(s) && Bounded(s) && h in s.handles && s.handles[h].Subtracting? && s.handles[h].p == p
    requires p in s.blocks && s.blocks[p].count != 1
    requires s'.handles == Resumed(s.handles, h, s.handles[h].after)
    requires p in s'.blocks && s'.blocks[p].freed == s.blocks[p].freed
    requires s'.blocks[p].count == (s.blocks[p].count + COUNT_MODULUS - 1) % COUNT_MODULUS
    ensures BlockOk(s', p)
  {
    CountTellsSoleOwner(s, h, p);
    assert !Installs(s.handles[h], p) by {
      assert HandleOk(s, h);
    }
    hide Inv, Bounded;
    var others := Owners(s, p) - {h};
    assert Owners(s', p) == others;
    assert others != {} by {
      assert Owners(s, p) != {h};
    }
    var other :| other in others;
    assert other in s'.handles && Refers(s'.handles[other], p);
  }

  /** A decrement that was not the last leaves another handle to free the payload. */
  lemma OtherSubtractKeeps<V>(s: State<V>, h: Handle)
    requires Inv(s) && Bounded(s) && Enabled(s, Subtract(h)) && s.blocks[s.handles[h].p].count != 1
    ensures Inv(Apply(s, Subtract(h)))
  {
    var s' := Apply(s, Subtract(h));
    ResumedHandlesOk(s, s', h);
    ResumedBlocksOk(s, s', h);
    SubtractedBlock(s, s', h, s.handles[h].p);
  }

  lemma FreeKeeps<V>(s: State<V>, h: Handle)
    requires Inv(s) && Enabled(s, Free(h))
    ensures Inv(Apply(s, Free(h)))
  {
    var s' := Apply(s, Free(h));
    ResumedHandlesOk(s, s', h);
    ResumedBlocksOk(s, s', h);
    assert BlockOk(s, s.handles[h].p) && HandleOk(s, h) && Refers(s.handles[h], s.handles[h].p);
  }

  lemma StepKeepsInv<V>(s: State<V>, a: Action<V>)
    requires Inv(s) && Bounded(s) && Enabled(s, a)
    ensures Inv(Apply(s, a))
  {
    match a
    case Create(h, p, v) => CreateKeeps(s, h, p, v);
    case CopyFields(h, copy) => CopyFieldsKeeps(s, h, copy);
    case Raise(h) => RaiseKeeps(s, h);
    case DropBegin(h) => DropBeginKeeps(s, h);
    case BarrierLoad(h) => BarrierLoadKeeps(s, h);
    case Store(h, v) => StoreKeeps(s, h, v);
    case FinishWrite(h) => FinishWriteKeeps(s, h);
    case Clone(h, q) => CloneKeeps(s, h, q);
    case Load(h) => LoadKeeps(s, h);
    case Subtract(h) => if s.blocks[s.handles[h].p].count == 1 { LastSubtractKeeps(s, h); } else { OtherSubtractKeeps(s, h); }
    case Free(h) => FreeKeeps(s, h);
  }

  // ---- every step refines value semantics --------------------------------------------------------

  ghost predicate TargetsIn<V>(s: State<V>) {
    forall h :: h in s.handles ==> Target(s.handles[h]) in s.blocks
  }

  /** A handle that is past the write barrier shares its payload with no live handle. */
  lemma WriterReadsAlone<V>(s: State<V>, h: Handle)
    requires Inv(s) && h in s.handles && s.handles[h].Writing?
    ensures forall g :: g in s.handles && g != h && Live(s.handles[g]) ==> Target(s.handles[g]) != s.handles[h].p
  {
    assert HandleOk(s, h) && Alone(s.handles[h], s.handles[h].p);
    forall g | g in s.handles && g != h && Live(s.handles[g]) ensures Target(s.handles[g]) != s.handles[h].p {
      assert Refers(s.handles[g], Target(s.handles[g]));
    }
  }

  lemma StoreRefines<V>(s: State<V>, h: Handle, v: V)
    requires Inv(s) && Enabled(s, Store(h, v)) && TargetsIn(s) && TargetsIn(Apply(s, Store(h, v)))
    ensures View(Apply(s, Store(h, v))) == View(s)[h := v]
  {
    WriterReadsAlone(s, h);
    hide Inv, Alone, Refers;
  }

  lemma CopyRefines<V>(s: State<V>, h: Handle, copy: Handle)
    requires Enabled(s, CopyFields(h, copy)) && TargetsIn(s) && TargetsIn(Apply(s, CopyFields(h, copy)))
    ensures View(Apply(s, CopyFields(h, copy))) == View(s)[copy := View(s)[h]]
    ensures h in View(s)
  {
  }

  lemma CreateRefines<V>(s: State<V>, h: Handle, p: Payload, v: V)
    requires Enabled(s, Create(h, p, v)) && TargetsIn(s) && TargetsIn(Apply(s, Create(h, p, v)))
    ensures View(Apply(s, Create(h, p, v))) == View(s)[h := v]
  {
  }

  lemma DropRefines<V>(s: State<V>, h: Handle)
    requires Enabled(s, DropBegin(h)) && TargetsIn(s) && TargetsIn(Apply(s, DropBegin(h)))
    ensures View(Apply(s, DropBegin(h))) == View(s) - {h}
  {
  }

  /** The steps that are not seen: the same handles are live and read what they read. */
  lemma QuietStepRefines<V>(s: State<V>, s': State<V>, h: Handle)
    requires TargetsIn(s) && TargetsIn(s') && h in s.handles
    requires forall g :: g != h ==> (g in s'.handles <==> g in s.handles)
    requires forall g :: g != h && g in s.handles ==> s'.handles[g] == s.handles[g]
    requires forall p :: p in s.blocks ==> p in s'.blocks && s'.blocks[p].value == s.blocks[p].value
    requires Live(s.handles[h]) <==> h in s'.handles && Live(s'.handles[h])
    requires Live(s.handles[h]) ==> s'.blocks[Target(s'.handles[h])].value == s.blocks[Target(s.handles[h])].value
    ensures View(s') == View(s)
  {
  }

  /** One step of the protocol is one step of deep copying, or none. */
  lemma StepRefines<V>(s: State<V>, a: Action<V>)
    requires Inv(s) && Bounded(s) && Enabled(s, a)
    ensures Inv(Apply(s, a)) && TargetsIn(s) && TargetsIn(Apply(s, a))
    ensures View(Apply(s, a)) == Values(View(s), a)
  {
    StepKeepsInv(s, a);
    TargetsExist(s);
    TargetsExist(Apply(s, a));
    match a
    case Create(h, p, v) => CreateRefines(s, h, p, v);
    case CopyFields(h, copy) => CopyRefines(s, h, copy);
    case DropBegin(h) => DropRefines(s, h);
    case Store(h, v) => StoreRefines(s, h, v);
    case _ => QuietActionRefines(s, a);
  }

  lemma QuietActionRefines<V>(s: State<V>, a: Action<V>)
    requires Enabled(s, a) && TargetsIn(s) && TargetsIn(Apply(s, a))
    requires !a.Create? && !a.CopyFields? && !a.DropBegin? && !a.Store?
    ensures View(Apply(s, a)) == View(s)
  {
    hide View;
    QuietStepRefines(s, Apply(s, a), a.h);
  }

  // ---- whole runs --------------------------------------------------------------------------------

  function Initial<V>(): State<V> {
    State(map[], map[])
  }

  /** The actions can be taken one after the other from s, never with more than `bound` owners of a payload,
      and lead to t. */
  ghost predicate Runs<V>(s: State<V>, actions: seq<Action<V>>, t: State<V>, bound: nat)
    decreases |actions|
  {
    if actions == [] then s == t
    else
      var next := actions[0];
      Enabled(s, next) && OwnersAtMost(Apply(s, next), bound) && Runs(Apply(s, next), actions[1..], t, bound)
  }

  ghost function ValuesAfter<V>(m: map<Handle, V>, actions: seq<Action<V>>): map<Handle, V>
    decreases |actions|
  {
    if actions == [] then m else ValuesAfter(Values(m, actions[0]), actions[1..])
  }

  lemma {:induction false} RunRefinesFrom<V>(s: State<V>, actions: seq<Action<V>>, t: State<V>, bound: nat)
    requires bound <= COUNT_MODULUS && Inv(s) && Bounded(s) && TargetsIn(s) && Runs(s, actions, t, bound)
    ensures Inv(t) && Bounded(t) && TargetsIn(t) && View(t) == ValuesAfter(View(s), actions)
    decreases |actions|
  {
    hide Inv, Values, View, Apply, Enabled, TargetsIn, Owners;
    if actions != [] {
      StepRefines(s, actions[0]);
      RunRefinesFrom(Apply(s, actions[0]), actions[1..], t, bound);
    }
  }

  /** Every run of any number of handles reads as if every copy had been deep, and keeps the invariant. */
  lemma RunRefinesDeepCopies<V>(actions: seq<Action<V>>, t: State<V>, bound: nat)
    requires bound <= COUNT_MODULUS && Runs(Initial<V>(), actions, t, bound)
    ensures Inv(t) && TargetsIn(t) && View(t) == ValuesAfter(map[], actions)
  {
    assert View(Initial<V>()) == map[];
    RunRefinesFrom(Initial<V>(), actions, t, bound);
  }

  lemma BlockMeaning<V>(t: State<V>, p: Payload)
    requires Inv(t) && p in t.blocks
    ensures t.blocks[p].freed <= 1
    ensures t.blocks[p].freed == 0 && |Owners(t, p)| < COUNT_MODULUS ==> t.blocks[p].count == |Owners(t, p)|
    ensures t.blocks[p].freed == 0 ==> exists h :: h in t.handles && Refers(t.handles[h], p)
    ensures t.blocks[p].freed == 1 ==> forall h :: h in t.handles ==> !Refers(t.handles[h], p)
  {
    assert BlockOk(t, p);
    forall h | h in t.handles && t.blocks[p].freed == 1 ensures !Refers(t.handles[h], p) {
      assert HandleOk(t, h);
    }
  }

  /** No payload is freed twice or while a handle may touch it, none that is not freed is without a handle
      that will free it, its count is the number of handles that have not released it, and once every handle is
      gone each payload has been freed exactly once. */
  lemma RunFreesEachPayloadOnce<V>(actions: seq<Action<V>>, t: State<V>, bound: nat, p: Payload)
    requires bound <= COUNT_MODULUS && Runs(Initial<V>(), actions, t, bound) && p in t.blocks
    ensures t.blocks[p].freed <= 1
    ensures t.blocks[p].freed == 0 ==> exists h :: h in t.handles && Refers(t.handles[h], p)
    ensures t.blocks[p].freed == 1 ==> forall h :: h in t.handles ==> !Refers(t.handles[h], p)
    ensures t.blocks[p].freed == 0 && |Owners(t, p)| < COUNT_MODULUS ==> t.blocks[p].count == |Owners(t, p)|
    ensures t.handles == map[] ==> t.blocks[p].freed == 1
  {
    hide Runs, Inv, View, ValuesAfter, TargetsIn, Owners, Refers;
    RunRefinesDeepCopies(actions, t, bound);
    BlockMeaning(t, p);
  }

  /** A handle past the write barrier is alone on its payload in every state of every run. */
  lemma WriterIsAlone<V>(actions: seq<Action<V>>, t: State<V>, bound: nat, h: Handle, g: Handle)
    requires bound <= COUNT_MODULUS && Runs(Initial<V>(), actions, t, bound)
    requires h in t.handles && t.handles[h].Writing? && g in t.handles && g != h
    ensures !Refers(t.handles[g], t.handles[h].p)
  {
    RunRefinesDeepCopies(actions, t, bound);
    assert HandleOk(t, h) && Alone(t.handles[h], t.handles[h].p);
  }

  // ---- the limit of the 32-bit count -------------------------------------------------------------

  /** n idle handles on one payload. */
  ghost function Crowd<V>(n: nat, v: V): State<V> {
    State(map h | h in Range(0, n) :: Idle(0), map[0 := Block(n % COUNT_MODULUS, v, 0)])
  }

  /** The barrier is right for a crowd of n, letting handle 0 write in place only when it is alone,
      exactly when n is 1 or the count word does not read 1. */
  lemma BarrierIsRight<V>(n: nat, v: V)
    requires n > 0
    ensures Enabled(Crowd(n, v), BarrierLoad(0))
    ensures (Apply(Crowd(n, v), BarrierLoad(0)).handles[0].Writing? <==> n == 1) <==> (n == 1 || n % COUNT_MODULUS != 1)
  {
  }

  lemma CountSteps(n: nat)
    ensures (n % COUNT_MODULUS + 1) % COUNT_MODULUS == (n + 1) % COUNT_MODULUS
  {
  }

  /** One more copy of a crowd is taken in two steps. */
  lemma CrowdGrows<V>(n: nat, v: V)
    requires n > 0
    ensures Enabled(Crowd(n, v), CopyFields(0, n))
    ensures Enabled(Apply(Crowd(n, v), CopyFields(0, n)), Raise(n))
    ensures Apply(Apply(Crowd(n, v), CopyFields(0, n)), Raise(n)) == Crowd(n + 1, v)
  {
    hide Range;
    var s := Crowd(n, v);
    var s1 := Apply(s, CopyFields(0, n));
    assert n in s1.handles && s1.handles[n] == Copying(0, 0);
    var s2 := Apply(s1, Raise(n));
    assert s2.handles == Crowd(n + 1, v).handles;
    CountSteps(n);
    hide COUNT_MODULUS;
    assert s2.blocks == Crowd(n + 1, v).blocks;
  }

  /** The run that builds a crowd: one handle is created and copied n - 1 times. */
  ghost function CrowdActions<V>(n: nat, v: V): seq<Action<V>>
    requires n > 0
  {
    if n == 1 then [Create(0, 0, v)] else CrowdActions(n - 1, v) + [CopyFields(0, n - 1)] + [Raise(n - 1)]
  }

  lemma {:induction false} RunOneMore<V>(s: State<V>, actions: seq<Action<V>>, t: State<V>, a: Action<V>, bound: nat)
    requires Runs(s, actions, t, bound) && Enabled(t, a) && OwnersAtMost(Apply(t, a), bound)
    ensures Runs(s, actions + [a], Apply(t, a), bound)
    decreases |actions|
  {
    hide Enabled, Apply, OwnersAtMost;
    if actions == [] {
      assert (actions + [a])[1..] == [];
    } else {
      assert (actions + [a])[1..] == actions[1..] + [a];
      RunOneMore(Apply(s, actions[0]), actions[1..], t, a, bound);
    }
  }

  lemma {:induction false} ValuesOneMore<V>(m: map<Handle, V>, actions: seq<Action<V>>, a: Action<V>)
    ensures ValuesAfter(m, actions + [a]) == Values(ValuesAfter(m, actions), a)
    decreases |actions|
  {
    hide Values;
    if actions == [] {
      assert (actions + [a])[1..] == [];
    } else {
      assert (actions + [a])[1..] == actions[1..] + [a];
      ValuesOneMore(Values(m, actions[0]), actions[1..], a);
    }
  }

  lemma CrowdIsOwners<V>(n: nat, v: V)
    ensures OwnersAtMost(Crowd(n, v), n)
  {
    assert Owners(Crowd(n, v), 0) == Range(0, n);
  }

  lemma CopyingCrowdIsOwners<V>(n: nat, v: V)
    requires n > 0
    ensures Enabled(Crowd(n, v), CopyFields(0, n)) && OwnersAtMost(Apply(Crowd(n, v), CopyFields(0, n)), n)
  {
    assert Owners(Apply(Crowd(n, v), CopyFields(0, n)), 0) == Range(0, n);
  }

  lemma MoreOwnersAllowed<V>(s: State<V>, bound: nat, more: nat)
    requires OwnersAtMost(s, bound) && bound <= more
    ensures OwnersAtMost(s, more)
  {
    hide Owners;
  }

  lemma CrowdOfOne<V>(v: V)
    ensures Enabled(Initial<V>(), Create(0, 0, v))
    ensures Apply(Initial<V>(), Create(0, 0, v)) == Crowd(1, v)
    ensures ValuesAfter(map[], [Create(0, 0, v)]) == map h | h in Range(0, 1) :: v
  {
    assert ValuesAfter(map[], [Create(0, 0, v)]) == Values(map[], Create(0, 0, v));
  }

  /** A crowd of any size is reached from nothing, and never has more owners on the way; deep copies would all
      hold v. */
  lemma {:induction false} CrowdIsReached<V>(n: nat, v: V, bound: nat)
    requires 0 < n <= bound
    ensures Runs(Initial<V>(), CrowdActions(n, v), Crowd(n, v), bound)
    ensures ValuesAfter(map[], CrowdActions(n, v)) == map h | h in Range(0, n) :: v
    decreases n
  {
    hide Range, Runs, Enabled, Apply, Crowd, ValuesAfter, OwnersAtMost;
    var empty: map<Handle, V> := map[];
    CrowdIsOwners(n, v);
    MoreOwnersAllowed(Crowd(n, v), n, bound);
    if n == 1 {
      CrowdOfOne(v);
      NoSteps(Initial<V>(), bound);
      RunOneMore(Initial<V>(), [], Initial<V>(), Create(0, 0, v), bound);
      assert [] + [Create(0, 0, v)] == CrowdActions(1, v);
    } else {
      var k := n - 1;
      var before, copy, raise := CrowdActions(k, v), CopyFields(0, k), Raise(k);
      CrowdIsReached(k, v, bound);
      CrowdGrows(k, v);
      CopyingCrowdIsOwners(k, v);
      MoreOwnersAllowed(Apply(Crowd(k, v), copy), k, bound);
      RunOneMore(Initial<V>(), before, Crowd(k, v), copy, bound);
      RunOneMore(Initial<V>(), before + [copy], Apply(Crowd(k, v), copy), raise, bound);
      ValuesOneMore(empty, before, copy);
      ValuesOneMore(empty, before + [copy], raise);
      assert 0 in Range(0, k);
    }
  }

  lemma NoSteps<V>(s: State<V>, bound: nat)
    ensures Runs(s, [], s, bound)
  {
  }

  /** The crowd with handle 0 past the barrier. */
  ghost function Admitted<V>(n: nat, v: V): State<V> {
    Crowd(n, v).(handles := Crowd(n, v).handles[0 := Writing(0)])
  }

  /** A crowd whose count word reads 1 by wrapping: handle 0 passes the barrier. */
  lemma CrowdIsAdmitted<V>(n: nat, v: V)
    requires n > 1 && n % COUNT_MODULUS == 1
    ensures Enabled(Crowd(n, v), BarrierLoad(0)) && Apply(Crowd(n, v), BarrierLoad(0)) == Admitted(n, v)
    ensures OwnersAtMost(Admitted(n, v), n)
  {
    hide Range;
    BarrierIsRight(n, v);
    assert Owners(Admitted(n, v), 0) == Range(0, n);
  }

  /** Its store is read through every handle. */
  lemma CrowdIsWrittenThrough<V>(n: nat, v: V, w: V)
    requires n > 1
    ensures Enabled(Admitted(n, v), Store(0, w))
    ensures var t := Apply(Admitted(n, v), Store(0, w)); OwnersAtMost(t, n) && TargetsIn(t) && 1 in View(t) && View(t)[1] == w
  {
    hide Range;
    var t := Apply(Admitted(n, v), Store(0, w));
    assert Owners(t, 0) == Range(0, n);
    assert t.handles[1] == Idle(0);
  }

  /** A run in which a store is seen through another handle. */
  lemma SharedWrite<V>(n: nat, v: V, w: V, bound: nat) returns (actions: seq<Action<V>>, t: State<V>)
    requires 1 < n <= bound && n % COUNT_MODULUS == 1 && v != w
    ensures Runs(Initial<V>(), actions, t, bound) && TargetsIn(t) && View(t) != ValuesAfter(map[], actions)
  {
    hide Range, Runs, Enabled, Apply, Crowd, Admitted, ValuesAfter, OwnersAtMost, View, TargetsIn;
    var empty: map<Handle, V> := map[];
    var s, load: Action<V>, store := Crowd(n, v), BarrierLoad(0), Store(0, w);
    CrowdIsReached(n, v, bound);
    CrowdIsAdmitted(n, v);
    CrowdIsWrittenThrough(n, v, w);
    actions := CrowdActions(n, v) + [load] + [store];
    t := Apply(Apply(s, load), store);
    MoreOwnersAllowed(Apply(s, load), n, bound);
    MoreOwnersAllowed(t, n, bound);
    RunOneMore(Initial<V>(), CrowdActions(n, v), s, load, bound);
    RunOneMore(Initial<V>(), CrowdActions(n, v) + [load], Apply(s, load), store, bound);
    ValuesOneMore(empty, CrowdActions(n, v), load);
    ValuesOneMore(empty, CrowdActions(n, v) + [load], store);
    assert 1 in Range(0, n);
    assert ValuesAfter(empty, actions)[1] == v;
  }

  /** Every run within the bound reads as if every copy had been deep. */
  ghost predicate RefinesWithin<V(!new)>(bound: nat) {
    forall actions: seq<Action<V>>, t: State<V> :: Runs(Initial<V>(), actions, t, bound)
      ==> TargetsIn(t) && View(t) == ValuesAfter(map[], actions)
  }

  /** Copy-on-write refines deep copying over all runs exactly as long as no payload may get more than 2^32
      owners. */
  lemma RefinesUpToTheCount<V(!new)>(bound: nat, v: V, w: V)
    requires v != w
    ensures RefinesWithin<V>(bound) <==> bound <= COUNT_MODULUS
  {
    hide Runs, ValuesAfter, View;
    if bound <= COUNT_MODULUS {
      forall actions: seq<Action<V>>, t: State<V> | Runs(Initial<V>(), actions, t, bound)
        ensures TargetsIn(t) && View(t) == ValuesAfter(map[], actions) {
        RunRefinesDeepCopies(actions, t, bound);
      }
    } else {
      CountReadsOne(bound);
      var n: nat :| 1 <= n <= bound && n % COUNT_MODULUS == 1 && n != 1;
      var actions, t := SharedWrite(n, v, w, bound);
    }
  }
}
