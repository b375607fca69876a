/** Progress of the reference count protocol: every release completes in a few steps of its own, every
    write barrier is passed, and a state can be run down to no handles and no live payload. */
module CowProgress {
  import opened Word64
  import opened CowProtocol

  // ---- a release completes -----------------------------------------------------------------------

  /** The handle is letting go of a payload. */
  predicate LettingGo(ph: Phase) {
    ph.Releasing? || ph.Subtracting? || ph.Freeing?
  }

  /** How many steps of its own it can still take at most. */
  function StepsLeft(ph: Phase): (n: nat)
    ensures n <= 3
    ensures n == 0 <==> !LettingGo(ph)
  {
    match ph
    case Releasing(_, _) => 3
    case Subtracting(_, _) => 2
    case Freeing(_, _, _) => 1
    case _ => 0
  }

  function OwnStep<V>(h: Handle, ph: Phase): (a: Action<V>)
    requires LettingGo(ph)
    ensures a.h == h
  {
    match ph
    case Releasing(_, _) => Load(h)
    case Subtracting(_, _) => Subtract(h)
    case Freeing(_, _, _) => Free(h)
  }

  /** The release is over: the handle is gone, or writes its clone. */
  ghost predicate Released<V>(s: State<V>, h: Handle, after: After) {
    match after
    case Vanish => h !in s.handles
    case Install(q) => h in s.handles && s.handles[h] == Writing(q)
  }

  /** A handle that is letting go can take its next step, and can take no other. */
  lemma OwnStepIsForced<V>(s: State<V>, h: Handle, a: Action<V>)
    requires Inv(s) && h in s.handles && LettingGo(s.handles[h])
    ensures Enabled(s, OwnStep(h, s.handles[h]))
    ensures Enabled(s, a) && a.h == h ==> a == OwnStep(h, s.handles[h])
  {
    assert HandleOk(s, h) && Refers(s.handles[h], s.handles[h].p);
  }

  /** What the step leaves h in: out of the release, or with fewer steps to take. The verdict of the load and of
      the subtraction is the handle's being the only owner. */
  ghost predicate Advanced<V>(s: State<V>, t: State<V>, h: Handle)
    requires h in s.handles && LettingGo(s.handles[h])
  {
    var ph := s.handles[h];
    if ph.Freeing? || (ph.Subtracting? && Owners(s, ph.p) != {h}) then t.handles == Resumed(s.handles, h, ph.after)
    else
      && h in t.handles && t.handles == s.handles[h := t.handles[h]]
      && t.handles[h].p == ph.p && LettingGo(t.handles[h]) && t.handles[h].after == ph.after
      && StepsLeft(t.handles[h]) < StepsLeft(ph)
      && (t.handles[h].Freeing? <==> Owners(s, ph.p) == {h})
      && (t.handles[h].Subtracting? ==> Owners(t, ph.p) == Owners(s, ph.p))
  }

  lemma ReadsOneWhenSole<V>(s: State<V>, h: Handle, p: Payload)
    requires Inv(s) && Bounded(s) && h in s.handles && Holds(s.handles[h], p)
    ensures p in s.blocks && (s.blocks[p].count == 1 <==> Owners(s, p) == {h})
  {
    hide Inv, Bounded, Owners;
    CountTellsSoleOwner(s, h, p);
  }

  lemma OwnStepAdvances<V>(s: State<V>, h: Handle)
    requires Inv(s) && Bounded(s) && h in s.handles && LettingGo(s.handles[h])
    ensures Enabled(s, OwnStep(h, s.handles[h]))
    ensures Advanced(s, Apply(s, OwnStep(h, s.handles[h])), h)
  {
    var ph := s.handles[h];
    OwnStepIsForced(s, h, OwnStep(h, ph));
    if !ph.Freeing? {
      ReadsOneWhenSole(s, h, ph.p);
    }
    hide Inv, Bounded;
    if ph.Releasing? && Owners(s, ph.p) != {h} {
      assert Owners(Apply(s, Load(h)), ph.p) == Owners(s, ph.p);
    }
    hide Owners;
  }

  /** The step touches the one payload, not its contents, and frees it only as the last of a release. */
  lemma OwnStepBlocks<V>(s: State<V>, h: Handle)
    requires Inv(s) && h in s.handles && LettingGo(s.handles[h])
    ensures Enabled(s, OwnStep(h, s.handles[h]))
    ensures var ph, t := s.handles[h], Apply(s, OwnStep(h, s.handles[h]));
            && ph.p in s.blocks && ph.p in t.blocks
            && t.blocks == s.blocks[ph.p := t.blocks[ph.p]] && t.blocks[ph.p].value == s.blocks[ph.p].value
            && s.blocks[ph.p].freed == 0 && t.blocks[ph.p].freed == if ph.Freeing? then 1 else 0
  {
    OwnStepIsForced(s, h, OwnStep(h, s.handles[h]));
    assert HandleOk(s, h) && Refers(s.handles[h], s.handles[h].p);
    hide Inv;
  }

  lemma ReleasedWhenResumed<V>(s: State<V>, t: State<V>, h: Handle, after: After)
    requires t.handles == Resumed(s.handles, h, after)
    ensures Released(t, h, after)
  {
  }

  /** No other handle's step changes what a handle is doing. */
  lemma OthersLeaveIt<V>(s: State<V>, a: Action<V>, h: Handle)
    requires Enabled(s, a) && h in s.handles && a.h != h
    ensures h in Apply(s, a).handles && Apply(s, a).handles[h] == s.handles[h]
  {
  }

  /** How many of the actions are steps of h. */
  ghost function OwnActions<V>(actions: seq<Action<V>>, h: Handle): nat
    decreases |actions|
  {
    if actions == [] then 0 else OwnActions(actions[1..], h) + if actions[0].h == h then 1 else 0
  }

  lemma RunsLonger<V>(s: State<V>, actions: seq<Action<V>>, k: nat, mid: State<V>, bound: nat)
    requires 0 < |actions| && k < |actions| && Enabled(s, actions[0]) && OwnersAtMost(Apply(s, actions[0]), bound)
    requires Runs(Apply(s, actions[0]), actions[1..][..k], mid, bound)
    ensures Runs(s, actions[..k + 1], mid, bound)
  {
    hide Enabled, Apply, OwnersAtMost;
    assert actions[..k + 1][1..] == actions[1..][..k];
  }

  /** In any interleaving, a handle that is letting go is done by its third step at the latest. */
  lemma {:induction false} ReleaseCompletes<V>(s: State<V>, actions: seq<Action<V>>, t: State<V>, bound: nat, h: Handle)
    returns (k: nat, mid: State<V>)
    requires bound <= COUNT_MODULUS && Inv(s) && OwnersAtMost(s, bound) && Runs(s, actions, t, bound)
    requires h in s.handles && LettingGo(s.handles[h]) && OwnActions(actions, h) >= StepsLeft(s.handles[h])
    ensures k <= |actions| && Runs(s, actions[..k], mid, bound) && Released(mid, h, s.handles[h].after)
    decreases |actions|
  {
    hide Inv, Apply, Enabled, Owners, Released, LettingGo;
    var a := actions[0];
    var s1 := Apply(s, a);
    WithinCount(s, bound);
    StepKeepsInv(s, a);
    if a.h == h {
      OwnStepIsForced(s, h, a);
      OwnStepAdvances(s, h);
      if s1.handles == Resumed(s.handles, h, s.handles[h].after) {
        ReleasedWhenResumed(s, s1, h, s.handles[h].after);
        k, mid := 1, s1;
        NoSteps(s1, bound);
        assert actions[1..][..0] == [];
        RunsLonger(s, actions, 0, mid, bound);
        return;
      }
    } else {
      OthersLeaveIt(s, a, h);
    }
    k, mid := ReleaseCompletes(s1, actions[1..], t, bound, h);
    if k < |actions| {
      RunsLonger(s, actions, k, mid, bound);
      k := k + 1;
    }
  }

  lemma WithinCount<V>(s: State<V>, bound: nat)
    requires OwnersAtMost(s, bound) && bound <= COUNT_MODULUS
    ensures Bounded(s)
  {
    hide Owners;
  }

  // ---- on its own --------------------------------------------------------------------------------

  /** A step that gives no payload another owner. */
  predicate GivesNoOwner<V>(a: Action<V>) {
    !a.Create? && !a.Raise? && !a.Clone?
  }

  lemma OwnersShrink<V>(s: State<V>, a: Action<V>, bound: nat)
    requires Enabled(s, a) && GivesNoOwner(a) && OwnersAtMost(s, bound)
    ensures OwnersAtMost(Apply(s, a), bound)
  {
    var t := Apply(s, a);
    forall p | p in t.blocks ensures |Owners(t, p)| <= bound {
      assert p in s.blocks;
      assert Owners(t, p) <= Owners(s, p);
      SubsetIsNoLarger(Owners(t, p), Owners(s, p));
    }
  }

  /** Left to itself, a release takes at most three steps, changes nothing else, and frees the payload exactly
      when the handle was its only owner or had already been found to be the last. */
  lemma {:induction false} ReleaseAlone<V>(s: State<V>, h: Handle, bound: nat) returns (actions: seq<Action<V>>, t: State<V>)
    requires bound <= COUNT_MODULUS && Inv(s) && OwnersAtMost(s, bound) && h in s.handles && LettingGo(s.handles[h])
    ensures |actions| <= StepsLeft(s.handles[h]) && forall i :: 0 <= i < |actions| ==> actions[i].h == h
    ensures Runs(s, actions, t, bound) && Inv(t) && OwnersAtMost(t, bound)
    ensures t.handles == Resumed(s.handles, h, s.handles[h].after)
    ensures var p := s.handles[h].p;
            && p in s.blocks && p in t.blocks && t.blocks == s.blocks[p := t.blocks[p]]
            && t.blocks[p].value == s.blocks[p].value
            && t.blocks[p].freed == if s.handles[h].Freeing? || Owners(s, p) == {h} then 1 else 0
    decreases StepsLeft(s.handles[h])
  {
    hide Inv, Apply, Enabled, Owners, OwnersAtMost;
    var ph := s.handles[h];
    var a: Action<V> := OwnStep(h, ph);
    WithinCount(s, bound);
    OwnStepAdvances(s, h);
    OwnStepBlocks(s, h);
    var s1 := Apply(s, a);
    StepKeepsInv(s, a);
    OwnersShrink(s, a, bound);
    if ph.Freeing? || (ph.Subtracting? && Owners(s, ph.p) != {h}) {
      actions, t := [a], s1;
      NoSteps(s1, bound);
      assert actions[1..] == [];
    } else {
      var rest;
      rest, t := ReleaseAlone(s1, h, bound);
      assert Resumed(s1.handles, h, ph.after) == Resumed(s.handles, h, ph.after);
      actions := [a] + rest;
      assert actions[1..] == rest;
      assert forall i :: 0 < i < |actions| ==> actions[i] == rest[i - 1];
    }
  }

  lemma {:induction false} RunsJoin<V>(s: State<V>, first: seq<Action<V>>, mid: State<V>, second: seq<Action<V>>, t: State<V>, bound: nat)
    requires Runs(s, first, mid, bound) && Runs(mid, second, t, bound)
    ensures Runs(s, first + second, t, bound)
    decreases |first|
  {
    hide Enabled, Apply, OwnersAtMost;
    if first == [] {
      assert first + second == second;
    } else {
      assert (first + second)[1..] == first[1..] + second;
      RunsJoin(Apply(s, first[0]), first[1..], mid, second, t, bound);
    }
  }

  lemma OneStep<V>(s: State<V>, a: Action<V>, bound: nat)
    requires Enabled(s, a) && OwnersAtMost(Apply(s, a), bound)
    ensures Runs(s, [a], Apply(s, a), bound)
  {
    hide Enabled, Apply, OwnersAtMost;
    NoSteps(Apply(s, a), bound);
    assert [a][1..] == [];
  }

  lemma {:induction false} Ceiling(s: set<nat>) returns (n: nat)
    ensures forall x :: x in s ==> x < n
  {
    if s == {} {
      n := 0;
    } else {
      var x :| x in s;
      var m := Ceiling(s - {x});
      n := if x < m then m else x + 1;
      assert forall y :: y in s ==> y == x || y in s - {x};
    }
  }

  /** A new payload of one owner stays within a bound of at least one. */
  lemma CloneStaysWithin<V>(s: State<V>, h: Handle, q: Payload, bound: nat)
    requires Enabled(s, Clone(h, q)) && OwnersAtMost(s, bound) && Inv(s)
    ensures OwnersAtMost(Apply(s, Clone(h, q)), bound)
  {
    var t := Apply(s, Clone(h, q));
    var p := s.handles[h].p;
    assert h in Owners(s, p);
    SubsetIsNoLarger({h}, Owners(s, p));
    forall r | r in t.blocks ensures |Owners(t, r)| <= bound {
      if r == q {
        forall g | g in s.handles && g != h ensures !Holds(s.handles[g], q) {
          assert HandleOk(s, g);
        }
        assert Owners(t, r) <= {h};
        SubsetIsNoLarger(Owners(t, r), {h});
      } else {
        assert Owners(t, r) <= Owners(s, r);
        SubsetIsNoLarger(Owners(t, r), Owners(s, r));
      }
    }
  }

  lemma BarrierStep<V>(s: State<V>, h: Handle, bound: nat)
    requires bound <= COUNT_MODULUS && Inv(s) && OwnersAtMost(s, bound) && Enabled(s, BarrierLoad(h))
    ensures var p, t := s.handles[h].p, Apply(s, BarrierLoad(h));
            && Inv(t) && OwnersAtMost(t, bound) && Runs(s, [BarrierLoad(h)], t, bound) && t.blocks == s.blocks
            && h in t.handles && t.handles[h] == if Owners(s, p) == {h} then Writing(p) else Cloning(p)
  {
    hide Inv, Owners, OwnersAtMost, Runs;
    WithinCount(s, bound);
    CountTellsSoleOwner(s, h, s.handles[h].p);
    StepKeepsInv(s, BarrierLoad(h));
    OwnersShrink(s, BarrierLoad(h), bound);
    OneStep(s, BarrierLoad(h), bound);
  }

  lemma CloneStep<V>(s: State<V>, h: Handle, q: Payload, bound: nat)
    requires bound <= COUNT_MODULUS && Inv(s) && OwnersAtMost(s, bound)
    requires h in s.handles && s.handles[h].Cloning? && q !in s.blocks
    ensures s.handles[h].p in s.blocks && s.handles[h].p != q && Enabled(s, Clone(h, q))
    ensures var p, t := s.handles[h].p, Apply(s, Clone(h, q));
            && Inv(t) && OwnersAtMost(t, bound) && Runs(s, [Clone(h, q)], t, bound)
            && t.handles == s.handles[h := Releasing(p, Install(q))] && q in t.blocks && t.blocks[q].value == s.blocks[p].value
  {
    var p := s.handles[h].p;
    assert p in s.blocks by {
      assert HandleOk(s, h) && Refers(s.handles[h], p);
    }
    hide Inv, Owners, OwnersAtMost, Runs;
    WithinCount(s, bound);
    CloneStaysWithin(s, h, q, bound);
    StepKeepsInv(s, Clone(h, q));
    OneStep(s, Clone(h, q), bound);
  }

  /** A handle that reaches the write barrier can always go on to write: in place when it is the only owner, else
      in a clone with the same contents, after at most five steps of its own. */
  lemma BarrierIsPassed<V>(s: State<V>, h: Handle, bound: nat) returns (actions: seq<Action<V>>, t: State<V>)
    requires bound <= COUNT_MODULUS && Inv(s) && OwnersAtMost(s, bound) && Enabled(s, BarrierLoad(h))
    ensures |actions| <= 5 && forall i :: 0 <= i < |actions| ==> actions[i].h == h
    ensures Runs(s, actions, t, bound) && h in t.handles && t.handles[h].Writing?
    ensures t.handles[h].p == s.handles[h].p <==> Owners(s, s.handles[h].p) == {h}
    ensures t.handles[h].p in t.blocks && t.blocks[t.handles[h].p].value == s.blocks[s.handles[h].p].value
  {
    hide Inv, Owners, OwnersAtMost, Runs;
    var p := s.handles[h].p;
    BarrierStep(s, h, bound);
    var load: Action<V> := BarrierLoad(h);
    var s1 := Apply(s, load);
    hide Apply, Enabled;
    if Owners(s, p) == {h} {
      actions, t := [load], s1;
    } else {
      var q := Ceiling(s1.blocks.Keys);
      CloneStep(s1, h, q, bound);
      var clone: Action<V> := Clone(h, q);
      var s2 := Apply(s1, clone);
      var rest;
      rest, t := ReleaseAlone(s2, h, bound);
      RunsJoin(s1, [clone], s2, rest, t, bound);
      RunsJoin(s, [load], s1, [clone] + rest, t, bound);
      actions := [load] + ([clone] + rest);
    }
  }

  // ---- running a state down ----------------------------------------------------------------------

  /** The owners of the payload that another handle is being copied from: until that copy has raised the count
      they can neither be released nor write. */
  ghost function Pinned<V>(s: State<V>, p: Payload): set<Handle> {
    set c | c in s.handles && s.handles[c].Copying? && s.handles[c].p == p :: s.handles[c].source
  }

  /** Every payload that is being copied has room for one more owner besides the pinned ones. */
  ghost predicate Roomy<V>(s: State<V>, bound: nat) {
    forall p :: Pinned(s, p) != {} ==> |Pinned(s, p)| < bound
  }

  /** Steps a handle may still take when nothing is copied any more. */
  function Weight(ph: Phase): (w: nat)
    ensures w > 0
  {
    match ph
    case Idle(_) => 4
    case Copying(_, _) => 5
    case Writing(_) => 5
    case Cloning(_) => 9
    case Releasing(_, after) => if after.Vanish? then 3 else 8
    case Subtracting(_, after) => if after.Vanish? then 2 else 7
    case Freeing(_, _, after) => if after.Vanish? then 1 else 6
  }

  ghost function Total(handles: map<Handle, Phase>, n: nat): nat {
    if n == 0 then 0 else Total(handles, n - 1) + if n - 1 in handles then Weight(handles[n - 1]) else 0
  }

  lemma {:induction false} TotalFalls(handles: map<Handle, Phase>, handles': map<Handle, Phase>, h: Handle, n: nat)
    requires h in handles && (h in handles' ==> Weight(handles'[h]) < Weight(handles[h]))
    requires forall g :: g != h ==> (g in handles <==> g in handles')
    requires forall g :: g != h && g in handles ==> handles'[g] == handles[g]
    ensures if h < n then Total(handles', n) < Total(handles, n) else Total(handles', n) == Total(handles, n)
  {
    hide Weight;
    if n > 0 {
      TotalFalls(handles, handles', h, n - 1);
    }
  }

  /** One step of h towards the end: allowed within the bound, nothing new copied, and less left to do. */
  ghost predicate StepsDown<V>(s: State<V>, a: Action<V>, bound: nat) {
    && Enabled(s, a) && OwnersAtMost(Apply(s, a), bound) && a.h in s.handles && !a.CopyFields?
    && var t := Apply(s, a);
       && (a.h in t.handles ==> Weight(t.handles[a.h]) < Weight(s.handles[a.h]))
       && (forall g :: g != a.h ==> (g in s.handles <==> g in t.handles))
       && (forall g :: g != a.h && g in s.handles ==> t.handles[g] == s.handles[g])
  }

  lemma DownByRelease<V>(s: State<V>, h: Handle, bound: nat)
    requires bound <= COUNT_MODULUS && Inv(s) && OwnersAtMost(s, bound) && h in s.handles && LettingGo(s.handles[h])
    ensures StepsDown(s, OwnStep(h, s.handles[h]), bound)
  {
    hide Inv, OwnersAtMost;
    OwnStepIsForced(s, h, OwnStep(h, s.handles[h]));
    OwnersShrink(s, OwnStep(h, s.handles[h]), bound);
  }

  lemma DownByClone<V>(s: State<V>, h: Handle, bound: nat) returns (a: Action<V>)
    requires bound <= COUNT_MODULUS && Inv(s) && OwnersAtMost(s, bound) && h in s.handles && s.handles[h].Cloning?
    ensures StepsDown(s, a, bound)
  {
    hide Inv, OwnersAtMost, Runs;
    var q := Ceiling(s.blocks.Keys);
    CloneStep(s, h, q, bound);
    a := Clone(h, q);
    hide Apply, Enabled;
  }

  lemma DownByWriteOrDrop<V>(s: State<V>, h: Handle, bound: nat) returns (a: Action<V>)
    requires OwnersAtMost(s, bound) && h in s.handles
    requires s.handles[h].Writing? || (s.handles[h].Idle? && Unpinned(s, h))
    ensures StepsDown(s, a, bound)
  {
    a := if s.handles[h].Writing? then FinishWrite(h) else DropBegin(h);
    OwnersShrink(s, a, bound);
    hide OwnersAtMost;
  }

  lemma RaisedOwners<V>(s: State<V>, h: Handle)
    requires Inv(s) && Enabled(s, Raise(h))
    requires forall g :: g in s.handles ==> s.handles[g].Copying? || (s.handles[g].Idle? && !Unpinned(s, g))
    ensures var p, t := s.handles[h].p, Apply(s, Raise(h));
            && Owners(t, p) <= Pinned(s, p) + {h} && Pinned(s, p) != {}
            && t.blocks.Keys == s.blocks.Keys && forall r :: r != p ==> Owners(t, r) <= Owners(s, r)
  {
    var p, t := s.handles[h].p, Apply(s, Raise(h));
    assert s.handles[h].source in Pinned(s, p);
    forall g | g in Owners(t, p) ensures g in Pinned(s, p) + {h} {
      if g != h {
        var c :| c in s.handles && s.handles[c].Copying? && s.handles[c].source == g;
        assert HandleOk(s, c);
      }
    }
    hide Inv, Owners, Pinned, Unpinned;
    forall r | r != p ensures Owners(t, r) <= Owners(s, r) {
      OwnersOfUpdate(s, t, h, Idle(p), r);
    }
  }

  /** With every owner pinned, a copy's raise finds the room the pinned ones leave. */
  lemma RaiseStaysWithin<V>(s: State<V>, h: Handle, bound: nat)
    requires Inv(s) && OwnersAtMost(s, bound) && Roomy(s, bound) && Enabled(s, Raise(h))
    requires forall g :: g in s.handles ==> s.handles[g].Copying? || (s.handles[g].Idle? && !Unpinned(s, g))
    ensures OwnersAtMost(Apply(s, Raise(h)), bound)
  {
    hide Inv, Owners, Pinned, Unpinned;
    var p, t := s.handles[h].p, Apply(s, Raise(h));
    RaisedOwners(s, h);
    hide Apply, Enabled;
    forall r | r in t.blocks ensures |Owners(t, r)| <= bound {
      if r == p {
        SubsetIsNoLarger(Owners(t, p), Pinned(s, p) + {h});
        CardOfOneMore(Pinned(s, p), h);
      } else {
        SubsetIsNoLarger(Owners(t, r), Owners(s, r));
      }
    }
  }

  lemma DownByRaise<V>(s: State<V>, h: Handle, bound: nat)
    requires Inv(s) && OwnersAtMost(s, bound) && Roomy(s, bound) && h in s.handles && s.handles[h].Copying?
    requires forall g :: g in s.handles ==> s.handles[g].Copying? || (s.handles[g].Idle? && !Unpinned(s, g))
    ensures StepsDown(s, Raise(h), bound)
  {
    assert HandleOk(s, h) && Refers(s.handles[h], s.handles[h].p);
    hide Inv, OwnersAtMost, Roomy, Unpinned;
    RaiseStaysWithin(s, h, bound);
  }

  lemma CardOfOneMore(s: set<Handle>, h: Handle)
    ensures |s + {h}| <= |s| + 1
  {
    if h in s {
      assert s + {h} == s;
    }
  }

  lemma PinnedShrinks<V>(s: State<V>, a: Action<V>, bound: nat)
    requires Enabled(s, a) && !a.CopyFields? && Roomy(s, bound)
    ensures Roomy(Apply(s, a), bound)
  {
    var t := Apply(s, a);
    forall p | Pinned(t, p) != {} ensures |Pinned(t, p)| < bound {
      assert Pinned(t, p) <= Pinned(s, p);
      SubsetIsNoLarger(Pinned(t, p), Pinned(s, p));
    }
  }

  /** In every state with room some handle has a step to take. */
  lemma SomeStepDown<V>(s: State<V>, bound: nat) returns (a: Action<V>)
    requires bound <= COUNT_MODULUS && Inv(s) && OwnersAtMost(s, bound) && Roomy(s, bound) && s.handles != map[]
    ensures StepsDown(s, a, bound)
  {
    hide Inv, OwnersAtMost, Roomy, StepsDown, Unpinned;
    if h :| h in s.handles && LettingGo(s.handles[h]) {
      DownByRelease(s, h, bound);
      a := OwnStep(h, s.handles[h]);
    } else if h :| h in s.handles && s.handles[h].Cloning? {
      a := DownByClone(s, h, bound);
    } else if h :| h in s.handles && (s.handles[h].Writing? || (s.handles[h].Idle? && Unpinned(s, h))) {
      a := DownByWriteOrDrop(s, h, bound);
    } else {
      var h := SomeCopy(s);
      DownByRaise(s, h, bound);
      a := Raise(h);
    }
  }

  /** When every idle handle is pinned, somebody is copying. */
  lemma SomeCopy<V>(s: State<V>) returns (h: Handle)
    requires s.handles != map[]
    requires forall g :: g in s.handles ==> s.handles[g].Copying? || (s.handles[g].Idle? && !Unpinned(s, g))
    ensures h in s.handles && s.handles[h].Copying?
  {
    var g :| g in s.handles;
    if s.handles[g].Copying? {
      h := g;
    } else {
      h :| h in s.handles && s.handles[h].Copying? && s.handles[h].source == g;
    }
  }

  /** No handle is left and every payload has been freed once. */
  ghost predicate RunDown<V>(t: State<V>) {
    t.handles == map[] && forall p :: p in t.blocks ==> t.blocks[p].freed == 1
  }

  lemma {:induction false} RunsDown<V>(s: State<V>, bound: nat, n: nat) returns (actions: seq<Action<V>>, t: State<V>)
    requires bound <= COUNT_MODULUS && Inv(s) && OwnersAtMost(s, bound) && Roomy(s, bound)
    requires forall h :: h in s.handles ==> h < n
    ensures Runs(s, actions, t, bound) && RunDown(t)
    decreases Total(s.handles, n)
  {
    hide Inv, OwnersAtMost, Roomy, Runs, Apply, Enabled, Weight, Total;
    if s.handles == map[] {
      actions, t := [], s;
      NoSteps(s, bound);
      AllFreed(s);
    } else {
      var a := SomeStepDown(s, bound);
      WithinCount(s, bound);
      StepKeepsInv(s, a);
      PinnedShrinks(s, a, bound);
      TotalFalls(s.handles, Apply(s, a).handles, a.h, n);
      OneStep(s, a, bound);
      var rest;
      rest, t := RunsDown(Apply(s, a), bound, n);
      RunsJoin(s, [a], Apply(s, a), rest, t, bound);
      actions := [a] + rest;
    }
  }

  lemma AllFreed<V>(s: State<V>)
    requires Inv(s) && s.handles == map[]
    ensures RunDown(s)
  {
    forall p | p in s.blocks ensures s.blocks[p].freed == 1 {
      assert BlockOk(s, p);
    }
  }

  // ---- when there is no room ---------------------------------------------------------------------

  /** With as many pinned owners as the bound allows, no copy of the payload can raise the count, so none of the
      pinned is ever released. */
  lemma PinnedStay<V>(s: State<V>, a: Action<V>, p: Payload, bound: nat)
    requires Inv(s) && Enabled(s, a) && OwnersAtMost(Apply(s, a), bound)
    requires Pinned(s, p) != {} && |Pinned(s, p)| >= bound
    ensures Pinned(s, p) <= Pinned(Apply(s, a), p)
  {
    var t := Apply(s, a);
    forall g | g in Pinned(s, p) ensures g in Pinned(t, p) {
      var c :| c in s.handles && s.handles[c].Copying? && s.handles[c].p == p && s.handles[c].source == g;
      if a.h == c {
        assert a == Raise(c);
        RaiseIsTooMany(s, c, bound);
      }
      assert c in t.handles && t.handles[c] == s.handles[c];
    }
  }

  lemma RaiseIsTooMany<V>(s: State<V>, c: Handle, bound: nat)
    requires Inv(s) && Enabled(s, Raise(c)) && |Pinned(s, s.handles[c].p)| >= bound
    ensures !OwnersAtMost(Apply(s, Raise(c)), bound)
  {
    var p := s.handles[c].p;
    var t := Apply(s, Raise(c));
    forall g | g in Pinned(s, p) ensures g in Owners(t, p) && g != c {
      var d :| d in s.handles && s.handles[d].Copying? && s.handles[d].p == p && s.handles[d].source == g;
      assert HandleOk(s, d);
    }
    assert Pinned(s, p) + {c} <= Owners(t, p);
    SubsetIsNoLarger(Pinned(s, p) + {c}, Owners(t, p));
    assert c !in Pinned(s, p);
  }

  lemma {:induction false} NeverRunDown<V>(s: State<V>, actions: seq<Action<V>>, t: State<V>, p: Payload, bound: nat)
    requires bound <= COUNT_MODULUS && Inv(s) && OwnersAtMost(s, bound) && Runs(s, actions, t, bound)
    requires Pinned(s, p) != {} && |Pinned(s, p)| >= bound
    ensures t.handles != map[]
    decreases |actions|
  {
    hide Inv, OwnersAtMost, Apply, Enabled;
    if actions != [] {
      WithinCount(s, bound);
      StepKeepsInv(s, actions[0]);
      PinnedStay(s, actions[0], p, bound);
      SubsetIsNoLarger(Pinned(s, p), Pinned(Apply(s, actions[0]), p));
      hide Pinned;
      NeverRunDown(Apply(s, actions[0]), actions[1..], t, p, bound);
    }
  }

  // ---- the result --------------------------------------------------------------------------------

  /** A state can be run down to no handles and every payload freed once, within the owner bound, exactly when
      every payload being copied has room for one more owner besides the pinned ones. */
  lemma CanBeRunDown<V(!new)>(s: State<V>, bound: nat)
    requires bound <= COUNT_MODULUS && Inv(s) && OwnersAtMost(s, bound)
    ensures (exists actions, t :: Runs(s, actions, t, bound) && RunDown(t)) <==> Roomy(s, bound)
  {
    hide Inv, OwnersAtMost, Runs, Pinned;
    if Roomy(s, bound) {
      var n := Ceiling(s.handles.Keys);
      var actions, t := RunsDown(s, bound, n);
    } else {
      var p :| Pinned(s, p) != {} && |Pinned(s, p)| >= bound;
      forall actions: seq<Action<V>>, t: State<V> | Runs(s, actions, t, bound) ensures !RunDown(t) {
        NeverRunDown(s, actions, t, p, bound);
      }
    }
  }

  /** Every state reached with fewer than 2^32 owners of a payload can be run down with at most one more. */
  lemma ReachedCanBeRunDown<V(!new)>(actions: seq<Action<V>>, s: State<V>, bound: nat) returns (rest: seq<Action<V>>, t: State<V>)
    requires bound < COUNT_MODULUS && Runs(Initial<V>(), actions, s, bound)
    ensures Runs(Initial<V>(), actions + rest, t, bound + 1) && RunDown(t)
  {
    hide Inv, Runs, TargetsIn, View, ValuesAfter;
    InitialIsInOrder<V>(bound);
    RunRefinesFrom(Initial<V>(), actions, s, bound);
    RunStaysWithin(Initial<V>(), actions, s, bound);
    RunWithinMore(Initial<V>(), actions, s, bound, bound + 1);
    MoreOwnersAllowed(s, bound, bound + 1);
    hide OwnersAtMost;
    PinnedAreOwners(s, bound);
    var n := Ceiling(s.handles.Keys);
    rest, t := RunsDown(s, bound + 1, n);
    RunsJoin(Initial<V>(), actions, s, rest, t, bound + 1);
  }

  lemma InitialIsInOrder<V>(bound: nat)
    ensures Inv(Initial<V>()) && Bounded(Initial<V>()) && TargetsIn(Initial<V>()) && OwnersAtMost(Initial<V>(), bound)
  {
  }

  lemma {:induction false} RunStaysWithin<V>(s: State<V>, actions: seq<Action<V>>, t: State<V>, bound: nat)
    requires OwnersAtMost(s, bound) && Runs(s, actions, t, bound)
    ensures OwnersAtMost(t, bound)
    decreases |actions|
  {
    hide OwnersAtMost, Enabled, Apply;
    if actions != [] {
      RunStaysWithin(Apply(s, actions[0]), actions[1..], t, bound);
    }
  }

  lemma {:induction false} RunWithinMore<V>(s: State<V>, actions: seq<Action<V>>, t: State<V>, bound: nat, more: nat)
    requires bound <= more && Runs(s, actions, t, bound)
    ensures Runs(s, actions, t, more)
    decreases |actions|
  {
    hide OwnersAtMost, Enabled, Apply;
    if actions != [] {
      MoreOwnersAllowed(Apply(s, actions[0]), bound, more);
      RunWithinMore(Apply(s, actions[0]), actions[1..], t, bound, more);
    }
  }

  lemma PinnedAreOwners<V>(s: State<V>, bound: nat)
    requires Inv(s) && OwnersAtMost(s, bound)
    ensures Roomy(s, bound + 1)
  {
    forall p | Pinned(s, p) != {} ensures |Pinned(s, p)| < bound + 1 {
      forall g | g in Pinned(s, p) ensures g in Owners(s, p) && p in s.blocks {
        var c :| c in s.handles && s.handles[c].Copying? && s.handles[c].p == p && s.handles[c].source == g;
        assert HandleOk(s, c) && Refers(s.handles[c], p);
      }
      SubsetIsNoLarger(Pinned(s, p), Owners(s, p));
    }
  }

  /** The least state without room: with one owner allowed, a copy that has not raised the count yet. */
  lemma OneOwnerCannotBeCopied<V(!new)>(v: V) returns (actions: seq<Action<V>>, s: State<V>)
    ensures Runs(Initial<V>(), actions, s, 1)
    ensures !exists more, t :: Runs(s, more, t, 1) && RunDown(t)
  {
    hide Inv, Runs, OwnersAtMost, TargetsIn, View, ValuesAfter;
    CrowdIsReached(1, v, 1);
    CopyingCrowdIsOwners(1, v);
    actions, s := CrowdActions(1, v) + [CopyFields(0, 1)], Apply(Crowd(1, v), CopyFields(0, 1));
    RunOneMore(Initial<V>(), CrowdActions(1, v), Crowd(1, v), CopyFields(0, 1), 1);
    InitialIsInOrder<V>(1);
    RunRefinesFrom(Initial<V>(), actions, s, 1);
    assert 0 in Range(0, 1) && s.handles[1] == Copying(0, 0);
    assert Pinned(s, 0) == {0};
    hide Pinned, Apply, Crowd;
    CanBeRunDown(s, 1);
  }
}
