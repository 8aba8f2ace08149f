/** Single steps: triggers on an instruction's successors, around whatever else is armed. */
module Stepping {
  import opened TriggerTable

  /** What the step finds out from the core: where it is, where it can go (the fall-through
      always, a target when the branch decodes), whether it stopped there, and if not,
      whether it could be halted. */
  datatype Course = Course(pc: nat, fall: nat, target: nat, targetValid: bool, stopped: bool, halted: bool)

  datatype Result = Ok | Timeout

  /** Steps off the old breakpoints and any trigger at the pc, arms the successors. */
  function Lifted(s: Table, pc: nat): (t: Table)
    requires Sized(s)
    ensures Sized(t)
  {
    Removed(KindCleared(s, Stepping), pc)
  }

  function Armed(s: Table, c: Course): (t: Table)
    requires Sized(s)
    ensures Sized(t)
  {
    var one := Added(s, c.fall, Stepping);
    if c.targetValid && c.target != c.fall then Added(one, c.target, Stepping) else one
  }

  /** The slot whose trigger the step lifts. */
  function Evicted(s: Table, pc: nat): Slot
    requires Sized(s)
  {
    var t := KindCleared(s, Stepping);
    var n := Find(t.slots, pc);
    if n >= 0 then t.slots[n] else FREE_SLOT
  }

  function Disarmed(s: Table, c: Course): (t: Table)
    requires Sized(s)
    ensures Sized(t)
  {
    KindCleared(Armed(Lifted(s, c.pc), c), Stepping)
  }

  /** The step came to an end, if only by force. */
  predicate Ended(c: Course) { c.stopped || c.halted }

  function Stepped(s: Table, c: Course): (t: Table)
    requires Sized(s)
    ensures Sized(t)
  {
    var e := Evicted(s, c.pc);
    if !Ended(c) || e.kind == Free then Disarmed(s, c)
    else Added(Disarmed(s, c), e.addr, e.kind)
  }

  // ------------------------------------------------ arming and disarming cancel

  /** The same slots; registers that can differ only in a free slot's address. */
  predicate Alike(s: Table, t: Table) {
    && Sized(s) && Sized(t) && s.slots == t.slots
    && forall n :: 0 <= n < TRIGGERS ==>
         if s.slots[n].kind == Free then s.regs[n].evt == t.regs[n].evt == 0 else s.regs[n] == t.regs[n]
  }

  predicate Quiet(s: Table) {
    && Sized(s)
    && forall n :: 0 <= n < TRIGGERS && s.slots[n].kind == Free ==> s.regs[n].evt == 0 && s.slots[n] == FREE_SLOT
  }

  lemma ArmCancels(s: Table, t: Table, addr: nat)
    requires Quiet(s) && NoStepping(s.slots) && Sized(t) && Alike(s, KindCleared(t, Stepping))
    ensures Alike(s, KindCleared(Added(t, addr, Stepping), Stepping))
  {
    var u := Added(t, addr, Stepping);
    if u != t {
      var f := FreeFrom(t.slots, 0);
      var a, b := KindCleared(t, Stepping), KindCleared(u, Stepping);
      assert a.slots[f] == t.slots[f] == s.slots[f];
      assert forall n :: 0 <= n < TRIGGERS ==> b.slots[n] == s.slots[n] by {
        forall n | 0 <= n < TRIGGERS ensures b.slots[n] == s.slots[n] {
          assert a.slots[n] == s.slots[n];
        }
      }
      assert b.slots == s.slots;
    }
  }

  lemma DisarmedAlike(s: Table, c: Course)
    requires Sized(s) && Quiet(Lifted(s, c.pc)) && NoStepping(Lifted(s, c.pc).slots)
    ensures Alike(Lifted(s, c.pc), Disarmed(s, c))
  {
    var l := Lifted(s, c.pc);
    assert KindCleared(l, Stepping).slots == l.slots;
    ArmCancels(l, l, c.fall);
    if c.targetValid && c.target != c.fall {
      ArmCancels(l, Added(l, c.fall, Stepping), c.target);
    }
  }

  // ------------------------------------------------------------- what a step keeps

  /** A watchpoint has the address. */
  predicate Watched(slots: seq<Slot>, a: nat) {
    exists n :: 0 <= n < |slots| && slots[n].kind in {Watch, WatchHi} && slots[n].addr == a
  }

  predicate RangeEndsAt(slots: seq<Slot>, a: nat) {
    exists n :: 0 <= n < |slots| && slots[n].kind == WatchHi && slots[n].addr == a
  }

  lemma EvictedIs(s: Table, pc: nat)
    requires Sized(s) && Distinct(s.slots)
    ensures Evicted(s, pc).kind in {Watch, WatchHi} <==> Watched(s.slots, pc)
    ensures Evicted(s, pc).kind == WatchHi <==> RangeEndsAt(s.slots, pc)
  {
    var k := KindCleared(s, Stepping);
    KindClearedDistinct(s, Stepping);
    forall n | 0 <= n < TRIGGERS && s.slots[n].kind in {Watch, WatchHi} && s.slots[n].addr == pc
      ensures Find(k.slots, pc) == n
    {
      assert InUse(k.slots, n, pc);
    }
  }

  lemma LiftedQuiet(s: Table, pc: nat)
    requires Agrees(s) && Distinct(s.slots)
    ensures
      var l := Lifted(s, pc);
      Quiet(l) && NoStepping(l.slots) && Distinct(l.slots) && Find(l.slots, pc) < 0
  {
    var k := KindCleared(s, Stepping);
    KindClearedKeeps(s, Stepping);
    KindClearedDistinct(s, Stepping);
    RemovedGone(k, pc);
    var l := Lifted(s, pc);
    forall n | 0 <= n < TRIGGERS && l.slots[n].kind == Free
      ensures l.regs[n].evt == 0 && l.slots[n] == FREE_SLOT
    {
      assert SlotAgrees(k, n);
    }
  }

  /** The breakpoints GDB asked for, before and after; and no trigger of the step's own. */
  lemma UsersSurvive(s: Table, c: Course)
    requires Agrees(s) && Distinct(s.slots)
    ensures NoStepping(Stepped(s, c).slots)
    ensures c.stopped || c.halted ==> SameUsers(s.slots, Stepped(s, c).slots)
    ensures !c.stopped && !c.halted ==>
              forall a: nat :: IsUser(Stepped(s, c).slots, a) <==> IsUser(s.slots, a) && a != c.pc
  {
    LiftedQuiet(s, c.pc);
    DisarmedAlike(s, c);
    var k, l, d := KindCleared(s, Stepping), Lifted(s, c.pc), Disarmed(s, c);
    UsersKept(s.slots, k.slots);
    KindClearedKeeps(s, Stepping);
    KindClearedDistinct(s, Stepping);
    LiftedUsers(k, c.pc);
    var e := Evicted(s, c.pc);
    if Ended(c) && e.kind != Free {
      EvictedReturns(k, d, c.pc);
    }
  }

  /** Lifting costs the breakpoint at the pc, and no other. */
  lemma LiftedUsers(k: Table, pc: nat)
    requires Agrees(k) && Distinct(k.slots)
    ensures forall a: nat :: IsUser(Removed(k, pc).slots, a) <==> IsUser(k.slots, a) && a != pc
  {
    forall a: nat ensures IsUser(Removed(k, pc).slots, a) <==> IsUser(k.slots, a) && a != pc {
      LiftedUser(k, pc, a);
    }
  }

  lemma LiftedUser(k: Table, pc: nat, a: nat)
    requires Agrees(k) && Distinct(k.slots)
    ensures IsUser(Removed(k, pc).slots, a) <==> IsUser(k.slots, a) && a != pc
  {
    var l := Removed(k, pc);
    RemovedStops(k, pc);
    if IsUser(k.slots, a) && a != pc {
      var n :| 0 <= n < |k.slots| && k.slots[n].kind == User && k.slots[n].addr == a;
      assert l.slots[n] == k.slots[n];
    }
    if IsUser(l.slots, a) {
      var n :| 0 <= n < |l.slots| && l.slots[n].kind == User && l.slots[n].addr == a;
      assert InUse(l.slots, n, a);
    }
  }

  /** What was lifted goes back in: there is a free slot, and its address is not in use. */
  lemma EvictedReturns(k: Table, d: Table, pc: nat)
    requires Agrees(k) && Distinct(k.slots) && Sized(d) && Find(k.slots, pc) >= 0
    requires d.slots == Removed(k, pc).slots
    ensures
      var e := k.slots[Find(k.slots, pc)];
      var t := Added(d, e.addr, e.kind);
      && FreeFrom(d.slots, 0) >= 0 && Find(d.slots, pc) < 0
      && t == Put(d, FreeFrom(d.slots, 0), Slot(pc, 0, e.kind, false, false), Reg(HALT_ON_ADDR, pc))
      && forall a: nat :: IsUser(t.slots, a) <==> IsUser(d.slots, a) || (e.kind == User && a == pc)
  {
    RemovedGone(k, pc);
    var f := Find(k.slots, pc);
    assert d.slots[f].kind == Free;
    var e, n := k.slots[f], FreeFrom(d.slots, 0);
    var t := Added(d, e.addr, e.kind);
    forall a: nat ensures IsUser(t.slots, a) <==> IsUser(d.slots, a) || (e.kind == User && a == pc) {
      if IsUser(d.slots, a) {
        var m :| 0 <= m < |d.slots| && d.slots[m].kind == User && d.slots[m].addr == a;
        assert t.slots[m] == d.slots[m];
      }
      if e.kind == User {
        assert t.slots[n].kind == User;
      }
      if IsUser(t.slots, a) {
        var m :| 0 <= m < |t.slots| && t.slots[m].kind == User && t.slots[m].addr == a;
        assert m != n ==> t.slots[m] == d.slots[m];
      }
    }
  }

  lemma AlikeAgrees(s: Table, t: Table)
    requires Alike(s, t)
    ensures Agrees(s) <==> Agrees(t)
  {
    forall n | 0 <= n < TRIGGERS ensures SlotAgrees(s, n) <==> SlotAgrees(t, n) {
    }
  }

  /** After a step the table tells the truth about the registers exactly when the trigger
      it lifted, if any, was not a watchpoint's: a watchpoint comes back as a code trigger. */
  lemma TruthfulUnlessWatchLifted(s: Table, c: Course)
    requires Agrees(s) && Distinct(s.slots) && (c.stopped || c.halted)
    ensures Agrees(Stepped(s, c)) <==> !Watched(s.slots, c.pc)
    ensures Distinct(Stepped(s, c).slots)
  {
    var k, d, e := KindCleared(s, Stepping), Disarmed(s, c), Evicted(s, c.pc);
    EvictedIs(s, c.pc);
    LiftedQuiet(s, c.pc);
    DisarmedAlike(s, c);
    KindClearedKeeps(s, Stepping);
    KindClearedDistinct(s, Stepping);
    AlikeAgrees(Lifted(s, c.pc), d);
    if e.kind != Free {
      EvictedReturns(k, d, c.pc);
      DistinctPut(d.slots, FreeFrom(d.slots, 0), Slot(c.pc, 0, e.kind, false, false));
    }
    if e.kind in {Free, User} {
      RemovedKeeps(k, c.pc);
      if e.kind == User {
        AddedKeeps(d, e.addr, User);
      }
    } else {
      assert !SlotAgrees(Stepped(s, c), FreeFrom(d.slots, 0));
    }
  }

  /** The core stopped at the very address of a write watchpoint: after the step the table
      still has the watchpoint, but its registers hold a code trigger. */
  lemma WatchComesBackAsCode()
    ensures
      exists s: Table, c: Course ::
        && Agrees(s) && Distinct(s.slots) && s.slots[0] == Slot(0x100, 1, Watch, false, true)
        && c.pc == 0x100 && c.stopped && !Agrees(Stepped(s, c))
        && Stepped(s, c).slots[0].kind == Watch && Stepped(s, c).regs[0] == Reg(HALT_ON_ADDR, 0x100)
  {
    var none := Table(seq(TRIGGERS, _ => FREE_SLOT), seq(TRIGGERS, _ => Reg(0, 0)));
    var s, c := WatchAdded(none, 0x100, 1, false, true), Course(0x100, 0x104, 0, false, true, true);
    WatchAddedKeeps(none, 0x100, 1, false, true);
    var k := KindCleared(s, Stepping);
    KindClearedKeeps(s, Stepping);
    KindClearedDistinct(s, Stepping);
    assert FreeFrom(none.slots, 0) == 0 && k.slots[0] == Slot(0x100, 1, Watch, false, true);
    assert Find(k.slots, 0x100) == 0;
    TruthfulUnlessWatchLifted(s, c);
    LiftedQuiet(s, c.pc);
    DisarmedAlike(s, c);
    EvictedReturns(k, Disarmed(s, c), c.pc);
    assert FreeFrom(Disarmed(s, c).slots, 0) == 0;
  }

  /** A step the core did not come back from leaves the lifted trigger out altogether: the
      table is wrong only if that was a range's upper half. */
  lemma TruthfulAfterTimeout(s: Table, c: Course)
    requires Agrees(s) && Distinct(s.slots) && !c.stopped && !c.halted
    ensures Agrees(Stepped(s, c)) <==> !RangeEndsAt(s.slots, c.pc)
    ensures Distinct(Stepped(s, c).slots) && Find(Stepped(s, c).slots, c.pc) < 0
  {
    var k, d, e := KindCleared(s, Stepping), Disarmed(s, c), Evicted(s, c.pc);
    EvictedIs(s, c.pc);
    LiftedQuiet(s, c.pc);
    DisarmedAlike(s, c);
    KindClearedKeeps(s, Stepping);
    KindClearedDistinct(s, Stepping);
    AlikeAgrees(Lifted(s, c.pc), d);
    if e.kind != WatchHi {
      RemovedKeeps(k, c.pc);
    } else {
      var f := Find(k.slots, c.pc);
      assert SlotAgrees(k, f) && !SlotAgrees(Lifted(s, c.pc), f - 1);
    }
  }

  // ------------------------------------------------- while the core is let go

  /** Where the core may go. */
  predicate Successor(c: Course, a: nat) { a == c.fall || (c.targetValid && a == c.target) }

  /** A step's triggers, `t` being what is set when the core is let go: it stops at a successor
      if that has a slot of its own or a breakpoint's - every one does, unless all are in use -
      and not if the slot is a watchpoint's; it does not stop where it is, unless that is a
      successor; every other breakpoint and watchpoint is still set. */
  ghost predicate SetToStep(s: Table, c: Course, t: Table) {
    && Sized(s) && Sized(t)
    && (forall a: nat :: Successor(c, a) && Find(t.slots, a) < 0 ==> !HasFree(t.slots))
    && (forall a: nat :: Successor(c, a) ==>
          (StopsAt(t, a) <==> Find(t.slots, a) >= 0 && !Watched(t.slots, a)))
    && (!Successor(c, c.pc) ==> Find(t.slots, c.pc) < 0 && !StopsAt(t, c.pc))
    && (forall n :: 0 <= n < TRIGGERS && s.slots[n].kind in {User, Watch} && s.slots[n].addr != c.pc ==>
          t.slots[n] == s.slots[n] && t.regs[n] == s.regs[n])
    && (forall a: nat :: Watched(t.slots, a) ==> Watched(s.slots, a))
  }

  /** A slot's address is a code trigger's just if the slot is not a watchpoint's. */
  lemma StopsUnlessWatched(t: Table, a: nat)
    requires Stops(t) && Distinct(t.slots)
    ensures StopsAt(t, a) <==> Find(t.slots, a) >= 0 && !Watched(t.slots, a)
  {
    if StopsAt(t, a) {
      var n :| 0 <= n < |t.regs| && t.regs[n] == Reg(HALT_ON_ADDR, a);
      assert InUse(t.slots, n, a);
    }
    if Find(t.slots, a) >= 0 && !Watched(t.slots, a) {
      assert t.regs[Find(t.slots, a)] == Reg(HALT_ON_ADDR, a);
    }
  }

  lemma LiftedStops(s: Table, pc: nat)
    requires Agrees(s) && Distinct(s.slots)
    ensures
      var l := Lifted(s, pc);
      && Stops(l) && Distinct(l.slots) && Find(l.slots, pc) < 0
      && (forall n :: 0 <= n < TRIGGERS ==> l.slots[n] == s.slots[n] || l.slots[n] == FREE_SLOT)
      && (forall n :: 0 <= n < TRIGGERS && s.slots[n].kind in {User, Watch} && s.slots[n].addr != pc ==>
            l.slots[n] == s.slots[n] && l.regs[n] == s.regs[n])
  {
    KindClearedKeeps(s, Stepping);
    KindClearedDistinct(s, Stepping);
    RemovedStops(KindCleared(s, Stepping), pc);
  }

  lemma RemovedStops(k: Table, pc: nat)
    requires Agrees(k) && Distinct(k.slots)
    ensures
      var l := Removed(k, pc);
      && Stops(l) && Distinct(l.slots) && Find(l.slots, pc) < 0
      && (forall n :: 0 <= n < TRIGGERS ==> l.slots[n] == k.slots[n] || l.slots[n] == FREE_SLOT)
      && (forall n :: 0 <= n < TRIGGERS && k.slots[n].kind in {User, Watch} && k.slots[n].addr != pc ==>
            l.slots[n] == k.slots[n] && l.regs[n] == k.regs[n])
  {
    AgreesStops(k);
    RemovedGone(k, pc);
    if Find(k.slots, pc) >= 0 {
      assert SlotAgrees(k, Find(k.slots, pc));
    }
  }

  lemma ArmedKeeps(s: Table, c: Course)
    requires Stops(s) && Distinct(s.slots)
    ensures
      var t := Armed(s, c);
      && Stops(t) && Distinct(t.slots)
      && (forall a: nat :: !Successor(c, a) ==> (Find(t.slots, a) >= 0 <==> Find(s.slots, a) >= 0))
      && (forall n :: 0 <= n < TRIGGERS && s.slots[n].kind != Free ==>
            t.slots[n] == s.slots[n] && t.regs[n] == s.regs[n])
      && (forall n :: 0 <= n < TRIGGERS && s.slots[n].kind == Free ==> t.slots[n].kind in {Free, Stepping})
  {
    AddedHas(s, c.fall, Stepping);
    AddedDistinct(s, c.fall);
    AddedHas(Added(s, c.fall, Stepping), c.target, Stepping);
    AddedDistinct(Added(s, c.fall, Stepping), c.target);
  }

  lemma AddedDistinct(s: Table, addr: nat)
    requires Sized(s) && Distinct(s.slots)
    ensures Distinct(Added(s, addr, Stepping).slots)
  {
    var t, f := Added(s, addr, Stepping), FreeFrom(s.slots, 0);
    if t != s {
      DistinctPut(s.slots, f, t.slots[f]);
    }
  }

  /** Each successor has a slot, or there is none left; which is when the stop is called
      imprecise. */
  lemma ArmedHas(s: Table, c: Course)
    requires Sized(s)
    ensures
      var t := Armed(s, c);
      && (forall a: nat :: Successor(c, a) && Find(t.slots, a) < 0 ==> !HasFree(t.slots))
      && (Find(t.slots, c.fall) >= 0 <==> Find(s.slots, c.fall) >= 0 || HasFree(s.slots))
  {
    var one := Added(s, c.fall, Stepping);
    AddedHas(s, c.fall, Stepping);
    AddedHas(one, c.target, Stepping);
    if c.targetValid && c.target != c.fall {
      var t := Added(one, c.target, Stepping);
      assert forall n :: 0 <= n < TRIGGERS && t.slots[n].kind == Free ==> one.slots[n].kind == Free;
    }
  }

  /** What BpAdd answers for the successors. */
  lemma ArmedFinds(s: Table, c: Course)
    requires Sized(s)
    ensures
      var one, t := Added(s, c.fall, Stepping), Armed(s, c);
      && (Find(t.slots, c.fall) < 0 <==> Find(s.slots, c.fall) < 0 && FreeFrom(s.slots, 0) < 0)
      && (c.targetValid && c.target != c.fall ==>
            (Find(t.slots, c.target) < 0 <==> Find(one.slots, c.target) < 0 && FreeFrom(one.slots, 0) < 0))
  {
    AddedHas(s, c.fall, Stepping);
    AddedHas(Added(s, c.fall, Stepping), c.target, Stepping);
  }

  lemma ArmedSets(s: Table, c: Course)
    requires Agrees(s) && Distinct(s.slots)
    ensures SetToStep(s, c, Armed(Lifted(s, c.pc), c))
  {
    var l := Lifted(s, c.pc);
    var t := Armed(l, c);
    LiftedStops(s, c.pc);
    ArmedKeeps(l, c);
    ArmedHas(l, c);
    forall a: nat ensures StopsAt(t, a) <==> Find(t.slots, a) >= 0 && !Watched(t.slots, a) {
      StopsUnlessWatched(t, a);
    }
    forall a: nat | Watched(t.slots, a) ensures Watched(s.slots, a) {
      var n :| 0 <= n < |t.slots| && t.slots[n].kind in {Watch, WatchHi} && t.slots[n].addr == a;
      assert t.slots[n] == l.slots[n] == s.slots[n];
    }
  }

  /** A watchpoint on the very address of the next instruction, with seven slots to spare: no
      trigger is set there, and the stop is not called imprecise. */
  lemma WatchHidesSuccessor()
    ensures
      exists s: Table, c: Course ::
        && Agrees(s) && Distinct(s.slots) && c.fall == 0x104 && !c.targetValid
        && var t := Armed(Lifted(s, c.pc), c);
           Find(t.slots, c.fall) >= 0 && !StopsAt(t, c.fall) && HasFree(t.slots)
  {
    var none := Table(seq(TRIGGERS, _ => FREE_SLOT), seq(TRIGGERS, _ => Reg(0, 0)));
    var s, c := WatchAdded(none, 0x104, 1, false, true), Course(0x100, 0x104, 0, false, true, true);
    WatchAddedKeeps(none, 0x104, 1, false, true);
    assert FreeFrom(none.slots, 0) == 0 && s.slots[0] == Slot(0x104, 1, Watch, false, true);
    var t := Armed(Lifted(s, c.pc), c);
    ArmedSets(s, c);
    assert KindCleared(s, Stepping).slots == s.slots;
    assert Find(s.slots, 0x100) < 0;
    assert t.slots[0] == s.slots[0];
    assert InUse(t.slots, 0, 0x104);
    assert t.slots[1].kind == Free;
  }

  // ---------------------------------------------------------------- the procedures

  class Core {
    const slots: array<Slot>
    const regs: array<Reg>

    ghost predicate Valid() { slots.Length == TRIGGERS && regs.Length == TRIGGERS }

    function State(): Table
      reads slots, regs
    {
      Table(slots[..], regs[..])
    }

    constructor ()
      ensures Valid() && Agrees(State()) && Distinct(slots[..]) && fresh(slots) && fresh(regs)
    {
      slots := new Slot[TRIGGERS](_ => FREE_SLOT);
      regs := new Reg[TRIGGERS](_ => Reg(0, 0));
    }

    method FreeSlot() returns (r: int)
      requires Valid()
      ensures r == FreeFrom(slots[..], 0)
    {
      for n := 0 to TRIGGERS
        invariant FreeFrom(slots[..], n) == FreeFrom(slots[..], 0)
      {
        if slots[n].kind == Free {
          return n;
        }
      }
      r := -1;
    }

    method FreePair() returns (r: int)
      requires Valid()
      ensures r == PairFrom(slots[..], 0)
    {
      var n := 0;
      while n + 1 < TRIGGERS
        invariant 0 <= n <= TRIGGERS && n % 2 == 0 && PairFrom(slots[..], n) == PairFrom(slots[..], 0)
      {
        if slots[n].kind == Free && slots[n + 1].kind == Free {
          return n;
        }
        n := n + 2;
      }
      r := -1;
    }

    method SlotOfAddr(addr: nat) returns (r: int)
      requires Valid()
      ensures r == Find(slots[..], addr)
    {
      for n := 0 to TRIGGERS
        invariant FindFrom(slots[..], addr, n) == FindFrom(slots[..], addr, 0)
      {
        if slots[n].kind != Free && slots[n].addr == addr {
          return n;
        }
      }
      r := -1;
    }

    method ClearTrigger(n: nat)
      requires Valid() && n < TRIGGERS
      modifies slots, regs
      ensures State() == Clear(old(State()), n)
    {
      regs[n] := Reg(0, 0);
      slots[n] := FREE_SLOT;
    }

    method BpAdd(addr: nat, kind: Kind) returns (r: int)
      requires Valid()
      modifies slots, regs
      ensures State() == Added(old(State()), addr, kind)
      ensures r == if Find(old(slots[..]), addr) >= 0 then Find(old(slots[..]), addr)
                   else FreeFrom(old(slots[..]), 0)
    {
      r := SlotOfAddr(addr);
      if r >= 0 {
        return;
      }
      r := FreeSlot();
      if r >= 0 {
        regs[r] := Reg(HALT_ON_ADDR, addr);
        slots[r] := Slot(addr, 0, kind, false, false);
      }
    }

    method BpAddWatch(addr: nat, size: nat, onRead: bool, onWrite: bool) returns (r: int)
      requires Valid()
      modifies slots, regs
      ensures State() == if size < 1 || (!onRead && !onWrite) then old(State())
                         else WatchAdded(old(State()), addr, size, onRead, onWrite)
      ensures r == if Find(old(slots[..]), addr) >= 0 then Find(old(slots[..]), addr)
                   else if size < 1 || (!onRead && !onWrite) then -1
                   else WatchSlot(old(State()), size)
    {
      r := SlotOfAddr(addr);
      if r >= 0 {
        return;
      }
      if size > 1 {
        r := FreePair();
      } else {
        r := FreeSlot();
      }
      if r < 0 {
        return;
      }
      if size < 1 || (!onRead && !onWrite) {
        return -1;
      }
      regs[r] := Reg(DataWord(onRead, onWrite, size > 1), addr);
      slots[r] := Slot(addr, size, Watch, onRead, onWrite);
      if size > 1 {
        var top := (addr + size) % WRAP;
        regs[r + 1] := Reg(0, top);
        slots[r + 1] := Slot(top, 0, WatchHi, false, false);
      }
    }

    method BpRemove(addr: nat) returns (found: bool)
      requires Valid()
      modifies slots, regs
      ensures State() == Removed(old(State()), addr)
      ensures found <==> Find(old(slots[..]), addr) >= 0
    {
      var n := SlotOfAddr(addr);
      if n < 0 {
        return false;
      }
      var hadPair := slots[n].kind == Watch && slots[n].size > 1;
      ClearTrigger(n);
      if hadPair && n + 1 < TRIGGERS {
        ClearTrigger(n + 1);
      }
      found := true;
    }

    method BpClearKind(kind: Kind)
      requires Valid()
      modifies slots, regs
      ensures State() == KindCleared(old(State()), kind)
    {
      for n := 0 to TRIGGERS
        invariant forall m :: 0 <= m < n ==> slots[m] == KindCleared(old(State()), kind).slots[m]
        invariant forall m :: 0 <= m < n ==> regs[m] == KindCleared(old(State()), kind).regs[m]
        invariant forall m :: n <= m < TRIGGERS ==> slots[m] == old(slots[m]) && regs[m] == old(regs[m])
      {
        if slots[n].kind == kind {
          ClearTrigger(n);
        }
      }
    }

    /** The old step triggers and any at the pc out, the successors' in. */
    method Arm(c: Course) returns (evicted: Slot, imprecise: bool)
      requires Valid()
      modifies slots, regs
      ensures State() == Armed(Lifted(old(State()), c.pc), c) && evicted == Evicted(old(State()), c.pc)
      ensures imprecise <==> exists a: nat :: Successor(c, a) && Find(slots[..], a) < 0
    {
      BpClearKind(Stepping);
      var here := SlotOfAddr(c.pc);
      evicted := FREE_SLOT;
      if here >= 0 {
        evicted := slots[here];
        var _ := BpRemove(c.pc);
      }
      ghost var l := State();
      var armedFall := BpAdd(c.fall, Stepping);
      var armedTarget := -1;
      if c.targetValid && c.target != c.fall {
        armedTarget := BpAdd(c.target, Stepping);
      }
      imprecise := armedFall < 0 || (c.targetValid && c.target != c.fall && armedTarget < 0);
      ArmedFinds(l, c);
    }

    /** `armed` is what is set when the core is let go. */
    method Step(c: Course) returns (r: Result, imprecise: bool, ghost armed: Table)
      requires Valid()
      modifies slots, regs
      ensures State() == Stepped(old(State()), c) && (r == Ok <==> c.stopped || c.halted)
      ensures Agrees(old(State())) && Distinct(old(slots[..])) ==> SetToStep(old(State()), c, armed)
      ensures imprecise <==> exists a: nat :: Successor(c, a) && Find(armed.slots, a) < 0
    {
      var evicted;
      evicted, imprecise := Arm(c);
      armed := State();
      if Agrees(old(State())) && Distinct(old(slots[..])) {
        ArmedSets(old(State()), c);
      }
      if !c.stopped && !c.halted {
        BpClearKind(Stepping);
        return Timeout, imprecise, armed;
      }
      BpClearKind(Stepping);
      if evicted.kind != Free {
        var _ := BpAdd(evicted.addr, evicted.kind);
      }
      r := Ok;
    }
  }
}
