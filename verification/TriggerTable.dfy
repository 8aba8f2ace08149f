/** A core's eight debug triggers and the table that shadows them, as values. */
module TriggerTable {

  const TRIGGERS: nat := 8
  const WRAP: nat := 0x1_0000_0000

  const HALT_ON_ADDR: nat := 0x102A
  const HALT_AND_SUSPEND: nat := 0x22
  const ON_RANGE: nat := 0x2000
  const ON_STORE: nat := 0x0800_0000
  const ON_LOAD: nat := 0x1000_0000

  datatype Kind = Free | User | Stepping | Watch | WatchHi

  datatype Slot = Slot(addr: nat, size: nat, kind: Kind, onRead: bool, onWrite: bool)

  datatype Reg = Reg(evt: nat, adr: nat)

  datatype Table = Table(slots: seq<Slot>, regs: seq<Reg>)

  const FREE_SLOT := Slot(0, 0, Free, false, false)

  function DataWord(onRead: bool, onWrite: bool, range: bool): nat {
    HALT_AND_SUSPEND + (if onRead then ON_LOAD else 0) + (if onWrite then ON_STORE else 0)
    + (if range then ON_RANGE else 0)
  }

  predicate Sized(s: Table) { |s.slots| == |s.regs| == TRIGGERS }

  // ---------------------------------------------------------------- invariants

  /** The registers do what the slot's record says. */
  predicate SlotAgrees(s: Table, n: nat)
    requires Sized(s) && n < TRIGGERS
  {
    var slot, reg := s.slots[n], s.regs[n];
    match slot.kind
    case Free => slot == FREE_SLOT && reg.evt == 0
    case User => reg == Reg(HALT_ON_ADDR, slot.addr)
    case Stepping => reg == Reg(HALT_ON_ADDR, slot.addr)
    case Watch =>
      && reg == Reg(DataWord(slot.onRead, slot.onWrite, slot.size > 1), slot.addr)
      && (slot.size > 1 ==>
            && n % 2 == 0 && n + 1 < TRIGGERS && s.slots[n + 1].kind == WatchHi
            && s.slots[n + 1].addr == (slot.addr + slot.size) % WRAP)
    case WatchHi =>
      reg == Reg(0, slot.addr) && n % 2 == 1 && s.slots[n - 1].kind == Watch && s.slots[n - 1].size > 1
  }

  predicate Agrees(s: Table) { Sized(s) && forall n :: 0 <= n < TRIGGERS ==> SlotAgrees(s, n) }

  predicate InUse(slots: seq<Slot>, n: nat, addr: nat) {
    n < |slots| && slots[n].kind != Free && slots[n].addr == addr
  }

  /** No address is in two slots. */
  predicate Distinct(slots: seq<Slot>) {
    forall m, n | 0 <= m < |slots| && 0 <= n < |slots| && m != n ::
      slots[m].kind != Free && slots[n].kind != Free ==> slots[m].addr != slots[n].addr
  }

  predicate NoStepping(slots: seq<Slot>) { forall n :: 0 <= n < |slots| ==> slots[n].kind != Stepping }

  /** The breakpoints GDB asked for. */
  ghost predicate IsUser(slots: seq<Slot>, addr: nat) {
    exists n :: 0 <= n < |slots| && slots[n].kind == User && slots[n].addr == addr
  }

  ghost predicate SameUsers(a: seq<Slot>, b: seq<Slot>) {
    forall addr: nat :: IsUser(a, addr) <==> IsUser(b, addr)
  }

  // ------------------------------------------------------------------ searches

  /** The first slot from n on that has the address; -1 for none. */
  function FindFrom(slots: seq<Slot>, addr: nat, n: nat): (r: int)
    requires n <= |slots|
    ensures -1 <= r < |slots| && (r >= 0 ==> r >= n && InUse(slots, r, addr))
    ensures r < 0 ==> forall m :: n <= m < |slots| ==> !InUse(slots, m, addr)
    decreases |slots| - n
  {
    if n == |slots| then -1 else if InUse(slots, n, addr) then n else FindFrom(slots, addr, n + 1)
  }

  function FreeFrom(slots: seq<Slot>, n: nat): (r: int)
    requires n <= |slots|
    ensures -1 <= r < |slots| && (r >= 0 ==> r >= n && slots[r].kind == Free)
    ensures r < 0 ==> forall m :: n <= m < |slots| ==> slots[m].kind != Free
    decreases |slots| - n
  {
    if n == |slots| then -1 else if slots[n].kind == Free then n else FreeFrom(slots, n + 1)
  }

  function PairFrom(slots: seq<Slot>, n: nat): (r: int)
    requires n <= |slots| && n % 2 == 0 && |slots| % 2 == 0
    ensures r == -1 || (n <= r && r % 2 == 0 && r + 1 < |slots|
                      && slots[r].kind == Free && slots[r + 1].kind == Free)
    ensures r == -1 ==> forall m :: n <= m && m % 2 == 0 && m + 1 < |slots| ==>
                          slots[m].kind != Free || slots[m + 1].kind != Free
    decreases |slots| - n
  {
    if n == |slots| then -1
    else if slots[n].kind == Free && slots[n + 1].kind == Free then n
    else PairFrom(slots, n + 2)
  }

  function Find(slots: seq<Slot>, addr: nat): int { FindFrom(slots, addr, 0) }

  // ---------------------------------------------------------------- operations

  function Put(s: Table, n: nat, slot: Slot, reg: Reg): Table
    requires Sized(s) && n < TRIGGERS
  {
    Table(s.slots[n := slot], s.regs[n := reg])
  }

  function Clear(s: Table, n: nat): Table
    requires Sized(s) && n < TRIGGERS
  {
    Put(s, n, FREE_SLOT, Reg(0, 0))
  }

  /** A code trigger, unless the address has a slot or there is none left. */
  function Added(s: Table, addr: nat, kind: Kind): (t: Table)
    requires Sized(s)
    ensures Sized(t)
  {
    var n := FreeFrom(s.slots, 0);
    if Find(s.slots, addr) >= 0 || n < 0 then s
    else Put(s, n, Slot(addr, 0, kind, false, false), Reg(HALT_ON_ADDR, addr))
  }

  function WatchSlot(s: Table, size: nat): int
    requires Sized(s)
  {
    if size > 1 then PairFrom(s.slots, 0) else FreeFrom(s.slots, 0)
  }

  function WatchAdded(s: Table, addr: nat, size: nat, onRead: bool, onWrite: bool): (t: Table)
    requires Sized(s)
    ensures Sized(t)
  {
    var n := WatchSlot(s, size);
    if Find(s.slots, addr) >= 0 || n < 0 then s
    else
      var low := Put(s, n, Slot(addr, size, Watch, onRead, onWrite),
                     Reg(DataWord(onRead, onWrite, size > 1), addr));
      if size <= 1 then low
      else
        var top := (addr + size) % WRAP;
        Put(low, n + 1, Slot(top, 0, WatchHi, false, false), Reg(0, top))
  }

  function Removed(s: Table, addr: nat): (t: Table)
    requires Sized(s)
    ensures Sized(t)
  {
    var n := Find(s.slots, addr);
    if n < 0 then s
    else
      var t := Clear(s, n);
      if s.slots[n].kind == Watch && s.slots[n].size > 1 && n + 1 < TRIGGERS then Clear(t, n + 1) else t
  }

  function KindCleared(s: Table, kind: Kind): (t: Table)
    requires Sized(s)
    ensures Sized(t)
  {
    Table(seq(TRIGGERS, n requires 0 <= n < TRIGGERS => if s.slots[n].kind == kind then FREE_SLOT else s.slots[n]),
          seq(TRIGGERS, n requires 0 <= n < TRIGGERS => if s.slots[n].kind == kind then Reg(0, 0) else s.regs[n]))
  }

  // ------------------------------------------------------ what the registers do

  /** The core halts before it executes what is at a. */
  ghost predicate StopsAt(s: Table, a: nat) {
    exists n :: 0 <= n < |s.regs| && s.regs[n] == Reg(HALT_ON_ADDR, a)
  }

  /** Trigger n halts the core on loads, or stores, as asked, of the `size` bytes from addr on. */
  predicate Watches(s: Table, n: nat, addr: nat, size: nat, onRead: bool, onWrite: bool) {
    && n < |s.regs| && s.regs[n].adr == addr && s.regs[n].evt % ON_RANGE == HALT_AND_SUSPEND
    && (s.regs[n].evt / ON_LOAD % 2 == 1 <==> onRead) && (s.regs[n].evt / ON_STORE % 2 == 1 <==> onWrite)
    && (s.regs[n].evt / ON_RANGE % 2 == 1 <==> size > 1)
    && (size > 1 ==> n % 2 == 0 && n + 1 < |s.regs| && s.regs[n + 1] == Reg(0, (addr + size) % WRAP))
  }

  predicate HasFree(slots: seq<Slot>) { exists n :: 0 <= n < |slots| && slots[n].kind == Free }

  predicate FreePairAt(slots: seq<Slot>, n: nat) {
    n % 2 == 0 && n + 1 < |slots| && slots[n].kind == Free && slots[n + 1].kind == Free
  }

  predicate HasRoom(slots: seq<Slot>, size: nat) {
    if size > 1 then exists n: nat :: n < |slots| && FreePairAt(slots, n) else HasFree(slots)
  }

  /** Code triggers are the breakpoints' and the steps', at their addresses. */
  predicate Stops(s: Table) {
    && Sized(s)
    && forall n :: 0 <= n < TRIGGERS ==>
         && (s.regs[n].evt == HALT_ON_ADDR <==> s.slots[n].kind in {User, Stepping})
         && (s.slots[n].kind in {User, Stepping} ==> s.regs[n].adr == s.slots[n].addr)
  }

  lemma AgreesStops(s: Table)
    requires Agrees(s)
    ensures Stops(s)
  {
    forall n | 0 <= n < TRIGGERS
      ensures s.regs[n].evt == HALT_ON_ADDR <==> s.slots[n].kind in {User, Stepping}
      ensures s.slots[n].kind in {User, Stepping} ==> s.regs[n].adr == s.slots[n].addr
    {
      assert SlotAgrees(s, n);
    }
  }

  /** An address asked for has a slot, unless all are in use; no other address gains or loses
      one. */
  lemma AddedHas(s: Table, addr: nat, kind: Kind)
    requires Sized(s) && kind != Free
    ensures
      var t := Added(s, addr, kind);
      && (Find(t.slots, addr) >= 0 <==> Find(s.slots, addr) >= 0 || HasFree(s.slots))
      && (forall b: nat :: b != addr ==> (Find(t.slots, b) >= 0 <==> Find(s.slots, b) >= 0))
      && (forall n :: 0 <= n < TRIGGERS && s.slots[n].kind != Free ==>
            t.slots[n] == s.slots[n] && t.regs[n] == s.regs[n])
  {
    var t, f := Added(s, addr, kind), FreeFrom(s.slots, 0);
    if t != s {
      assert InUse(t.slots, f, addr);
      forall b: nat | b != addr ensures Find(t.slots, b) >= 0 <==> Find(s.slots, b) >= 0 {
        forall n: nat ensures InUse(t.slots, n, b) <==> InUse(s.slots, n, b) {
        }
      }
    }
  }

  /** A breakpoint's address, or a step's, is one the core stops at. */
  lemma AddedStops(s: Table, addr: nat, kind: Kind)
    requires Stops(s) && kind in {User, Stepping}
    ensures Stops(Added(s, addr, kind))
  {
  }

  /** A watchpoint is set if its address had no slot and there is room, two slots of a pair for
      more than one byte, and then fires on what was asked. */
  lemma WatchArms(s: Table, addr: nat, size: nat, onRead: bool, onWrite: bool)
    requires Sized(s) && addr < WRAP && 0 < size < WRAP && Find(s.slots, addr) < 0
    ensures
      var t, n := WatchAdded(s, addr, size, onRead, onWrite), WatchSlot(s, size);
      if HasRoom(s.slots, size) then n >= 0 && Watches(t, n, addr, size, onRead, onWrite) else t == s
  {
    if size > 1 {
      assert WatchSlot(s, size) >= 0 ==> FreePairAt(s.slots, WatchSlot(s, size));
    }
    DataWordIs(onRead, onWrite, size > 1);
  }

  lemma DataWordIs(onRead: bool, onWrite: bool, range: bool)
    ensures
      var evt := DataWord(onRead, onWrite, range);
      && evt % ON_RANGE == HALT_AND_SUSPEND && (evt / ON_RANGE % 2 == 1 <==> range)
      && (evt / ON_LOAD % 2 == 1 <==> onRead) && (evt / ON_STORE % 2 == 1 <==> onWrite)
  {
  }

  // --------------------------------------------------- what each operation keeps

  lemma FindNone(slots: seq<Slot>, addr: nat)
    requires forall m: nat :: !InUse(slots, m, addr)
    ensures Find(slots, addr) < 0
  {
  }

  lemma DistinctPut(slots: seq<Slot>, n: nat, slot: Slot)
    requires Distinct(slots) && n < |slots| && (slot.kind == Free || Find(slots, slot.addr) < 0)
    ensures Distinct(slots[n := slot])
  {
    forall m | 0 <= m < |slots| && slot.kind != Free
      ensures slots[m].kind == Free || slots[m].addr != slot.addr
    {
      assert !InUse(slots, m, slot.addr);
    }
  }

  lemma AddedKeeps(s: Table, addr: nat, kind: Kind)
    requires Agrees(s) && Distinct(s.slots) && kind in {User, Stepping}
    ensures Agrees(Added(s, addr, kind)) && Distinct(Added(s, addr, kind).slots)
  {
    var t := Added(s, addr, kind);
    if t != s {
      var f := FreeFrom(s.slots, 0);
      DistinctPut(s.slots, f, t.slots[f]);
      forall n | 0 <= n < TRIGGERS ensures SlotAgrees(t, n) {
        assert SlotAgrees(s, n);
      }
    }
  }

  /** Table and registers go on agreeing; an address comes to be in two slots exactly if a
      range is set up whose upper bound already has one. */
  lemma WatchAddedKeeps(s: Table, addr: nat, size: nat, onRead: bool, onWrite: bool)
    requires Agrees(s) && Distinct(s.slots) && addr < WRAP && 0 < size < WRAP
    ensures
      var t := WatchAdded(s, addr, size, onRead, onWrite);
      && Agrees(t) && SameUsers(s.slots, t.slots)
      && (Distinct(t.slots) <==> t == s || size == 1 || Find(s.slots, (addr + size) % WRAP) < 0)
  {
    var t := WatchAdded(s, addr, size, onRead, onWrite);
    if t != s {
      WatchAgrees(s, addr, size, onRead, onWrite);
      UsersKept(s.slots, t.slots);
      if size == 1 || Find(s.slots, (addr + size) % WRAP) < 0 {
        WatchDistinct(s, addr, size, onRead, onWrite);
      } else {
        var m, f := Find(s.slots, (addr + size) % WRAP), WatchSlot(s, size);
        assert InUse(s.slots, m, (addr + size) % WRAP) && t.slots[m] == s.slots[m];
        assert t.slots[f + 1].addr == t.slots[m].addr;
      }
    }
  }

  lemma WatchAgrees(s: Table, addr: nat, size: nat, onRead: bool, onWrite: bool)
    requires Agrees(s) && addr < WRAP && 0 < size < WRAP
    ensures Agrees(WatchAdded(s, addr, size, onRead, onWrite))
  {
    var t := WatchAdded(s, addr, size, onRead, onWrite);
    if t != s {
      var f := WatchSlot(s, size);
      forall n | 0 <= n < TRIGGERS ensures SlotAgrees(t, n) {
        if n == f || (size > 1 && n == f + 1) {
          assert t.slots[f] == Slot(addr, size, Watch, onRead, onWrite);
        } else {
          OthersAgree(s, t, n);
        }
      }
    }
  }

  /** A slot is unaffected by what is put in slots that were free. */
  lemma OthersAgree(s: Table, t: Table, n: nat)
    requires Agrees(s) && Sized(t) && n < TRIGGERS && t.slots[n] == s.slots[n] && t.regs[n] == s.regs[n]
    requires forall m :: 0 <= m < TRIGGERS && s.slots[m].kind != Free ==> t.slots[m] == s.slots[m]
    ensures SlotAgrees(t, n)
  {
    assert SlotAgrees(s, n);
  }

  lemma WatchDistinct(s: Table, addr: nat, size: nat, onRead: bool, onWrite: bool)
    requires Sized(s) && Distinct(s.slots) && addr < WRAP && 0 < size < WRAP
    requires size > 1 ==> Find(s.slots, (addr + size) % WRAP) < 0
    ensures Distinct(WatchAdded(s, addr, size, onRead, onWrite).slots)
  {
    var t, f := WatchAdded(s, addr, size, onRead, onWrite), WatchSlot(s, size);
    if Find(s.slots, addr) < 0 && f >= 0 {
      var low := Slot(addr, size, Watch, onRead, onWrite);
      DistinctPut(s.slots, f, low);
      if size > 1 {
        var mid, top := s.slots[f := low], (addr + size) % WRAP;
        assert top != addr;
        forall m: nat ensures !InUse(mid, m, top) {
          assert !InUse(s.slots, m, top);
        }
        FindNone(mid, top);
        DistinctPut(mid, f + 1, Slot(top, 0, WatchHi, false, false));
      }
    }
  }

  lemma UsersKept(a: seq<Slot>, b: seq<Slot>)
    requires |a| == |b|
    requires forall n :: 0 <= n < |a| ==> a[n] == b[n] || (a[n].kind != User && b[n].kind != User)
    ensures SameUsers(a, b)
  {
    forall addr: nat ensures IsUser(a, addr) <==> IsUser(b, addr) {
      if IsUser(a, addr) {
        var n :| 0 <= n < |a| && a[n].kind == User && a[n].addr == addr;
        assert b[n] == a[n];
      }
      if IsUser(b, addr) {
        var n :| 0 <= n < |b| && b[n].kind == User && b[n].addr == addr;
        assert b[n] == a[n];
      }
    }
  }

  /** The address has no slot left; others keep theirs, but for a range's upper half. */
  lemma RemovedGone(s: Table, addr: nat)
    requires Sized(s) && Distinct(s.slots)
    ensures Distinct(Removed(s, addr).slots) && Find(Removed(s, addr).slots, addr) < 0
    ensures forall n :: 0 <= n < TRIGGERS && s.slots[n].addr != addr
                        && !(n > 0 && s.slots[n - 1].kind == Watch && s.slots[n - 1].size > 1) ==>
              Removed(s, addr).slots[n] == s.slots[n] && Removed(s, addr).regs[n] == s.regs[n]
  {
    var t, f := Removed(s, addr), Find(s.slots, addr);
    if f >= 0 {
      DistinctPut(s.slots, f, FREE_SLOT);
      var mid := s.slots[f := FREE_SLOT];
      DistinctPut(mid, if f + 1 < TRIGGERS then f + 1 else f, FREE_SLOT);
      forall m: nat ensures !InUse(t.slots, m, addr) {
        assert InUse(s.slots, f, addr);
      }
      FindNone(t.slots, addr);
    }
  }

  /** Exactly for an address that is not a range's upper bound. */
  lemma RemovedKeeps(s: Table, addr: nat)
    requires Agrees(s) && Distinct(s.slots)
    ensures
      var f := Find(s.slots, addr);
      Agrees(Removed(s, addr)) <==> f < 0 || s.slots[f].kind != WatchHi
  {
    var f := Find(s.slots, addr);
    if f >= 0 {
      assert SlotAgrees(s, f);
      if s.slots[f].kind == WatchHi {
        assert SlotAgrees(s, f - 1) && !SlotAgrees(Removed(s, addr), f - 1);
      } else {
        forall n | 0 <= n < TRIGGERS ensures SlotAgrees(Removed(s, addr), n) {
          RemovedSlot(s, addr, f, n);
        }
      }
    }
  }

  lemma RemovedSlot(s: Table, addr: nat, f: nat, n: nat)
    requires Agrees(s) && f < TRIGGERS && n < TRIGGERS && Find(s.slots, addr) == f && s.slots[f].kind != WatchHi
    ensures SlotAgrees(Removed(s, addr), n)
  {
    assert SlotAgrees(s, n) && SlotAgrees(s, f);
    if n > 0 {
      assert SlotAgrees(s, n - 1);
    }
  }

  lemma KindClearedKeeps(s: Table, kind: Kind)
    requires Agrees(s) && kind in {User, Stepping}
    ensures Agrees(KindCleared(s, kind))
  {
    var t := KindCleared(s, kind);
    forall n | 0 <= n < TRIGGERS ensures SlotAgrees(t, n) {
      assert SlotAgrees(s, n);
    }
  }

  lemma KindClearedDistinct(s: Table, kind: Kind)
    requires Sized(s) && Distinct(s.slots) && kind != Free
    ensures Distinct(KindCleared(s, kind).slots)
    ensures forall n :: 0 <= n < TRIGGERS ==> KindCleared(s, kind).slots[n].kind != kind
    ensures forall n :: 0 <= n < TRIGGERS && s.slots[n].kind != kind ==>
              KindCleared(s, kind).slots[n] == s.slots[n] && KindCleared(s, kind).regs[n] == s.regs[n]
  {
  }
}
