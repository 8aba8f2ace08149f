/** The data flash side of the DMU's command interpreter, one command cycle at a time. */
module UcbDevice {
  import opened Common

  type Page = p: seq<Byte> | |p| == 4 witness [0, 0, 0, 0]

  type Flash = nat -> Byte

  const UCB_BASE: nat := 0xAF40_0000
  const UCB_SIZE: nat := 0x200
  const ERASED_BYTE: Byte := 0x00

  datatype Armed = Disarmed | ToErase | ToProgram

  /** What a write to one of the interpreter's cycle addresses asks for. */
  datatype Cycle =
    | ClearStatus             // 0x5554, 0xFA
    | EnterPage               // 0x5554, 0x5D
    | LoadLow(low: Page)      // 0x55F0
    | LoadHigh(high: Page)    // 0x55F4
    | Address(address: nat)   // 0xAA50
    | Count(count: nat)       // 0xAA58
    | Setup(value: Byte)      // 0xAAA8

  /** `refused` is the error latch: a command the interpreter would not carry out. */
  datatype Dmu = Dmu(flash: Flash, page: bool, low: Page, high: Page, address: nat, count: nat,
                     armed: Armed, refused: bool)

  function Erased(f: Flash, address: nat, count: nat): Flash {
    (a: nat) => if Within(a, address, count * UCB_SIZE) then ERASED_BYTE else f(a)
  }

  function PageWritten(f: Flash, address: nat, low: Page, high: Page): Flash {
    (a: nat) => if Within(a, address, 8) then (low + high)[a - address] else f(a)
  }

  function Taken(s: Dmu, c: Cycle): Dmu {
    match c
    case ClearStatus => s.(page := false, armed := Disarmed, refused := false)
    case EnterPage => s.(page := true)
    case LoadLow(w) => s.(low := w)
    case LoadHigh(w) => s.(high := w)
    case Address(a) => s.(address := a)
    case Count(n) => s.(count := n)
    case Setup(v) =>
      if v == 0x80 then s.(armed := ToErase)
      else if v == 0xA0 then s.(armed := ToProgram)
      else if v == 0x50 && s.armed == ToErase then
        s.(armed := Disarmed, flash := Erased(s.flash, s.address, s.count))
      else if v == 0xAA && s.armed == ToProgram && s.page then
        s.(armed := Disarmed, page := false, flash := PageWritten(s.flash, s.address, s.low, s.high))
      else s.(armed := Disarmed, refused := true)
  }

  /** A cycle is taken, or refused with the latch set, or - only if the probe reports it - lost. */
  ghost predicate Next(s: Dmu, c: Cycle, t: Dmu, ok: bool) {
    t == Taken(s, c) || t == Taken(s, c).(flash := s.flash, refused := true) || (!ok && t == s)
  }

  class Target {
    var dmu: Dmu
    ghost var trace: seq<Flash>     // the flash after every cycle
    ghost var missed: bool          // a refusal that could not be read back
    ghost var faults: nat           // accesses that failed, commands refused for no fault of the sequence

    constructor (flash: Flash)
      ensures dmu.flash == flash && trace == [flash] && !missed
    {
      dmu := Dmu(flash, false, [0, 0, 0, 0], [0, 0, 0, 0], 0, 0, Disarmed, false);
      trace := [flash];
      missed, faults := false, 0;
    }

    method Do(c: Cycle) returns (ok: bool)
      modifies this
      ensures Next(old(dmu), c, dmu, ok) && trace == old(trace) + [dmu.flash] && missed == old(missed)
      ensures faults >= old(faults) && (faults == old(faults) ==> ok && dmu == Taken(old(dmu), c))
    {
      ok := *;
      var lost: bool, refuses: bool := *, *;
      faults := faults + if ok && !refuses then 0 else 1;
      if ok || !lost {
        var was := dmu.flash;
        dmu := Taken(dmu, c);
        if refuses {
          dmu := dmu.(flash := was, refused := true);
        }
      }
      trace := trace + [dmu.flash];
    }

    /** Idle in time, and no error that could be read; then the interpreter is cleared. */
    method WaitIdle() returns (ok: bool)
      modifies this
      ensures dmu.flash == old(dmu.flash) && trace == old(trace) + [dmu.flash]
      ensures ok && !missed ==> !old(dmu.refused)
      ensures old(missed) ==> missed
      ensures faults >= old(faults)
      ensures faults == old(faults) && !old(dmu.refused) ==> ok && missed == old(missed)
    {
      var idle: bool, errorRead: bool := *, *;
      ok := idle && !(errorRead && dmu.refused);
      missed := missed || (ok && dmu.refused);
      faults := faults + if idle then 0 else 1;
      var _ := Do(ClearStatus);
    }

    /** An access that may fail. */
    method Access() returns (ok: bool)
      modifies this`faults
      ensures faults == old(faults) + if ok then 0 else 1
    {
      ok := *;
      faults := faults + if ok then 0 else 1;
    }

    /** A block as the target's bus shows it. */
    method ReadBlock(base: nat) returns (ok: bool, bytes: seq<Byte>)
      modifies this`faults
      ensures faults == old(faults) + if ok then 0 else 1
      ensures ok ==> bytes == BlockOf(dmu.flash, base)
    {
      ok := Access();
      bytes := if ok then BlockOf(dmu.flash, base) else [];
    }
  }

  function BlockOf(f: Flash, base: nat): (b: seq<Byte>)
    ensures |b| == UCB_SIZE && forall i :: 0 <= i < UCB_SIZE ==> b[i] == f(base + i)
  {
    seq(UCB_SIZE, i requires 0 <= i => f(base + i))
  }

  lemma WrittenAt(f: Flash, address: nat, low: Page, high: Page, k: nat)
    requires k < 8
    ensures PageWritten(f, address, low, high)(address + k) == (low + high)[k]
  {
    assert Within(address + k, address, 8) && address + k - address == k;
  }
}
