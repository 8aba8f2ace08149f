/** The JTAG driver: its idea of the controller's state, and the TMS bits it saves up. */
module TapDriver {
  import opened TapStates

  type Byte = bv8

  function Mask(k: nat): Byte
    requires k < 8
  {
    match k case 0 => 1 case 1 => 2 case 2 => 4 case 3 => 8 case 4 => 16 case 5 => 32 case 6 => 64 case 7 => 128
  }

  predicate BitOf(b: Byte, k: nat)
    requires k < 8
  {
    b & Mask(k) != 0
  }

  lemma SetBit(b: Byte, k: nat, j: nat)
    requires k < 8 && j < 8
    ensures BitOf(b | Mask(k), j) <==> j == k || BitOf(b, j)
    ensures !BitOf(0, j)
  {
    match k case 0 => case 1 => case 2 => case 3 => case 4 => case 5 => case 6 => case 7 =>
  }

  /** The first n bits of a buffer, low bit of each byte first. */
  function Bits(buf: seq<Byte>, n: nat): (b: seq<bool>)
    requires n <= 8 * |buf|
    ensures |b| == n
  {
    seq(n, i requires 0 <= i < n => BitOf(buf[i / 8], i % 8))
  }

  /** No bit from n on is set. */
  predicate ClearFrom(buf: seq<Byte>, n: nat) {
    forall i: nat :: n <= i < 8 * |buf| ==> !BitOf(buf[i / 8], i % 8)
  }

  function WithBit(buf: seq<Byte>, n: nat, tms: bool): (b: seq<Byte>)
    requires n < 8 * |buf|
    ensures |b| == |buf|
  {
    if tms then buf[n / 8 := buf[n / 8] | Mask(n % 8)] else buf
  }

  lemma BitAppended(buf: seq<Byte>, n: nat, tms: bool)
    requires n < 8 * |buf| && ClearFrom(buf, n)
    ensures Bits(WithBit(buf, n, tms), n + 1) == Bits(buf, n) + [tms]
    ensures ClearFrom(WithBit(buf, n, tms), n + 1)
  {
    var b := WithBit(buf, n, tms);
    forall i: nat | i < 8 * |buf|
      ensures BitOf(b[i / 8], i % 8) <==> if i == n then tms else BitOf(buf[i / 8], i % 8)
    {
      if i / 8 == n / 8 {
        SetBit(buf[n / 8], n % 8, i % 8);
      }
    }
  }

  class Driver {
    var state: Tap
    const buffer: array<Byte>
    var num: nat
    ghost var asked: seq<bool>      // the level of TMS at every clock asked for
    ghost var wire: seq<bool>       // and at every clock that has been made

    /** What was asked for is what was clocked and what is saved up. */
    ghost predicate Valid()
      reads this, buffer
    {
      && buffer.Length > 0 && num < 8 * buffer.Length && ClearFrom(buffer[..], num)
      && asked == wire + Bits(buffer[..], num)
    }

    /** The controller, in state `from` before the first clock, ends where the driver says. */
    ghost predicate InStep(from: Tap)
      reads this
    {
      Run(from, asked) == state
    }

    constructor (size: nat)
      requires size > 0
      ensures Valid() && fresh(buffer) && buffer.Length == size && asked == wire == []
    {
      state := RunTestIdle;
      buffer := new Byte[size](_ => 0);
      num := 0;
      asked, wire := [], [];
      new;
      forall i: nat | i < 8 * buffer.Length ensures !BitOf(buffer[..][i / 8], i % 8) {
        SetBit(0, 0, i % 8);
      }
    }

    method FlushTMS()
      requires Valid()
      modifies this`num, this`wire, buffer
      ensures Valid() && num == 0 && wire == asked
    {
      assert num == 0 ==> wire + Bits(buffer[..], num) == wire;
      if num != 0 {
        wire := wire + Bits(buffer[..], num);
        for i := 0 to buffer.Length
          invariant forall j :: 0 <= j < i ==> buffer[j] == 0
          modifies buffer
        {
          buffer[i] := 0;
        }
        num := 0;
        forall i: nat | i < 8 * buffer.Length ensures !BitOf(buffer[..][i / 8], i % 8) {
          SetBit(0, 0, i % 8);
        }
        assert wire + Bits(buffer[..], 0) == wire;
      }
    }

    method SetTMS(tms: bool)
      requires Valid()
      modifies this`num, this`wire, this`asked, buffer
      ensures Valid() && asked == old(asked) + [tms] && old(wire) <= wire
    {
      if num + 1 == 8 * buffer.Length {
        FlushTMS();
      }
      Append(tms);
    }

    method StoreBit(tms: bool)
      requires num < 8 * buffer.Length
      modifies buffer
      ensures buffer[..] == WithBit(old(buffer[..]), num, tms)
    {
      if tms {
        buffer[num / 8] := buffer[num / 8] | Mask(num % 8);
      }
    }

    method Append(tms: bool)
      requires Valid() && num + 1 < 8 * buffer.Length
      modifies this`num, this`asked, buffer
      ensures Valid() && asked == old(asked) + [tms]
    {
      ghost var saved := Bits(buffer[..], num);
      BitAppended(buffer[..], num, tms);
      StoreBit(tms);
      num := num + 1;
      asked := asked + [tms];
      assert asked == wire + (saved + [tms]);
    }

    /** Six clocks with TMS high: in step, whatever state the controller was in. */
    method GoTestLogicReset()
      requires Valid()
      modifies this, buffer
      ensures Valid() && wire == asked && state == TestLogicReset
      ensures old(asked) <= asked && forall from: Tap :: InStep(from)
    {
      for i := 0 to 6
        invariant Valid() && asked == old(asked) + Repeat(true, i)
      {
        SetTMS(true);
        assert Repeat(true, i) + [true] == Repeat(true, i + 1);
      }
      FlushTMS();
      state := TestLogicReset;
      forall from: Tap ensures Run(from, asked) == TestLogicReset {
        RunConcat(from, old(asked), Repeat(true, 6));
        ResetFromAnywhere(Run(from, old(asked)));
      }
    }

    /** The path from where the driver takes the controller to be. */
    method SetState(target: Tap)
      requires Valid()
      modifies this, buffer
      ensures Valid() && wire == asked && state == target
      ensures asked == old(asked) + Path(old(state), target)
    {
      assert old(asked) + Path(state, target) == asked + Path(state, target);
      while target != state
        invariant Valid() && asked + Path(state, target) == old(asked) + Path(old(state), target)
        decreases Distance(state, target)
      {
        var hop := HopTo(state, target);
        HopIsNearer(state, target);
        assert asked + Path(state, target) == asked + [hop.tms] + Path(hop.state, target);
        state := hop.state;
        SetTMS(hop.tms);
      }
      FlushTMS();
    }

    /** Shifts `len` bits, TMS rising with the last of them if asked to; then the driver
        takes the controller to have left the shift state. */
    method ReadWrite(len: nat, last: bool)
      requires Valid() && state.Scan? && state.place == Shift
      modifies this, buffer
      ensures Valid() && wire == asked && asked == old(asked) + ShiftClocks(len, last)
      ensures state == if last then Scan(old(state).column, Exit1) else old(state)
      ensures forall from: Tap :: old(InStep(from)) ==> (InStep(from) <==> len > 0 || !last)
    {
      FlushTMS();
      ghost var clocks, before := ShiftClocks(len, last), asked;
      ShiftOut(state, len, last);
      asked, wire := asked + clocks, wire + clocks;
      assert wire + Bits(buffer[..], 0) == wire;
      forall from: Tap ensures Run(from, asked) == Run(Run(from, before), clocks) {
        RunConcat(from, before, clocks);
      }
      assert state == Scan(state.column, Shift) && (state.column == DR || state.column == IR);
      if last {
        state := if state == Scan(DR, Shift) then Scan(DR, Exit1) else Scan(IR, Exit1);
      }
    }
  }

  /** TMS over `len` bits, rising with the last of them if asked to. */
  function ShiftClocks(len: nat, last: bool): (c: seq<bool>)
    ensures |c| == len
  {
    if last && len > 0 then Repeat(false, len - 1) + [true] else Repeat(false, len)
  }

  lemma {:induction false} ShiftOut(s: Tap, len: nat, last: bool)
    requires s.Scan? && s.place == Shift
    ensures Run(s, ShiftClocks(len, last)) == if last && len > 0 then Scan(s.column, Exit1) else s
  {
    var n := if last && len > 0 then len - 1 else len;
    ShiftStays(s, n);
    if last && len > 0 {
      RunSnoc(s, Repeat(false, n), true);
    }
  }

  // --------------------------------------------------------------- whole sessions

  /** bits: how many; more: devices follow in the chain, so TMS stays low throughout. */
  datatype Op =
    | ToState(target: Tap)
    | ShiftThrough(column: Column, bits: nat, more: bool, end: Tap)

  /** Only a shift of no bits that is to raise TMS with its last one loses step. */
  predicate KeepsStep(op: Op) {
    op.ShiftThrough? ==> op.bits > 0 || op.more || op.end == Scan(op.column, Shift)
  }

  function EndOf(op: Op): Tap { if op.ToState? then op.target else op.end }

  /** The levels an operation clocks, begun where the driver takes the controller to be in s. */
  function Clocks(s: Tap, op: Op): seq<bool> {
    match op
    case ToState(t) => Path(s, t)
    case ShiftThrough(c, bits, more, end) =>
      var leave := !more && end != Scan(c, Shift);
      Path(s, Scan(c, Shift)) + ShiftClocks(bits, leave)
      + Path(if leave then Scan(c, Exit1) else Scan(c, Shift), end)
  }

  /** From where the driver believes it to be, an operation takes the controller where it
      says exactly if it keeps step. */
  lemma {:induction false} ClocksLead(s: Tap, op: Op)
    ensures Run(s, Clocks(s, op)) == EndOf(op) <==> KeepsStep(op)
  {
    match op
    case ToState(t) => PathLeads(s, t);
    case ShiftThrough(c, bits, more, end) =>
      var leave := !more && end != Scan(c, Shift);
      var shift, off := Scan(c, Shift), if leave then Scan(c, Exit1) else Scan(c, Shift);
      var a, b := Path(s, shift), ShiftClocks(bits, leave);
      PathLeads(s, shift);
      RunConcat(s, a, b);
      ShiftOut(shift, bits, leave);
      RunConcat(s, a + b, Path(off, end));
      PathLeads(off, end);
      if !KeepsStep(op) {
        NeverCatchesUp(shift, off, end, c);
      }
  }

  /** How many of these clocks find the controller in a shift state: each moves one bit. */
  function Shifts(s: Tap, tms: seq<bool>, c: Column): nat
    decreases |tms|
  {
    if tms == [] then 0
    else
      var before := tms[..|tms| - 1];
      Shifts(s, before, c) + if Run(s, before) == Scan(c, Shift) then 1 else 0
  }

  lemma {:induction false} ShiftsConcat(s: Tap, a: seq<bool>, b: seq<bool>, c: Column)
    ensures Shifts(s, a + b, c) == Shifts(s, a, c) + Shifts(Run(s, a), b, c)
    decreases |b|
  {
    if b == [] {
      assert a + b == a;
    } else {
      var n := |b| - 1;
      assert (a + b)[..|a + b| - 1] == a + b[..n];
      RunConcat(s, a, b[..n]);
      ShiftsConcat(s, a, b[..n], c);
    }
  }

  /** On the way to a shift state it is not in one. */
  lemma {:induction false} NoneOnTheWay(s: Tap, c: Column)
    ensures Shifts(s, Path(s, Scan(c, Shift)), c) == 0
    decreases Distance(s, Scan(c, Shift))
  {
    var t := Scan(c, Shift);
    if s != t {
      FirstHop(s, t, c);
      NoneOnTheWay(HopTo(s, t).state, c);
    }
  }

  lemma {:induction false} FirstHop(s: Tap, t: Tap, c: Column)
    requires s != t
    ensures Distance(s, t) == 1 + Distance(HopTo(s, t).state, t)
    ensures Shifts(s, Path(s, t), c)
         == (if s == Scan(c, Shift) then 1 else 0) + Shifts(HopTo(s, t).state, Path(HopTo(s, t).state, t), c)
  {
    var hop := HopTo(s, t);
    HopIsNearer(s, t);
    HopIsMove(s, t);
    ShiftsConcat(s, [hop.tms], Path(hop.state, t), c);
    RunCons(s, hop.tms, []);
    assert [hop.tms] + [] == [hop.tms] && [hop.tms][..0] == [];
  }

  /** Nor after it has left for anywhere else. */
  predicate Leaving(s: Tap, t: Tap, c: Column) {
    && t != Scan(c, Shift) && s != Scan(c, Shift)
    && (s == Scan(c, Exit2) ==> !Among(t, c, {Exit1, Pause}))
    && (s == Scan(c, Pause) ==> !Among(t, c, {Exit1}))
  }

  lemma LeavingOn(s: Tap, t: Tap, c: Column)
    requires Leaving(s, t, c) && s != t
    ensures Leaving(HopTo(s, t).state, t, c)
  {
  }

  lemma {:induction false} NoneOnTheWayOut(s: Tap, t: Tap, c: Column)
    requires Leaving(s, t, c)
    ensures Shifts(s, Path(s, t), c) == 0
    decreases Distance(s, t)
  {
    if s != t {
      FirstHop(s, t, c);
      LeavingOn(s, t, c);
      NoneOnTheWayOut(HopTo(s, t).state, t, c);
    }
  }

  lemma {:induction false} AllShift(c: Column, len: nat, last: bool)
    ensures Shifts(Scan(c, Shift), ShiftClocks(len, last), c) == len
  {
    AllStay(c, len);
    if last && len > 0 {
      AllStay(c, len - 1);
      ShiftStays(Scan(c, Shift), len - 1);
      assert ShiftClocks(len, last)[..len - 1] == Repeat(false, len - 1);
    }
  }

  lemma {:induction false} AllStay(c: Column, n: nat)
    ensures Shifts(Scan(c, Shift), Repeat(false, n), c) == n
  {
    if n > 0 {
      AllStay(c, n - 1);
      ShiftStays(Scan(c, Shift), n - 1);
      assert Repeat(false, n)[..n - 1] == Repeat(false, n - 1);
    }
  }

  /** An operation moves as many bits through the register as it is given, and one more if it
      leaves with devices still to follow. */
  lemma {:induction false} BitsMoved(s: Tap, op: Op)
    requires op.ShiftThrough? && KeepsStep(op)
    ensures Shifts(s, Clocks(s, op), op.column)
         == op.bits + if op.more && op.end != Scan(op.column, Shift) then 1 else 0
  {
    var c, end := op.column, op.end;
    var leave := !op.more && end != Scan(c, Shift);
    var shift, off := Scan(c, Shift), if leave then Scan(c, Exit1) else Scan(c, Shift);
    var a, b := Path(s, shift), ShiftClocks(op.bits, leave);
    PathLeads(s, shift);
    ShiftOut(shift, op.bits, leave);
    RunConcat(s, a, b);
    ShiftsConcat(s, a + b, Path(off, end), c);
    ShiftsConcat(s, a, b, c);
    NoneOnTheWay(s, c);
    AllShift(c, op.bits, leave);
    if leave {
      NoneOnTheWayOut(off, end, c);
    } else if end != shift {
      FirstHop(shift, end, c);
      NoneOnTheWayOut(Scan(c, Exit1), end, c);
    }
  }

  /** shiftDR and shiftIR. */
  method MoveThrough(d: Driver, column: Column, bits: nat, more: bool, end: Tap)
    requires d.Valid()
    modifies d, d.buffer
    ensures d.Valid() && d.wire == d.asked && d.state == end
    ensures d.asked == old(d.asked) + Clocks(old(d.state), ShiftThrough(column, bits, more, end))
    ensures forall from: Tap :: old(d.InStep(from)) ==>
              (d.InStep(from) <==> KeepsStep(ShiftThrough(column, bits, more, end)))
  {
    ghost var s, before, shift := d.state, d.asked, Scan(column, Shift);
    var leave := !more && end != Scan(column, Shift);
    if d.state != Scan(column, Shift) {
      d.SetState(Scan(column, Shift));
    }
    assert d.asked == before + Path(s, shift);
    d.ReadWrite(bits, leave);
    ghost var off := d.state;
    if end != Scan(column, Shift) {
      d.SetState(end);
    }
    assert d.asked == before + Path(s, shift) + ShiftClocks(bits, leave) + Path(off, end);
    Regroup(before, Path(s, shift), ShiftClocks(bits, leave), Path(off, end));
    Performed(s, before, d.asked, ShiftThrough(column, bits, more, end));
  }

  lemma Regroup(x: seq<bool>, a: seq<bool>, b: seq<bool>, c: seq<bool>)
    ensures x + a + b + c == x + (a + b + c)
  {
  }

  lemma Performed(s: Tap, before: seq<bool>, after: seq<bool>, op: Op)
    requires after == before + Clocks(s, op)
    ensures forall from: Tap :: Run(from, before) == s ==> (Run(from, after) == EndOf(op) <==> KeepsStep(op))
  {
    ClocksLead(s, op);
    forall from: Tap ensures Run(from, after) == Run(Run(from, before), Clocks(s, op)) {
      RunConcat(from, before, Clocks(s, op));
    }
  }

  /** One operation. */
  method Perform(d: Driver, op: Op)
    requires d.Valid()
    modifies d, d.buffer
    ensures d.Valid() && d.wire == d.asked && d.state == EndOf(op) && old(d.asked) <= d.asked
    ensures forall from: Tap :: old(d.InStep(from)) ==> (d.InStep(from) <==> KeepsStep(op))
  {
    match op {
      case ToState(t) =>
        ghost var s, before := d.state, d.asked;
        d.SetState(t);
        Performed(s, before, d.asked, op);
      case ShiftThrough(c, bits, more, end) => MoveThrough(d, c, bits, more, end);
    }
  }

  predicate AllKeepStep(ops: seq<Op>, n: nat)
    requires n <= |ops|
  {
    forall i :: 0 <= i < n ==> KeepsStep(ops[i])
  }

  /** After a reset, whatever the controller was doing before it, every operation of a session
      ends with the controller in the state the driver says, up to the first shift of no bits
      that is to leave: that one ends with the controller elsewhere. */
  method Session(d: Driver, ops: seq<Op>) returns (ghost ends: seq<nat>)
    requires d.Valid() && d.asked == []
    modifies d, d.buffer
    ensures d.Valid() && |ends| == |ops|
    ensures forall i :: 0 <= i < |ops| ==> ends[i] <= |d.wire|
    ensures forall i, from: Tap :: 0 <= i < |ops| && AllKeepStep(ops, i) ==>
              (Run(from, d.wire[..ends[i]]) == EndOf(ops[i]) <==> KeepsStep(ops[i]))
  {
    ends := [];
    d.GoTestLogicReset();
    forall from: Tap ensures Run(from, d.wire) == Run(TestLogicReset, d.wire) {
      assert d.InStep(from) && d.InStep(TestLogicReset);
    }
    for i := 0 to |ops|
      invariant d.Valid() && d.wire == d.asked && |ends| == i
      invariant FromAnywhere(d.wire) && (AllKeepStep(ops, i) ==> d.InStep(TestLogicReset))
      invariant forall j :: 0 <= j < i ==> ends[j] <= |d.wire|
      invariant forall j :: 0 <= j < i && AllKeepStep(ops, j) ==> Reached(ops[j], d.wire, ends[j])
    {
      ghost var was := d.wire;
      Perform(d, ops[i]);
      StillAnywhere(was, d.wire);
      StillReached(ops, i, was, d.wire, ends);
      ends := ends + [|d.wire|];
      assert d.wire[..|d.wire|] == d.wire;
    }
  }

  lemma StillReached(ops: seq<Op>, i: nat, was: seq<bool>, wire: seq<bool>, ends: seq<nat>)
    requires i <= |ops| && |ends| == i && was <= wire
    requires forall j :: 0 <= j < i ==> ends[j] <= |was|
    requires forall j :: 0 <= j < i && AllKeepStep(ops, j) ==> Reached(ops[j], was, ends[j])
    ensures forall j :: 0 <= j < i && AllKeepStep(ops, j) ==> Reached(ops[j], wire, ends[j])
  {
    forall j | 0 <= j < i && AllKeepStep(ops, j) ensures Reached(ops[j], wire, ends[j]) {
      assert Reached(ops[j], was, ends[j]);
      assert wire[..ends[j]] == was[..ends[j]];
    }
  }

  /** The clocks so far end in one state wherever they start. */
  ghost predicate FromAnywhere(clocks: seq<bool>) {
    forall from: Tap :: Run(from, clocks) == Run(TestLogicReset, clocks)
  }

  /** An operation that ended after `at` clocks ended where it should, if it keeps step. */
  ghost predicate Reached(op: Op, wire: seq<bool>, at: nat) {
    at <= |wire| && forall from: Tap :: Run(from, wire[..at]) == EndOf(op) <==> KeepsStep(op)
  }

  lemma StillAnywhere(a: seq<bool>, b: seq<bool>)
    requires a <= b && FromAnywhere(a)
    ensures FromAnywhere(b)
  {
    var rest := b[|a|..];
    assert b == a + rest;
    forall from: Tap ensures Run(from, b) == Run(TestLogicReset, b) {
      RunConcat(from, a, rest);
      RunConcat(TestLogicReset, a, rest);
    }
  }
}
