/** The CMSIS-DAP request queue: interrupt callbacks against the handler's loop, one shared
    access at a time. */
module UsbQueue {
  import opened Arith

  const WRAP16: nat := 0x1_0000

  /** Where the handler is: about to do what the name says. */
  datatype At =
    | LoopTest | Execute | RequestIndex | RequestCount | TestIdle | TestRoom | ClearIdle | ArmRead
    | ResponseIndex | ResponseCount | TestResponseIdle | TestPending | TakeResponse | TakenCount
    | ClearResponseIdle | StartWrite

  /** The request half.  `armed` is the slot an OUT read is armed on; arrived, executed and
      done are history: packets queued, packets executed, and how many the count has let go. */
  datatype Req = Req(slots: seq<nat>, indexIn: nat, indexOut: nat, countIn: nat, countOut: nat,
                     idle: bool, armed: int, arrived: seq<nat>, executed: seq<nat>, done: nat)

  function Diff16(a: nat, b: nat): nat
    requires a < WRAP16 && b < WRAP16
  {
    (a + WRAP16 - b) % WRAP16
  }

  function Step(i: nat, n: nat): nat { if i + 1 == n then 0 else i + 1 }

  function Inc16(c: nat): nat { (c + 1) % WRAP16 }

  /** dap_out_callback, with the packet the armed read brought in. */
  function OutDone(q: Req, packet: nat, abort: bool): Req
    requires 0 <= q.armed < |q.slots| && q.countIn < WRAP16 && q.countOut < WRAP16
  {
    var r := q.(slots := q.slots[q.armed := packet]);
    var s := if abort then r
             else r.(indexIn := Step(r.indexIn, |r.slots|), countIn := Inc16(r.countIn),
                     arrived := r.arrived + [packet]);
    if Diff16(s.countIn, s.countOut) != |s.slots| then s.(armed := s.indexIn)
    else s.(armed := -1, idle := true)
  }

  /** The handler's steps on the request half. */
  function Handled(q: Req, at: At): Req
    requires q.countIn < WRAP16 && q.countOut < WRAP16 && q.indexOut < |q.slots|
  {
    match at
    case Execute => q.(executed := q.executed + [q.slots[q.indexOut]])
    case RequestIndex => q.(indexOut := Step(q.indexOut, |q.slots|))
    case RequestCount => q.(countOut := Inc16(q.countOut), done := q.done + 1)
    case ClearIdle => q.(idle := false)
    case ArmRead => q.(armed := q.indexIn)
    case _ => q
  }

  /** Where the handler goes next, as far as the request half decides. */
  function After(q: Req, at: At): At
    requires q.countIn < WRAP16 && q.countOut < WRAP16
  {
    match at
    case LoopTest => if q.countIn != q.countOut then Execute else LoopTest
    case Execute => RequestIndex
    case RequestIndex => RequestCount
    case RequestCount => TestIdle
    case TestIdle => if q.idle then TestRoom else ResponseIndex
    case TestRoom => if Diff16(q.countIn, q.countOut) != |q.slots| then ClearIdle else ResponseIndex
    case ClearIdle => ArmRead
    case ArmRead => ResponseIndex
    case _ => at
  }

  // ------------------------------------------------------------------ invariant

  /** Executed, but not yet let go by the count. */
  predicate Pending(at: At) { at == RequestIndex || at == RequestCount }

  predicate Counters(q: Req, at: At) {
    && 1 <= |q.slots| < WRAP16 && q.done <= |q.arrived| <= q.done + |q.slots|
    && q.countIn == |q.arrived| % WRAP16 && q.countOut == q.done % WRAP16
    && q.indexIn == Mod(|q.arrived|, |q.slots|)
    && q.indexOut == Mod(if at == RequestCount then q.done + 1 else q.done, |q.slots|)
  }

  /** Requests are executed in the order they came. */
  predicate InOrder(q: Req, at: At) {
    && (at == Execute || Pending(at) ==> q.done < |q.arrived|)
    && q.executed == Prefix(q.arrived, if Pending(at) then q.done + 1 else q.done)
  }

  function Prefix(s: seq<nat>, n: nat): seq<nat> { if n <= |s| then s[..n] else s }

  /** Every request not let go is still in its slot. */
  predicate Held(q: Req)
    requires |q.slots| > 0
  {
    forall j: nat :: q.done <= j < |q.arrived| ==>
      Mod(j, |q.slots|) < |q.slots| && q.slots[Mod(j, |q.slots|)] == q.arrived[j]
  }

  /** One read is armed, on the next free slot, unless the queue is idle or the handler is
      just about to arm it; and it is idle only when full or when the handler, having made
      room, is about to see that it is. */
  predicate Arming(q: Req, at: At) {
    && (q.armed >= 0 <==> !q.idle && at != ArmRead)
    && (q.armed >= 0 ==> q.armed == q.indexIn && |q.arrived| < q.done + |q.slots|)
    && (q.idle ==> |q.arrived| == q.done + |q.slots| || (RoomMade(at) && |q.arrived| + 1 == q.done + |q.slots|))
    && (at == TestRoom ==> q.idle) && (at == ClearIdle ==> q.idle && |q.arrived| + 1 == q.done + |q.slots|)
    && (at == ArmRead ==> !q.idle && |q.arrived| < q.done + |q.slots|)
  }

  predicate RoomMade(at: At) { at == TestIdle || at == TestRoom || at == ClearIdle }

  predicate ReqInv(q: Req, at: At) {
    Counters(q, at) && InOrder(q, at) && Held(q) && Arming(q, at)
  }

  // ------------------------------------------------------- what every step keeps

  lemma DiffIs(a: nat, b: nat, n: nat)
    requires b <= a <= b + n && n < WRAP16
    ensures Diff16(a % WRAP16, b % WRAP16) == a - b
    ensures a % WRAP16 == b % WRAP16 <==> a == b
  {
  }

  lemma StepIs(m: nat, n: nat)
    requires n > 0
    ensures Step(Mod(m, n), n) == Mod(m + 1, n)
  {
    ModStep(m, n);
  }

  lemma IncIs(a: nat)
    ensures Inc16(a % WRAP16) == (a + 1) % WRAP16
  {
  }

  /** What the callback leaves, in terms of the history: the modular test is the true one. */
  lemma OutDoneIs(q: Req, at: At, packet: nat, abort: bool)
    requires Counters(q, at) && q.armed >= 0 && q.armed == q.indexIn && |q.arrived| < q.done + |q.slots|
    ensures
      var n, m := |q.slots|, |q.arrived|;
      var r := OutDone(q, packet, abort);
      var m' := if abort then m else m + 1;
      && r.slots == q.slots[Mod(m, n) := packet] && r.arrived == (if abort then q.arrived else q.arrived + [packet])
      && r.indexIn == Mod(m', n) && r.countIn == m' % WRAP16
      && r.indexOut == q.indexOut && r.countOut == q.countOut && r.executed == q.executed && r.done == q.done
      && (if m' < q.done + n then r.armed == r.indexIn && r.idle == q.idle else r.armed == -1 && r.idle)
  {
    var m := |q.arrived|;
    ModStep(m, |q.slots|);
    IncIs(m);
    DiffIs(m, q.done, |q.slots|);
    DiffIs(m + 1, q.done, |q.slots|);
  }

  lemma OutDoneKeeps(q: Req, at: At, packet: nat, abort: bool)
    requires ReqInv(q, at) && q.armed >= 0
    ensures ReqInv(OutDone(q, packet, abort), at)
    ensures OutDone(q, packet, abort).arrived == if abort then q.arrived else q.arrived + [packet]
  {
    OutDoneIs(q, at, packet, abort);
    OutDoneHeld(q, at, packet, abort);
    OutDoneOrder(q, at, packet, abort);
  }

  lemma OutDoneHeld(q: Req, at: At, packet: nat, abort: bool)
    requires Counters(q, at) && Held(q)
    requires q.armed >= 0 && q.armed == q.indexIn && |q.arrived| < q.done + |q.slots|
    ensures Held(OutDone(q, packet, abort))
  {
    OutDoneIs(q, at, packet, abort);
    var n, m, r := |q.slots|, |q.arrived|, OutDone(q, packet, abort);
    forall j: nat | r.done <= j < |r.arrived|
      ensures Mod(j, n) < n && r.slots[Mod(j, n)] == r.arrived[j]
    {
      if j < m {
        ModApart(j, m, n);
      }
    }
  }

  lemma OutDoneOrder(q: Req, at: At, packet: nat, abort: bool)
    requires Counters(q, at) && InOrder(q, at)
    requires q.armed >= 0 && q.armed == q.indexIn && |q.arrived| < q.done + |q.slots|
    ensures InOrder(OutDone(q, packet, abort), at)
  {
    OutDoneIs(q, at, packet, abort);
    PrefixGrows(q, packet, if Pending(at) then q.done + 1 else q.done);
  }

  lemma PrefixGrows(q: Req, packet: nat, e: nat)
    requires e <= |q.arrived|
    ensures Prefix(q.arrived + [packet], e) == Prefix(q.arrived, e)
  {
  }

  lemma ExecutedNext(q: Req)
    requires |q.slots| > 0 && q.done < |q.arrived| && Held(q)
    ensures Prefix(q.arrived, q.done + 1) == Prefix(q.arrived, q.done) + [q.slots[Mod(q.done, |q.slots|)]]
  {
    assert q.slots[Mod(q.done, |q.slots|)] == q.arrived[q.done];
  }

  lemma HandledIs(q: Req, at: At)
    requires Counters(q, at)
    ensures After(q, at) == (match at
                             case LoopTest => if |q.arrived| != q.done then Execute else LoopTest
                             case Execute => RequestIndex
                             case RequestIndex => RequestCount
                             case RequestCount => TestIdle
                             case TestIdle => if q.idle then TestRoom else ResponseIndex
                             case TestRoom => if |q.arrived| != q.done + |q.slots| then ClearIdle else ResponseIndex
                             case ClearIdle => ArmRead
                             case ArmRead => ResponseIndex
                             case _ => at)
  {
    DiffIs(|q.arrived|, q.done, |q.slots|);
  }

  lemma HandledCounters(q: Req, at: At)
    requires Counters(q, at) && (at == RequestCount ==> q.done < |q.arrived|)
    ensures Counters(Handled(q, at), After(q, at))
  {
    HandledIs(q, at);
    ModStep(q.done, |q.slots|);
    IncIs(q.done);
  }

  lemma HandledKeeps(q: Req, at: At)
    requires ReqInv(q, at)
    ensures ReqInv(Handled(q, at), After(q, at))
  {
    HandledCounters(q, at);
    HandledIs(q, at);
    if at == Execute {
      ExecutedNext(q);
    }
  }
}
