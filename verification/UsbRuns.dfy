/** Both CMSIS-DAP queues together, over whole runs. */
module UsbRuns {
  import opened Arith
  import opened UsbQueue
  import opened UsbResponse

  datatype System = System(q: Req, p: Resp, at: At)

  /** What happens next: a packet has come in, a write has gone out, or the handler makes
      its next access. */
  datatype Event = PacketIn(packet: nat, abort: bool) | WriteOut | HandlerMoves(answer: nat)

  /** As the first CONFIGURED event leaves it. */
  function Configured(packets: nat, blank: nat): System {
    var empty := seq(packets, _ => blank);
    System(Req(empty, 0, 0, 0, 0, false, 0, [], [], 0),
           Resp(empty, 0, 0, 0, 0, true, -1, 0, [], 0, 0, 0, []), LoopTest)
  }

  predicate InRange(s: System) {
    && s.q.countIn < WRAP16 && s.q.countOut < WRAP16 && s.q.indexOut < |s.q.slots|
    && s.q.armed < |s.q.slots| && s.p.sending < |s.p.slots| && s.p.indexIn < |s.p.slots|
  }

  predicate Enabled(s: System, e: Event) {
    match e
    case PacketIn(_, _) => s.q.armed >= 0
    case WriteOut => s.p.sending >= 0
    case HandlerMoves(_) => true
  }

  function Next(s: System, e: Event): System
    requires InRange(s) && Enabled(s, e)
  {
    match e
    case PacketIn(packet, abort) => s.(q := OutDone(s.q, packet, abort))
    case WriteOut => s.(p := InDone(s.p))
    case HandlerMoves(answer) =>
      System(Handled(s.q, s.at), Answered(s.p, s.at, answer),
             if OnResponses(s.at) then Then(s.p, s.at) else After(s.q, s.at))
  }

  /** A host that never has more requests out than there are packet buffers. */
  predicate Polite(s: System, e: Event) {
    e.PacketIn? && !e.abort ==> |s.q.arrived| < s.p.done + |s.p.slots|
  }

  /** A command is executed only while the host has had all but fewer of the answers than
      there are packet buffers. */
  predicate Fits(s: System, e: Event) {
    e.HandlerMoves? && s.at == Execute ==> |s.p.answers| < s.p.done + |s.p.slots|
  }

  predicate BothInv(s: System) {
    ReqInv(s.q, s.at) && RespInv(s.p, s.at) && |s.p.slots| == |s.q.slots| && |s.p.answers| == |s.q.executed|
  }

  predicate SysInv(s: System) {
    BothInv(s) && |s.q.arrived| <= s.p.done + |s.p.slots|
  }

  lemma StartInv(packets: nat, blank: nat)
    requires 1 <= packets < WRAP16
    ensures SysInv(Configured(packets, blank)) && Ranged(Configured(packets, blank).p)
  {
  }

  /** On the response steps the request half only stands by. */
  lemma StandsBy(q: Req, at: At, p: Resp)
    requires ReqInv(q, at) && OnResponses(at)
    ensures ReqInv(q, Then(p, at)) && Handled(q, at) == q
  {
  }

  lemma ResponseStepKeeps(s: System, answer: nat)
    requires BothInv(s) && OnResponses(s.at)
    ensures BothInv(System(s.q, Answered(s.p, s.at, answer), Then(s.p, s.at)))
  {
    StandsBy(s.q, s.at, s.p);
    AnsweredKeeps(s.p, s.at, answer);
  }

  lemma RequestStepKeepsBoth(s: System, answer: nat)
    requires BothInv(s) && !OnResponses(s.at) && Fits(s, HandlerMoves(answer))
    ensures BothInv(System(Handled(s.q, s.at), Answered(s.p, s.at, answer), After(s.q, s.at)))
  {
    HandledKeeps(s.q, s.at);
    if s.at == Execute {
      ExecuteKeeps(s.p, answer);
    } else {
      RequestStepKeeps(s.p, s.q, s.at);
    }
  }

  lemma NextKeeps(s: System, e: Event)
    requires BothInv(s) && Enabled(s, e) && Fits(s, e) && InRange(s)
    ensures BothInv(Next(s, e))
  {
    match e
    case PacketIn(packet, abort) =>
      OutDoneKeeps(s.q, s.at, packet, abort);
      OutDoneIs(s.q, s.at, packet, abort);
    case WriteOut => InDoneKeeps(s.p, s.at);
    case HandlerMoves(answer) =>
      if OnResponses(s.at) {
        StandsBy(s.q, s.at, s.p);
        ResponseStepKeeps(s, answer);
      } else {
        RequestStepKeepsBoth(s, answer);
      }
  }

  /** With a polite host every answer has room. */
  lemma PoliteNext(s: System, e: Event)
    requires SysInv(s) && Enabled(s, e) && Polite(s, e) && InRange(s)
    ensures Fits(s, e) && SysInv(Next(s, e))
  {
    if s.at == Execute {
      RoomToExecute(s);
    }
    NextKeeps(s, e);
    PoliteBound(s, e);
  }

  lemma PoliteBound(s: System, e: Event)
    requires SysInv(s) && Enabled(s, e) && Polite(s, e) && InRange(s)
    ensures |Next(s, e).q.arrived| <= Next(s, e).p.done + |Next(s, e).p.slots|
  {
    match e
    case PacketIn(packet, abort) => PoliteIn(s, packet, abort);
    case WriteOut => WrittenOut(s.p);
    case HandlerMoves(answer) => HandlerWaits(s, answer);
  }

  lemma WrittenOut(p: Resp)
    requires 0 <= p.sending < |p.slots|
    ensures InDone(p).done == p.done + 1 && InDone(p).slots == p.slots
  {
  }

  lemma RoomToExecute(s: System)
    requires SysInv(s) && s.at == Execute
    ensures |s.p.answers| < s.p.done + |s.p.slots|
  {
    assert |s.q.executed| == s.q.done < |s.q.arrived|;
  }

  lemma PoliteIn(s: System, packet: nat, abort: bool)
    requires SysInv(s) && s.q.armed >= 0 && (abort || |s.q.arrived| < s.p.done + |s.p.slots|)
    ensures s.q.armed < |s.q.slots| && s.q.countIn < WRAP16 && s.q.countOut < WRAP16
    ensures |OutDone(s.q, packet, abort).arrived| <= s.p.done + |s.p.slots|
  {
    OutDoneKeeps(s.q, s.at, packet, abort);
  }

  lemma HandlerWaits(s: System, answer: nat)
    requires SysInv(s) && InRange(s)
    ensures Handled(s.q, s.at).arrived == s.q.arrived
    ensures Answered(s.p, s.at, answer).done == s.p.done && |Answered(s.p, s.at, answer).slots| == |s.p.slots|
  {
  }

  /** s after a run; impossible if an event in it could not happen. */
  datatype Ran = Impossible | Reached(state: System)

  function RunAll(s: System, events: seq<Event>): Ran
    decreases |events|
  {
    if events == [] then Reached(s)
    else if InRange(s) && Enabled(s, events[0]) then RunAll(Next(s, events[0]), events[1..])
    else Impossible
  }

  /** The host is polite all along. */
  predicate PoliteRun(s: System, events: seq<Event>)
    decreases |events|
  {
    events != [] && InRange(s) && Enabled(s, events[0]) ==>
      Polite(s, events[0]) && PoliteRun(Next(s, events[0]), events[1..])
  }

  /** Every answer has room when it is given. */
  predicate FitRun(s: System, events: seq<Event>)
    decreases |events|
  {
    events != [] && InRange(s) && Enabled(s, events[0]) ==>
      Fits(s, events[0]) && FitRun(Next(s, events[0]), events[1..])
  }

  // ------------------------------------------------- requests, whatever the host does

  /** All that is left of the response half when answers may overwrite one another. */
  predicate Ranged(p: Resp) {
    p.indexIn < |p.slots| && p.indexOut < |p.slots| && p.taking < |p.slots| && p.sending < |p.slots|
  }

  /** What came and what was executed is never taken back. */
  predicate Grown(q: Req, r: Req) { q.arrived <= r.arrived && q.executed <= r.executed }

  lemma AnyNextKeeps(s: System, e: Event)
    requires ReqInv(s.q, s.at) && Ranged(s.p) && Enabled(s, e)
    ensures InRange(s) && ReqInv(Next(s, e).q, Next(s, e).at) && Ranged(Next(s, e).p) && Grown(s.q, Next(s, e).q)
  {
    match e
    case PacketIn(packet, abort) =>
      OutDoneKeeps(s.q, s.at, packet, abort);
      OutDoneIs(s.q, s.at, packet, abort);
    case WriteOut =>
    case HandlerMoves(answer) => AnyMoveKeeps(s, answer);
  }

  lemma AnyMoveKeeps(s: System, answer: nat)
    requires ReqInv(s.q, s.at) && Ranged(s.p) && InRange(s)
    ensures
      var t := Next(s, HandlerMoves(answer));
      ReqInv(t.q, t.at) && Ranged(t.p) && Grown(s.q, t.q)
  {
    HandledKeeps(s.q, s.at);
    if OnResponses(s.at) {
      StandsBy(s.q, s.at, s.p);
    }
  }

  lemma {:induction false} AnyRunFrom(s: System, events: seq<Event>)
    requires ReqInv(s.q, s.at) && Ranged(s.p) && RunAll(s, events).Reached?
    ensures
      var t := RunAll(s, events).state;
      InRange(t) && ReqInv(t.q, t.at) && Ranged(t.p) && Grown(s.q, t.q)
    decreases |events|
  {
    if events != [] {
      AnyNextKeeps(s, events[0]);
      AnyRunFrom(Next(s, events[0]), events[1..]);
    } else {
      AnyNextKeeps(s, HandlerMoves(0));
    }
  }

  /** For every run from the first CONFIGURED event, whatever the host does: requests are
      executed in the order they came; a read is armed exactly if the queue is not idle and
      the handler is not about to arm one, and never on a request still to be executed; the
      queue is idle only when full or when the handler is about to find room in it. */
  lemma {:induction false} RequestsAlwaysServed(packets: nat, blank: nat, events: seq<Event>)
    requires 1 <= packets < WRAP16 && RunAll(Configured(packets, blank), events).Reached?
    ensures
      var t := RunAll(Configured(packets, blank), events).state;
      && InRange(t) && ReqInv(t.q, t.at) && t.q.executed <= t.q.arrived
      && (t.q.armed >= 0 <==> !t.q.idle && t.at != ArmRead)
      && (t.q.armed >= 0 ==> forall j: nat :: t.q.done <= j < |t.q.arrived| ==> Mod(j, |t.q.slots|) != t.q.armed)
      && (t.q.idle ==> |t.q.arrived| == t.q.done + |t.q.slots| || RoomMade(t.at))
  {
    var s := Configured(packets, blank);
    StartInv(packets, blank);
    AnyRunFrom(s, events);
    var t := RunAll(s, events).state;
    forall j: nat | t.q.armed >= 0 && t.q.done <= j < |t.q.arrived| ensures Mod(j, |t.q.slots|) != t.q.armed {
      ArmedSlotFree(t.q, t.at, j);
    }
  }

  /** The armed read never lands on a request still to be executed. */
  lemma {:induction false} ArmedSlotFree(q: Req, at: At, j: nat)
    requires ReqInv(q, at) && q.armed >= 0 && q.done <= j < |q.arrived|
    ensures Mod(j, |q.slots|) != q.armed
  {
    ModApart(j, |q.arrived|, |q.slots|);
  }

  // ----------------------------------------------------------------------- progress

  /** How many steps the handler is at most away from executing a waiting request. */
  function StepsLeft(at: At): nat {
    match at
    case Execute => 1 case LoopTest => 2 case StartWrite => 3 case ClearResponseIdle => 4 case TakenCount => 5
    case TakeResponse => 6 case TestPending => 7 case TestResponseIdle => 8 case ResponseCount => 9
    case ResponseIndex => 10 case ArmRead => 11 case ClearIdle => 12 case TestRoom => 13 case TestIdle => 14
    case RequestCount => 15 case RequestIndex => 16
  }

  function Moves(events: seq<Event>): nat {
    if events == [] then 0 else (if events[0].HandlerMoves? then 1 else 0) + Moves(events[1..])
  }

  lemma CloserToExecute(s: System, answer: nat)
    requires ReqInv(s.q, s.at) && Ranged(s.p) && InRange(s) && |s.q.executed| < |s.q.arrived|
    ensures
      var t := Next(s, HandlerMoves(answer));
      |t.q.executed| == |s.q.executed| + 1 || (t.q.executed == s.q.executed && StepsLeft(t.at) < StepsLeft(s.at))
  {
    HandledIs(s.q, s.at);
  }

  /** A waiting request is executed within sixteen of the handler's steps, whatever else happens
      between them. */
  lemma {:induction false} ServedWithin(s: System, events: seq<Event>)
    requires ReqInv(s.q, s.at) && Ranged(s.p) && |s.q.executed| < |s.q.arrived|
    requires RunAll(s, events).Reached? && Moves(events) >= StepsLeft(s.at)
    ensures |RunAll(s, events).state.q.executed| > |s.q.executed|
    decreases |events|
  {
    if events != [] {
      var e := events[0];
      var t := Next(s, e);
      AnyNextKeeps(s, e);
      if e.HandlerMoves? {
        CloserToExecute(s, e.answer);
      }
      if |t.q.executed| > |s.q.executed| {
        AnyRunFrom(t, events[1..]);
      } else {
        ServedWithin(t, events[1..]);
      }
    }
  }

  // ------------------------------------------------------------------------ answers

  lemma {:induction false} RunKeeps(s: System, events: seq<Event>)
    requires BothInv(s) && RunAll(s, events).Reached? && FitRun(s, events)
    ensures BothInv(RunAll(s, events).state)
    decreases |events|
  {
    if events != [] {
      NextKeeps(s, events[0]);
      RunKeeps(Next(s, events[0]), events[1..]);
    }
  }

  /** As long as every answer has room, the answers the host has are the first ones given, in
      order, and there is one for every request executed; a response waits unsent only if the
      handler is about to see it. */
  lemma {:induction false} ResponsesInOrder(packets: nat, blank: nat, events: seq<Event>)
    requires 1 <= packets < WRAP16
    requires RunAll(Configured(packets, blank), events).Reached? && FitRun(Configured(packets, blank), events)
    ensures
      var t := RunAll(Configured(packets, blank), events).state;
      && t.p.received <= t.p.answers && |t.p.answers| == |t.q.executed|
      && (t.p.idle && t.p.given != t.p.taken ==> SeesPending(t.at))
  {
    StartInv(packets, blank);
    RunKeeps(Configured(packets, blank), events);
  }

  lemma {:induction false} PoliteFrom(s: System, events: seq<Event>)
    requires SysInv(s) && PoliteRun(s, events)
    ensures FitRun(s, events)
    decreases |events|
  {
    if events != [] && InRange(s) && Enabled(s, events[0]) {
      PoliteNext(s, events[0]);
      PoliteFrom(Next(s, events[0]), events[1..]);
    }
  }

  /** Which they have if the host keeps no more requests out than there are buffers. */
  lemma {:induction false} PoliteIsEnough(packets: nat, blank: nat, events: seq<Event>)
    requires 1 <= packets < WRAP16 && PoliteRun(Configured(packets, blank), events)
    ensures FitRun(Configured(packets, blank), events)
  {
    StartInv(packets, blank);
    PoliteFrom(Configured(packets, blank), events);
  }

  /** The first answer without room goes to the slot whose write is in flight. */
  lemma NoRoom(p: Resp)
    requires RespInv(p, Execute) && |p.answers| >= p.done + |p.slots|
    ensures p.sending >= 0 && p.sending == p.indexIn && p.done < |p.answers|
  {
    assert |p.answers| == p.done + |p.slots|;
    assert Mod(p.done + |p.slots|, |p.slots|) == Mod(p.done, |p.slots|);
  }

  /** How many steps the handler is at most away from sending an answer that waits. */
  function StepsToSend(at: At): nat {
    match at
    case StartWrite => 1 case ClearResponseIdle => 2 case TakenCount => 3 case TakeResponse => 4 case TestPending => 5
    case TestResponseIdle => 6 case ResponseCount => 7 case ResponseIndex => 8 case ArmRead => 9 case ClearIdle => 10
    case TestRoom => 11 case TestIdle => 12 case RequestCount => 13 case RequestIndex => 14 case _ => 0
  }

  lemma CloserToSend(s: System, e: Event)
    requires BothInv(s) && InRange(s) && Enabled(s, e) && Fits(s, e) && s.p.done < |s.p.answers| && s.p.sending < 0
    ensures
      var t := Next(s, e);
      t.p.sending >= 0
      || (t.p.done == s.p.done && |t.p.answers| >= |s.p.answers|
          && StepsToSend(t.at) + (if e.HandlerMoves? then 1 else 0) <= StepsToSend(s.at))
  {
    CountsDiffer(s.p, s.at);
  }

  /** An answer given is on its way within fourteen of the handler's steps, as long as answers have
      room. */
  lemma {:induction false} SentWithin(s: System, events: seq<Event>) returns (n: nat)
    requires BothInv(s) && RunAll(s, events).Reached? && FitRun(s, events)
    requires s.p.done < |s.p.answers| && Moves(events) >= StepsToSend(s.at)
    ensures n <= |events| && RunAll(s, events[..n]).Reached? && RunAll(s, events[..n]).state.p.sending >= 0
    decreases |events|
  {
    if s.p.sending >= 0 {
      n := 0;
    } else {
      if events == [] {
        NotLeftWaiting(s.p, s.at);
      }
      var e, rest := events[0], events[1..];
      NextKeeps(s, e);
      CloserToSend(s, e);
      n := 0;
      if Next(s, e).p.sending < 0 {
        n := SentWithin(Next(s, e), rest);
      }
      n := n + 1;
      OneBefore(s, events, n);
    }
  }

  /** Only on its way there does the handler leave an answer unsent. */
  lemma NotLeftWaiting(p: Resp, at: At)
    requires RespInv(p, at) && p.done < |p.answers| && StepsToSend(at) == 0
    ensures p.sending >= 0
  {
    CountsDiffer(p, at);
  }

  lemma {:induction false} OneBefore(s: System, events: seq<Event>, n: nat)
    requires 0 < n <= |events| && InRange(s) && Enabled(s, events[0])
    ensures RunAll(s, events[..n]) == RunAll(Next(s, events[0]), events[1..][..n - 1])
  {
    assert events[..n][0] == events[0] && events[..n][1..] == events[1..][..n - 1];
  }

  // ------------------------------------------------------------- and without room

  lemma {:induction false} RunSnoc(s: System, events: seq<Event>, e: Event)
    requires RunAll(s, events).Reached?
    requires var t := RunAll(s, events).state; InRange(t) && Enabled(t, e)
    ensures RunAll(s, events + [e]) == Reached(Next(RunAll(s, events).state, e))
    decreases |events|
  {
    if events == [] {
      assert ([] + [e])[1..] == [];
    } else {
      assert (events + [e])[1..] == events[1..] + [e];
      RunSnoc(Next(s, events[0]), events[1..], e);
    }
  }

  /** What the host gets for an answer whose write is in flight while the next is executed. */
  lemma NextHad(p: Resp, answer: nat)
    requires RespInv(p, Execute) && p.sending >= 0
    ensures p.done < |p.answers| && p.indexIn < |p.slots| && p.sending < |p.slots|
    ensures
      var r := InDone(Answered(p, Execute, answer));
      r.received <= r.answers <==> |p.answers| < p.done + |p.slots| || answer == p.answers[p.done]
  {
    if |p.answers| < p.done + |p.slots| {
      HadInOrder(p, answer);
    } else {
      NoRoom(p);
      HadInstead(p, answer);
    }
  }

  lemma HadInOrder(p: Resp, answer: nat)
    requires RespInv(p, Execute) && p.sending >= 0 && |p.answers| < p.done + |p.slots|
    ensures p.indexIn < |p.slots| && p.sending < |p.slots|
    ensures
      var r := InDone(Answered(p, Execute, answer));
      r.received <= r.answers
  {
    ExecuteKeeps(p, answer);
    InDoneKeeps(Answered(p, Execute, answer), RequestIndex);
  }

  lemma HadInstead(p: Resp, answer: nat)
    requires RespInv(p, Execute) && 0 <= p.sending == p.indexIn && p.done < |p.answers|
    ensures p.indexIn < |p.slots|
    ensures
      var r := InDone(Answered(p, Execute, answer));
      r.received <= r.answers <==> answer == p.answers[p.done]
  {
    HadIs(p, answer);
    OneInstead(p.answers, p.done, answer);
  }

  lemma HadIs(p: Resp, answer: nat)
    requires RespInv(p, Execute) && 0 <= p.sending == p.indexIn < |p.slots| && p.done < |p.answers|
    ensures
      var r := InDone(Answered(p, Execute, answer));
      r.received == p.answers[..p.done] + [answer] && r.answers == p.answers + [answer]
  {
  }

  lemma OneInstead(answers: seq<nat>, done: nat, answer: nat)
    requires done < |answers|
    ensures answers[..done] + [answer] <= answers + [answer] <==> answer == answers[done]
  {
    assert (answers[..done] + [answer])[done] == answer && (answers + [answer])[done] == answers[done];
    if answer == answers[done] {
      assert answers[..done] + [answer] == (answers + [answer])[..done + 1];
    }
  }

  /** Room is exactly what it takes.  Where it is lacking for the first time, a write is in
      flight; and if that write ends just after the command was executed, the host has the
      answers in order if and only if there was room or the two answers are the same. */
  lemma {:induction false} OrderIffRoom(packets: nat, blank: nat, events: seq<Event>, answer: nat) returns (v: System)
    requires 1 <= packets < WRAP16
    requires RunAll(Configured(packets, blank), events).Reached? && FitRun(Configured(packets, blank), events)
    requires RunAll(Configured(packets, blank), events).state.at == Execute
    ensures
      var t := RunAll(Configured(packets, blank), events).state;
      var room := |t.p.answers| < t.p.done + packets;
      && (!room ==> t.p.sending >= 0)
      && (t.p.sending >= 0 ==>
            && RunAll(Configured(packets, blank), events + [HandlerMoves(answer)] + [WriteOut]) == Reached(v)
            && t.p.done < |t.p.answers|
            && (v.p.received <= v.p.answers <==> room || answer == t.p.answers[t.p.done]))
  {
    var s := Configured(packets, blank);
    var t := RunAll(s, events).state;
    StartInv(packets, blank);
    RunKeeps(s, events);
    AnyRunFrom(s, events);
    SameRoom(s, events);
    v := t;
    if t.p.sending >= 0 {
      NextHad(t.p, answer);
      AnyNextKeeps(t, HandlerMoves(answer));
      RunSnoc(s, events, HandlerMoves(answer));
      var u := Next(t, HandlerMoves(answer));
      AnyNextKeeps(u, WriteOut);
      RunSnoc(s, events + [HandlerMoves(answer)], WriteOut);
      v := Next(u, WriteOut);
    } else if |t.p.answers| >= t.p.done + packets {
      NoRoom(t.p);
    }
  }

  /** There are as many buffers as there were. */
  lemma {:induction false} SameRoom(s: System, events: seq<Event>)
    requires RunAll(s, events).Reached?
    ensures |RunAll(s, events).state.p.slots| == |s.p.slots|
    decreases |events|
  {
    if events != [] {
      SameRoom(Next(s, events[0]), events[1..]);
    }
  }

  /** t after a run from s0. */
  predicate Comes(s0: System, events: seq<Event>, t: System) {
    RunAll(s0, events) == Reached(t)
  }

  lemma Extend(s0: System, events: seq<Event>, s: System, e: Event) returns (es: seq<Event>, t: System)
    requires Comes(s0, events, s) && InRange(s) && Enabled(s, e)
    ensures t == Next(s, e) && Comes(s0, es, t)
  {
    RunSnoc(s0, events, e);
    es, t := events + [e], Next(s, e);
  }

  lemma FirstRequest() returns (es: seq<Event>, t: System)
    ensures Comes(Configured(1, 0), es, t)
    ensures t == System(Req([1], 0, 0, 1, 1, true, -1, [1], [1], 1),
                        Resp([7], 0, 0, 0, 0, true, -1, 0, [7], 0, 0, 0, []), TestIdle)
  {
    var s0 := Configured(1, 0);
    es, t := [], s0;
    es, t := Extend(s0, es, t, PacketIn(1, false));
    es, t := Extend(s0, es, t, HandlerMoves(7));
    es, t := Extend(s0, es, t, HandlerMoves(7));
    es, t := Extend(s0, es, t, HandlerMoves(7));
    es, t := Extend(s0, es, t, HandlerMoves(7));
  }

  lemma ReadArmed() returns (es: seq<Event>, t: System)
    ensures Comes(Configured(1, 0), es, t)
    ensures t == System(Req([1], 0, 0, 1, 1, false, 0, [1], [1], 1),
                        Resp([7], 0, 0, 0, 0, true, -1, 0, [7], 0, 0, 0, []), ResponseIndex)
  {
    var s0 := Configured(1, 0);
    es, t := FirstRequest();
    es, t := Extend(s0, es, t, HandlerMoves(7));
    es, t := Extend(s0, es, t, HandlerMoves(7));
    es, t := Extend(s0, es, t, HandlerMoves(7));
    es, t := Extend(s0, es, t, HandlerMoves(7));
  }

  lemma ResponseCounted() returns (es: seq<Event>, t: System)
    ensures Comes(Configured(1, 0), es, t)
    ensures t == System(Req([1], 0, 0, 1, 1, false, 0, [1], [1], 1),
                        Resp([7], 0, 0, 1, 0, true, -1, 0, [7], 1, 0, 0, []), TestResponseIdle)
  {
    var s0 := Configured(1, 0);
    es, t := ReadArmed();
    es, t := Extend(s0, es, t, HandlerMoves(7));
    es, t := Extend(s0, es, t, HandlerMoves(7));
  }

  lemma ResponseSeen() returns (es: seq<Event>, t: System)
    ensures Comes(Configured(1, 0), es, t)
    ensures t == System(Req([1], 0, 0, 1, 1, false, 0, [1], [1], 1),
                        Resp([7], 0, 0, 1, 0, true, -1, 0, [7], 1, 0, 0, []), TakeResponse)
  {
    var s0 := Configured(1, 0);
    es, t := ResponseCounted();
    es, t := Extend(s0, es, t, HandlerMoves(7));
    es, t := Extend(s0, es, t, HandlerMoves(7));
  }

  lemma ResponseTaken() returns (es: seq<Event>, t: System)
    ensures Comes(Configured(1, 0), es, t)
    ensures t == System(Req([1], 0, 0, 1, 1, false, 0, [1], [1], 1),
                        Resp([7], 0, 0, 1, 1, true, -1, 0, [7], 1, 1, 0, []), ClearResponseIdle)
  {
    var s0 := Configured(1, 0);
    es, t := ResponseSeen();
    es, t := Extend(s0, es, t, HandlerMoves(7));
    es, t := Extend(s0, es, t, HandlerMoves(7));
  }

  lemma ResponseSent() returns (es: seq<Event>, t: System)
    ensures Comes(Configured(1, 0), es, t)
    ensures t == System(Req([1], 0, 0, 1, 1, false, 0, [1], [1], 1),
                        Resp([7], 0, 0, 1, 1, false, 0, 0, [7], 1, 1, 0, []), LoopTest)
  {
    var s0 := Configured(1, 0);
    es, t := ResponseTaken();
    es, t := Extend(s0, es, t, HandlerMoves(7));
    es, t := Extend(s0, es, t, HandlerMoves(7));
  }

  /** For one: with one buffer, a second request sent before the first answer was had makes the
      host get the second answer in its place. */
  lemma ImpoliteHostLosesAnswer() returns (es: seq<Event>, t: System)
    ensures RunAll(Configured(1, 0), es) == Reached(t)
    ensures t.p.answers == [7, 9] && t.p.received == [9]
  {
    var s0 := Configured(1, 0);
    es, t := ResponseSent();
    es, t := Extend(s0, es, t, PacketIn(2, false));
    es, t := Extend(s0, es, t, HandlerMoves(9));
    es, t := Extend(s0, es, t, HandlerMoves(9));
    es, t := Extend(s0, es, t, WriteOut);
  }
}
