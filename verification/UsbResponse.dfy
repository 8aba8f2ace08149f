/** The CMSIS-DAP response queue. */
module UsbResponse {
  import opened Arith
  import opened UsbQueue

  /** `sending` is the slot an IN write is in flight from; given and taken are the counts
      without their wrap, answers and received what was put in and what the host has. */
  datatype Resp = Resp(slots: seq<nat>, indexIn: nat, indexOut: nat, countIn: nat, countOut: nat,
                       idle: bool, sending: int, taking: nat,
                       answers: seq<nat>, given: nat, taken: nat, done: nat, received: seq<nat>)

  /** dap_in_callback: the write in flight is over. */
  function InDone(p: Resp): Resp
    requires 0 <= p.sending < |p.slots|
  {
    var r := p.(received := p.received + [p.slots[p.sending]], done := p.done + 1);
    if r.countIn != r.countOut then
      r.(sending := r.indexOut, indexOut := Step(r.indexOut, |r.slots|), countOut := Inc16(r.countOut),
         taken := r.taken + 1)
    else r.(sending := -1, idle := true)
  }

  /** The handler's steps on the response half; `answer` is what the command answers. */
  function Answered(p: Resp, at: At, answer: nat): Resp
    requires p.indexIn < |p.slots|
  {
    match at
    case Execute => p.(slots := p.slots[p.indexIn := answer], answers := p.answers + [answer])
    case ResponseIndex => p.(indexIn := Step(p.indexIn, |p.slots|))
    case ResponseCount => p.(countIn := Inc16(p.countIn), given := p.given + 1)
    case TakeResponse => p.(taking := p.indexOut, indexOut := Step(p.indexOut, |p.slots|))
    case TakenCount => p.(countOut := Inc16(p.countOut), taken := p.taken + 1)
    case ClearResponseIdle => p.(idle := false)
    case StartWrite => p.(sending := p.taking)
    case _ => p
  }

  function Then(p: Resp, at: At): At {
    match at
    case ResponseIndex => ResponseCount
    case ResponseCount => TestResponseIdle
    case TestResponseIdle => if p.idle then TestPending else LoopTest
    case TestPending => if p.countIn != p.countOut then TakeResponse else LoopTest
    case TakeResponse => TakenCount
    case TakenCount => ClearResponseIdle
    case ClearResponseIdle => StartWrite
    case StartWrite => LoopTest
    case _ => at
  }

  predicate OnResponses(at: At) {
    match at
    case ResponseIndex => true case ResponseCount => true case TestResponseIdle => true case TestPending => true
    case TakeResponse => true case TakenCount => true case ClearResponseIdle => true case StartWrite => true
    case _ => false
  }

  // ------------------------------------------------------------------ invariant

  /** An answer is in its slot, but not yet in the count. */
  predicate Uncounted(at: At) {
    match at
    case RequestIndex => true case RequestCount => true case TestIdle => true case TestRoom => true
    case ClearIdle => true case ArmRead => true case ResponseIndex => true case ResponseCount => true
    case _ => false
  }

  /** A response is counted out, but its write not yet started. */
  predicate Unstarted(at: At) { at == ClearResponseIdle || at == StartWrite }

  predicate Counts(p: Resp, at: At) {
    && 1 <= |p.slots| < WRAP16
    && p.given == (if Uncounted(at) then |p.answers| - 1 else |p.answers|)
    && p.countIn == p.given % WRAP16 && p.countOut == p.taken % WRAP16
    && p.indexIn == Mod(if at == ResponseCount then p.given + 1 else p.given, |p.slots|)
    && p.indexOut == Mod(if at == TakenCount then p.taken + 1 else p.taken, |p.slots|)
    && p.taken == p.done + (if p.sending >= 0 then 1 else 0) + (if Unstarted(at) then 1 else 0)
    && p.taken <= p.given && |p.answers| <= p.done + |p.slots|
  }

  predicate Sending(p: Resp, at: At)
    requires |p.slots| > 0
  {
    && (p.sending >= 0 <==> !p.idle && at != StartWrite)
    && (p.sending >= 0 ==> p.sending == Mod(p.done, |p.slots|))
    && (at == TakenCount ==> p.taking == Mod(p.taken, |p.slots|))
    && (Unstarted(at) ==> p.taking == Mod(p.done, |p.slots|))
  }

  predicate SeesPending(at: At) {
    at == TestResponseIdle || at == TestPending || at == TakeResponse || at == TakenCount
  }

  /** Idle only with nothing to send, or with the handler about to see that there is. */
  predicate Waking(p: Resp, at: At) {
    && (p.idle && !SeesPending(at) ==> p.given == p.taken)
    && (p.idle ==> p.given <= p.taken + 1)
    && (at == TestPending ==> p.idle)
    && (at == TakeResponse || at == TakenCount ==> p.idle && p.given == p.taken + 1)
    && (at == ClearResponseIdle ==> p.idle) && (at == StartWrite ==> !p.idle)
  }

  predicate Stored(p: Resp)
    requires |p.slots| > 0
  {
    forall j: nat :: p.done <= j < |p.answers| ==>
      Mod(j, |p.slots|) < |p.slots| && p.slots[Mod(j, |p.slots|)] == p.answers[j]
  }

  predicate RespInv(p: Resp, at: At) {
    && Counts(p, at) && Sending(p, at) && Waking(p, at) && Stored(p)
    && p.received == Prefix(p.answers, p.done) && p.done <= |p.answers|
  }

  // ------------------------------------------------------- what every step keeps

  lemma CountsDiffer(p: Resp, at: At)
    requires Counts(p, at)
    ensures p.countIn == p.countOut <==> p.given == p.taken
  {
    DiffIs(p.given, p.taken, |p.slots|);
  }

  lemma ReceivedNext(p: Resp)
    requires |p.slots| > 0 && p.done < |p.answers| && Stored(p)
    ensures Prefix(p.answers, p.done + 1) == Prefix(p.answers, p.done) + [p.slots[Mod(p.done, |p.slots|)]]
  {
    assert p.slots[Mod(p.done, |p.slots|)] == p.answers[p.done];
  }

  lemma InDoneCounts(p: Resp, at: At)
    requires Counts(p, at) && Sending(p, at) && Waking(p, at) && p.sending >= 0
    ensures Counts(InDone(p), at)
  {
    CountsDiffer(p, at);
    WhileSending(p, at);
    if p.given == p.taken {
      assert InDone(p) == p.(received := InDone(p).received, done := p.done + 1, sending := -1, idle := true);
    } else {
      NextTaken(p, at);
    }
  }

  lemma WhileSending(p: Resp, at: At)
    requires Counts(p, at) && Sending(p, at) && Waking(p, at) && p.sending >= 0
    ensures !Unstarted(at) && at != TakenCount && p.taken == p.done + 1
    ensures p.indexOut == Mod(p.taken, |p.slots|)
  {
  }

  /** The next response's write is started as this one's is over. */
  lemma NextTaken(p: Resp, at: At)
    requires 0 <= p.sending < |p.slots| && p.countIn != p.countOut
    requires p.countOut == p.taken % WRAP16 && p.indexOut == Mod(p.taken, |p.slots|)
    ensures
      var r := InDone(p);
      && r == p.(received := r.received, done := p.done + 1, sending := p.indexOut, taken := p.taken + 1,
                 countOut := (p.taken + 1) % WRAP16, indexOut := Mod(p.taken + 1, |p.slots|))
  {
    StepIs(p.taken, |p.slots|);
    IncIs(p.taken);
  }

  lemma InDoneWaking(p: Resp, at: At)
    requires Counts(p, at) && Sending(p, at) && Waking(p, at) && p.sending >= 0
    ensures Sending(InDone(p), at) && Waking(InDone(p), at)
  {
    CountsDiffer(p, at);
  }

  lemma InDoneStored(p: Resp, at: At)
    requires RespInv(p, at) && p.sending >= 0
    ensures
      var r := InDone(p);
      && |r.slots| > 0 && Stored(r) && r.answers == p.answers
      && r.received == Prefix(r.answers, r.done) && r.done <= |r.answers|
  {
    ReceivedNext(p);
  }

  lemma InDoneKeeps(p: Resp, at: At)
    requires RespInv(p, at) && p.sending >= 0
    ensures RespInv(InDone(p), at) && InDone(p).answers == p.answers
  {
    InDoneCounts(p, at);
    InDoneWaking(p, at);
    InDoneStored(p, at);
  }

  /** Room for one more answer; and then it overwrites nothing the host has not had. */
  lemma ExecuteKeeps(p: Resp, answer: nat)
    requires RespInv(p, Execute) && |p.answers| < p.done + |p.slots|
    ensures RespInv(Answered(p, Execute, answer), RequestIndex)
  {
    ExecuteStored(p, answer);
  }

  lemma ExecuteStored(p: Resp, answer: nat)
    requires RespInv(p, Execute) && |p.answers| < p.done + |p.slots|
    ensures
      var r := Answered(p, Execute, answer);
      |r.slots| > 0 && Stored(r) && Prefix(r.answers, p.done) == Prefix(p.answers, p.done)
  {
    OneMoreStored(p.slots, p.answers, p.done, answer);
  }

  lemma {:induction false} OneMoreStored(slots: seq<nat>, answers: seq<nat>, done: nat, answer: nat)
    requires 0 < |slots| && done <= |answers| < done + |slots|
    requires forall j: nat :: done <= j < |answers| ==>
               Mod(j, |slots|) < |slots| && slots[Mod(j, |slots|)] == answers[j]
    ensures
      var s, a, n := slots[Mod(|answers|, |slots|) := answer], answers + [answer], |slots|;
      forall j: nat :: done <= j < |a| ==> Mod(j, n) < n && s[Mod(j, n)] == a[j]
  {
    var s, a, n := slots[Mod(|answers|, |slots|) := answer], answers + [answer], |slots|;
    forall j: nat | done <= j < |a| ensures Mod(j, n) < n && s[Mod(j, n)] == a[j] {
      if j < |answers| {
        ModApart(j, |answers|, n);
      }
    }
  }

  lemma GivenCounts(p: Resp, at: At, answer: nat)
    requires Counts(p, at) && Sending(p, at) && Waking(p, at) && (at == ResponseIndex || at == ResponseCount)
    ensures Counts(Answered(p, at, answer), Then(p, at))
  {
    if at == ResponseIndex {
      StepIs(p.given, |p.slots|);
    } else {
      IncIs(p.given);
    }
  }

  lemma TakenCounts(p: Resp, at: At, answer: nat)
    requires Counts(p, at) && Sending(p, at) && Waking(p, at) && (at == TakeResponse || at == TakenCount)
    ensures Counts(Answered(p, at, answer), Then(p, at))
  {
    ModStep(p.taken, |p.slots|);
    IncIs(p.taken);
  }

  lemma AnsweredCounts(p: Resp, at: At, answer: nat)
    requires Counts(p, at) && Sending(p, at) && Waking(p, at) && OnResponses(at)
    ensures Counts(Answered(p, at, answer), Then(p, at))
  {
    if at == ResponseIndex || at == ResponseCount {
      GivenCounts(p, at, answer);
    } else if at == TakeResponse || at == TakenCount {
      TakenCounts(p, at, answer);
    } else {
      CountsDiffer(p, at);
    }
  }

  lemma AnsweredWaking(p: Resp, at: At, answer: nat)
    requires Counts(p, at) && Sending(p, at) && Waking(p, at) && OnResponses(at)
    ensures Sending(Answered(p, at, answer), Then(p, at)) && Waking(Answered(p, at, answer), Then(p, at))
  {
    CountsDiffer(p, at);
  }

  lemma AnsweredKeeps(p: Resp, at: At, answer: nat)
    requires RespInv(p, at) && OnResponses(at)
    ensures RespInv(Answered(p, at, answer), Then(p, at)) && Answered(p, at, answer).answers == p.answers
  {
    AnsweredCounts(p, at, answer);
    AnsweredWaking(p, at, answer);
  }

  /** The request half's own steps leave the response half alone. */
  lemma RequestStepKeeps(p: Resp, q: Req, at: At)
    requires RespInv(p, at) && Counters(q, at) && !OnResponses(at) && at != Execute
    ensures RespInv(p, After(q, at))
  {
  }
}
