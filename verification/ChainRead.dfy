/** The host's side of a chained block read: two loops that poll, queue and drain. */
module ChainRead {
  import opened Common
  import opened ChainFabric

  const DRAIN_CHUNK: nat := 64
  const DRAIN_MAX: nat := 1024

  datatype Result = Ok | InvalidArg | Fail | TimedOut | NoMem | InvalidSize

  /** One read of STATUS through LEVEL. */
  datatype Low = Low(busy: bool, timedOut: bool, overrun: bool, low: nat, high: nat, queued: bool)

  /** The two bytes in front of a two-line read. */
  datatype Prefix = Prefix(level: nat, busy: bool, timedOut: bool, overrun: bool, queued: bool)

  class Fabric {
    const reply: seq<seq<Byte>>      // what the target answers each block with
    var s: Fab
    var time: int                    // looks at the clock before the deadline has passed
    ghost var faults: nat            // transfers that failed
    ghost var working: nat           // looks that showed it at work

    constructor (answers: seq<seq<Byte>>, initial: Fab, patience: nat)
      ensures reply == answers && s == initial && time == patience
    {
      reply, s, time, faults, working := answers, initial, patience, 0, 0;
    }

    /** A transfer to the fabric may fail. */
    method Transfer() returns (ok: bool)
      modifies this`faults
      ensures faults == old(faults) + if ok then 0 else 1
    {
      ok := *;
      faults := faults + if ok then 0 else 1;
    }

    method Expired() returns (e: bool)
      modifies this`time
      ensures time == old(time) - 1 && (e <==> time < 0)
    {
      time := time - 1;
      e := time < 0;
    }

    /** The fabric makes any number of moves, pushing at most `limit` bytes. */
    method Runs(limit: nat)
      requires Inv(s, reply)
      modifies this`s
      ensures Inv(s, reply) && Later(old(s), s) && |s.fifo| <= |old(s.fifo)| + limit
    {
      var most := |s.fifo| + limit;
      var n: nat := *;
      while n > 0
        invariant Inv(s, reply) && Later(old(s), s) && |s.fifo| <= |old(s.fifo)| + limit
      {
        var m: Move := *;
        if CanMove(s, m, reply) && (m.Push? ==> |s.fifo| < most) {
          MovedInv(s, m, reply);
          s := Moved(s, m, reply);
        }
        n := n - 1;
      }
    }

    method RunsFreely()
      requires Inv(s, reply)
      modifies this`s
      ensures Inv(s, reply) && Later(old(s), s)
    {
      Runs(FIFO_BYTES);
    }

    /** Only with nothing running. */
    method StartFirst()
      requires !Busy(s) && NoneEmpty(reply) && |reply| > 0
      modifies this`s
      ensures Inv(s, reply) && s == Started(old(s))
    {
      StartedInv(s, reply);
      s := Started(s);
    }

    /** The start's write, the last byte of the frame's burst; the fabric may have moved any
        number of times since the poll.  Only with no start held: the frame registers are
        then free. */
    method Queue()
      requires Inv(s, reply) && !s.held && s.starts < |reply|
      modifies this`s
      ensures Inv(s, reply) && s == Queued(old(s))
    {
      QueuedInv(s, reply);
      s := Queued(s);
    }

    /** STATUS, then LEVEL's low byte, then its high byte with the queued flag: three
        moments, few bytes arriving between them. */
    method ReadLow() returns (r: Low, ghost first: Fab, ghost second: Fab)
      requires Inv(s, reply)
      modifies this`s, this`working
      ensures Inv(s, reply) && Inv(first, reply) && Inv(second, reply)
      ensures working == old(working) + if r.busy || r.queued then 1 else 0
      ensures Later(old(s), first) && Later(first, second) && Later(second, s)
      ensures r.busy == Busy(first) && r.timedOut == first.timedOut && r.overrun == first.overrun
      ensures |second.fifo| < |first.fifo| + DRAIN_CHUNK && |s.fifo| <= |second.fifo| + 16
      ensures r.low == |second.fifo| % 256 && r.high == |s.fifo| / 256 && r.queued == s.held
    {
      RunsFreely();
      first := s;
      var busy, timedOut, overrun := Busy(s), s.timedOut, s.overrun;
      Runs(DRAIN_CHUNK - 1);
      second := s;
      var low := |s.fifo| % 256;
      Runs(16);
      r := Low(busy, timedOut, overrun, low, |s.fifo| / 256, s.held);
      working := working + if r.busy || r.queued then 1 else 0;
    }

    /** k bytes from the FIFO port, the fabric running all the while.  An empty FIFO would
        give zeros: the caller asks for no more than there is. */
    method Drain(dst: array<Byte>, at: nat, k: nat)
      requires Inv(s, reply) && k <= |s.fifo| && at + k <= dst.Length && at == |s.popped|
      requires dst[..at] == s.popped
      modifies this`s, dst
      ensures Inv(s, reply) && s.starts == old(s.starts)
      ensures |s.popped| == at + k && dst[..at + k] == s.popped
      ensures Pushed(s) >= Pushed(old(s)) && (old(s.broken) ==> s.broken) && (s.held ==> old(s.held))
      ensures !Busy(old(s)) ==> !Busy(s) && s.timedOut == old(s.timedOut)
    {
      for i := 0 to k
        invariant Inv(s, reply) && s.starts == old(s.starts) && k - i <= |s.fifo|
        invariant |s.popped| == at + i && dst[..at + i] == s.popped
        invariant Pushed(s) >= Pushed(old(s)) && (old(s.broken) ==> s.broken) && (s.held ==> old(s.held))
        invariant !Busy(old(s)) ==> !Busy(s) && s.timedOut == old(s.timedOut)
      {
        RunsFreely();
        dst[at + i] := s.fifo[0];
        PoppedInv(s, 1, reply);
        s := Popped(s, 1);
      }
    }

    /** The two-line read: the level as the header clocks it through, the flags a moment
        later, then as many bytes as were asked for and counted. */
    method ReadDual(dst: array<Byte>, at: nat, want: nat)
      returns (took: nat, r: Prefix, ghost first: Fab, ghost second: Fab)
      requires Inv(s, reply) && at + want <= dst.Length && at == |s.popped| && dst[..at] == s.popped
      modifies this`s, this`working, dst
      ensures Inv(s, reply) && Inv(first, reply) && Inv(second, reply)
      ensures Later(old(s), first) && Later(first, second) && (second.broken ==> s.broken)
      ensures s.starts == second.starts && Pushed(s) >= Pushed(second) && (s.held ==> second.held)
      ensures r == Prefix(|first.fifo|, Busy(second), second.timedOut, second.overrun, second.held)
      ensures took == Min(r.level, want) && |s.popped| == at + took && dst[..at + took] == s.popped
      ensures working == old(working) + if r.busy || r.queued then 1 else 0
      ensures !r.busy && !r.queued ==> !Busy(s) && s.timedOut == r.timedOut
    {
      RunsFreely();
      first := s;
      var level := |s.fifo|;
      RunsFreely();
      second := s;
      r := Prefix(level, Busy(s), s.timedOut, s.overrun, s.held);
      working := working + if r.busy || r.queued then 1 else 0;
      took := Min(level, want);
      Drain(dst, at, took);
    }
  }

  // ----------------------------------------------------------- what a poll shows

  /** At the head of either loop: while a block is still to be queued, the host has taken
      nothing of the last one it did queue. */
  predicate HostInv(s: Fab, reply: seq<seq<Byte>>, next: nat, got: nat) {
    && Inv(s, reply) && s.starts == next && got == |s.popped| < Total(reply)
    && (next < |reply| && !s.broken ==> got <= Bytes(reply, next - 1))
  }

  /** So an idle fabric with an empty FIFO has had a timeout, however stale `idle` is by the
      time it is used. */
  lemma IdleMeansMore(s: Fab, idle: Fab, reply: seq<seq<Byte>>, next: nat, got: nat)
    requires HostInv(s, reply, next, got) && Later(s, idle) && Inv(idle, reply)
    requires !Busy(idle) && !idle.broken
    ensures |idle.fifo| > 0
  {
    StartedCovers(idle, reply);
    assert Bytes(reply, next) == Bytes(reply, next - 1) + |reply[next - 1]|;
  }

  /** With `avail` bytes counted, what the host may take and still be behind the last
      block queued; the other case is a flag left over from before the chain. */
  predicate Behind(s: Fab, reply: seq<seq<Byte>>, got: nat, avail: nat, idle: bool)
    requires 1 <= s.starts <= |reply|
  {
    s.starts < |reply| && !s.broken ==>
      got + avail <= Bytes(reply, s.starts - 1) || (got == 0 && avail < DRAIN_CHUNK && !idle)
  }

  lemma StaysBehind(s: Fab, first: Fab, second: Fab, last: Fab, after: Fab, reply: seq<seq<Byte>>,
                    next: nat, got: nat, avail: nat)
    requires HostInv(s, reply, next, got) && Inv(first, reply) && Inv(second, reply) && Inv(last, reply)
    requires Later(s, first) && Later(first, second) && Later(second, last)
    requires avail <= |second.fifo| < |first.fifo| + DRAIN_CHUNK
    requires if after == last
             then next == |reply| || last.held || first.timedOut || first.overrun
             else next < |reply| && !last.held && after == Queued(last)
    ensures Behind(after, reply, got, avail, !Busy(first) && !last.held)
  {
    StartedCovers(second, reply);
    if second.held {
      HeldBehind(second, reply);
    }
  }

  lemma LaterOn(a: Fab, b: Fab, c: Fab)
    requires Later(a, b) && Later(b, c)
    ensures Later(a, c)
  {
  }

  /** The next start, if there is to be one; `last` is the fabric just before it. */
  method QueueIf(f: Fabric, next0: nat, queue: bool) returns (ok: bool, next: nat, ghost last: Fab)
    requires Inv(f.s, f.reply) && f.s.starts == next0 && (queue ==> next0 < |f.reply| && !f.s.held)
    modifies f`s, f`faults
    ensures Inv(f.s, f.reply) && Inv(last, f.reply) && Later(old(f.s), last) && f.s.popped == old(f.s.popped)
    ensures f.faults == old(f.faults) + (if ok then 0 else 1) && (!queue ==> ok && last == old(f.s))
    ensures if ok && queue then !last.held && f.s == Queued(last) && next == next0 + 1 else f.s == last && next == next0
  {
    ok, next, last := true, next0, f.s;
    if queue {
      ok := f.Transfer();
      if ok {
        f.RunsFreely();
        last := f.s;
        f.Queue();
        next := next0 + 1;
      }
    }
  }

  predicate Resting(low: Low) { !low.busy && !low.queued }

  /** What the host knows after a poll. */
  predicate Polled(s: Fab, reply: seq<seq<Byte>>, got: nat, low: Low, avail: nat, next0: nat, next: nat) {
    && Inv(s, reply) && s.starts == next && next0 <= next <= |reply| && avail <= |s.fifo|
    && Behind(s, reply, got, avail, Resting(low))
    && (Resting(low) ==>
          && (avail == 0 || low.timedOut ==> s.broken) && !low.overrun && s.timedOut == low.timedOut
          && (next == next0 ==> next == |reply| || low.timedOut))
  }

  /** One poll: STATUS and LEVEL, of which at most `most` is used, and the next start if none is
      held. */
  method Poll(f: Fabric, next0: nat, ghost got: nat, most: nat) returns (ok: bool, low: Low, avail: nat, next: nat)
    requires HostInv(f.s, f.reply, next0, got) && most > 0
    modifies f`s, f`faults, f`working
    ensures f.s.popped == old(f.s.popped) && avail <= most
    ensures ok ==> Polled(f.s, f.reply, got, low, avail, next0, next)
    ensures f.faults == old(f.faults) + if ok then 0 else 1
    ensures f.working >= old(f.working) && (ok ==> f.working == old(f.working) + if Resting(low) then 0 else 1)
  {
    ghost var head := f.s;
    low, next, avail := Low(true, false, false, 0, 0, false), next0, 0;
    ok := f.Transfer();
    if !ok {
      return;
    }
    ghost var first, second, last;
    low, first, second := f.ReadLow();
    ghost var read := f.s;
    avail := Min(Avail(low.low, low.high), most);
    ok, next, last := QueueIf(f, next0, next0 < |f.reply| && !low.queued && !low.timedOut && !low.overrun);
    if ok {
      PollShows(head, first, second, read, last, f.s, f.reply, next0, next, got, low, avail, most);
    }
  }

  lemma PollShows(s: Fab, first: Fab, second: Fab, read: Fab, last: Fab, after: Fab, reply: seq<seq<Byte>>,
                  next0: nat, next: nat, got: nat, low: Low, avail: nat, most: nat)
    requires HostInv(s, reply, next0, got) && Inv(first, reply) && Inv(second, reply) && Inv(read, reply)
    requires Later(s, first) && Later(first, second) && Later(second, read) && Later(read, last)
    requires Inv(last, reply) && Inv(after, reply)
    requires |second.fifo| < |first.fifo| + DRAIN_CHUNK && |read.fifo| <= |second.fifo| + 16
    requires low == Low(Busy(first), first.timedOut, first.overrun, |second.fifo| % 256, |read.fifo| / 256, read.held)
    requires avail == Min(Avail(low.low, low.high), most) && most > 0
    requires
      var queue := next0 < |reply| && !low.queued && !low.timedOut && !low.overrun;
      if queue then !last.held && after == Queued(last) && next == next0 + 1
      else after == last == read && next == next0
    ensures Polled(after, reply, got, low, avail, next0, next)
  {
    TornLevel(|second.fifo|, |read.fifo|);
    LaterOn(second, read, last);
    StaysBehind(s, first, second, last, after, reply, next0, got, avail);
    if !Busy(first) {
      IdleShows(s, first, second, reply, next0, got);
    }
  }

  /** What an idle fabric's flags and FIFO say. */
  lemma IdleShows(s: Fab, first: Fab, second: Fab, reply: seq<seq<Byte>>, next: nat, got: nat)
    requires HostInv(s, reply, next, got) && Later(s, first) && Inv(first, reply) && Later(first, second)
    requires !Busy(first)
    ensures second == first && !first.overrun && (first.fifo == [] || first.timedOut ==> first.broken)
  {
    if !first.broken {
      IdleMeansMore(s, first, reply, next, got);
    }
  }

  /** Some of what a poll has shown. */
  method Take(f: Fabric, dst: array<Byte>, got: nat, k: nat, ghost next: nat, ghost idle: bool) returns (ok: bool)
    requires Inv(f.s, f.reply) && f.s.starts == next && k <= |f.s.fifo| && got + k <= dst.Length
    requires got == |f.s.popped| && dst[..got] == f.s.popped
    requires k >= DRAIN_CHUNK || idle || got + k == Total(f.reply)
    requires Behind(f.s, f.reply, got, k, idle)
    modifies f`s, f`faults, dst
    ensures f.faults == old(f.faults) + if ok then 0 else 1
    ensures ok ==> Inv(f.s, f.reply) && |f.s.popped| == got + k && dst[..got + k] == f.s.popped
    ensures ok && got + k < Total(f.reply) ==> HostInv(f.s, f.reply, next, got + k)
  {
    ok := f.Transfer();
    if ok {
      f.Drain(dst, got, k);
    }
  }

  /** What a read says of the chain: that all came only if no parcel timed out; that a parcel did,
      before the deadline, only if the fabric says so; that the chain ended early only if one
      did and the fabric does not say so any more; that the deadline passed if it did. */
  predicate Honest(r: Result, s: Fab, time: int) {
    && r != NoMem && r != InvalidArg && (r == Ok ==> !s.broken) && (r == InvalidSize ==> s.broken && !s.timedOut)
    && (r == TimedOut && time >= 0 ==> s.broken && s.timedOut) && (time < 0 ==> r == TimedOut)
  }

  lemma VerdictHonest(s: Fab, reply: seq<seq<Byte>>, got: nat, low: Low, avail: nat, next0: nat, next: nat, time: nat)
    requires Polled(s, reply, got, low, avail, next0, next)
    ensures
      var v := Verdict(low, Resting(low), next == |reply|, avail);
      && (v.Some? ==> Honest(v.value, s, time))
      && (v.None? && Resting(low) && avail == 0 ==> next > next0)
  {
  }

  /** The error an idle fabric means, if it means one: with every block queued, or not. */
  function Verdict(low: Low, idle: bool, all: bool, avail: nat): Option<Result> {
    if !idle then None
    else if all then
      if low.timedOut then Some(TimedOut)
      else if low.overrun then Some(NoMem)
      else if avail == 0 then Some(InvalidSize)
      else None
    else if (low.timedOut || low.overrun) && avail == 0 then Some(if low.overrun then NoMem else TimedOut)
    else None
  }

  /** The one-line loop, from the first start on. */
  method ReadChainSingle(f: Fabric, dst: array<Byte>, bytes: nat) returns (r: Result)
    requires Inv(f.s, f.reply) && f.s.starts == 1 && f.s.popped == []
    requires dst.Length >= bytes == Total(f.reply) > 0 && f.time >= 0
    modifies f, dst
    ensures Honest(r, f.s, f.time) && (r == Ok ==> dst[..bytes] == From(f.reply, 0))
    ensures f.faults >= old(f.faults) && (r == Fail <==> f.faults > old(f.faults)) && f.working >= old(f.working)
    ensures f.time < 0 ==> old(f.time) + 2 <= f.working - old(f.working) + |f.reply|
  {
    var got: nat, next: nat := 0, 1;
    while true
      invariant HostInv(f.s, f.reply, next, got)
      invariant dst[..got] == f.s.popped && f.time >= 0 && f.faults == old(f.faults)
      invariant f.working >= old(f.working) && old(f.time) - f.time <= f.working - old(f.working) + next - 1
      decreases bytes - got, f.time
    {
      var ok, low, avail;
      ghost var next0 := next;
      ok, low, avail, next := Poll(f, next, got, Min(bytes - got, DRAIN_MAX));
      if !ok {
        return Fail;
      }
      var idle := Resting(low);
      if avail > 0 && (avail >= DRAIN_CHUNK || idle || got + avail == bytes) {
        ok := Take(f, dst, got, avail, next, idle);
        if !ok {
          return Fail;
        }
        got := got + avail;
        if got == bytes {
          AllPopped(f.s, f.reply);
          return Ok;
        }
        continue;
      }
      VerdictHonest(f.s, f.reply, got, low, avail, next0, next, f.time);
      var verdict := Verdict(low, idle, next == |f.reply|, avail);
      if verdict.Some? {
        return verdict.value;
      }
      var expired := f.Expired();
      if expired {
        return TimedOut;
      }
    }
  }

  /** An idle fabric and an empty FIFO, one moment apart, leave something in the FIFO for
      the next read: two such reads in a row take a timeout. */
  lemma IdleLeavesMore(s: Fab, first: Fab, second: Fab, reply: seq<seq<Byte>>, next: nat, got: nat)
    requires HostInv(s, reply, next, got) && Later(s, first) && Later(first, second) && Inv(second, reply)
    requires !Busy(second) && !second.broken && first.fifo == []
    ensures Pushed(second) > got
  {
    StartedCovers(second, reply);
    assert Bytes(reply, next) == Bytes(reply, next - 1) + |reply[next - 1]|;
  }

  /** What a two-line read took leaves the host behind the last block queued. */
  lemma {:induction false} DualBehind(first: Fab, second: Fab, reply: seq<seq<Byte>>, next: nat, got: nat,
                                      took: nat, queue: bool)
    requires Inv(first, reply) && FlagsOk(second) && Later(first, second)
    requires next == first.starts && got == |first.popped| && took <= |first.fifo|
    requires if queue then next < |reply| && !second.held
             else next == |reply| || second.held || second.timedOut || second.overrun
    ensures
      var next' := if queue then next + 1 else next;
      next' < |reply| && !second.broken ==> got + took <= Bytes(reply, next' - 1)
  {
    if queue {
      StartedCovers(first, reply);
    } else if second.held {
      HeldBehind(first, reply);
    } else if next < |reply| && !second.broken {
      assert Pushed(second) == 0;
    }
  }

  /** One two-line read, and whether the next start may be written. */
  method PollDual(f: Fabric, dst: array<Byte>, got: nat, want: nat, next: nat, ghost idleBefore: bool)
    returns (took: nat, st: Prefix, queue: bool)
    requires HostInv(f.s, f.reply, next, got) && got + want <= dst.Length && dst[..got] == f.s.popped
    requires idleBefore ==> f.s.fifo != [] || f.s.broken
    modifies f`s, f`working, dst
    ensures Inv(f.s, f.reply) && f.s.starts == next && (queue ==> next < |f.reply| && !f.s.held)
    ensures |f.s.popped| == got + took <= got + want && dst[..got + took] == f.s.popped
    ensures
      var next' := if queue then next + 1 else next;
      next' < |f.reply| && !f.s.broken ==> got + took <= Bytes(f.reply, next' - 1)
    ensures
      !st.busy && !st.queued && st.level == 0 ==>
        && (f.s.broken || (f.s.fifo != [] && !idleBefore)) && (st.timedOut ==> f.s.broken) && !st.overrun
    ensures
      var idle := !st.busy && !st.queued;
      && (idle ==> !Busy(f.s) && f.s.timedOut == st.timedOut)
      && f.working == old(f.working) + (if idle then 0 else 1)
      && (idle && !queue ==> next == |f.reply| || st.timedOut || st.overrun)
      && (st.level > 0 && want > 0 ==> took > 0)
  {
    ghost var head := f.s;
    ghost var first, second;
    took, st, first, second := f.ReadDual(dst, got, want);
    queue := next < |f.reply| && !st.queued && !(st.timedOut || st.overrun);
    if !Busy(second) && !second.broken && first.fifo == [] {
      IdleLeavesMore(head, first, second, f.reply, next, got);
    }
    DualBehind(first, second, f.reply, next, got, took, queue);
  }

  /** The next start, if there is to be one and the transfer succeeds. */
  method QueueNext(f: Fabric, next: nat, ghost got: nat, queue: bool) returns (ok: bool, next': nat)
    requires Inv(f.s, f.reply) && f.s.starts == next && (queue ==> next < |f.reply| && !f.s.held)
    requires got == |f.s.popped| < Total(f.reply)
    requires
      var next' := if queue then next + 1 else next;
      next' < |f.reply| && !f.s.broken ==> got <= Bytes(f.reply, next' - 1)
    modifies f`s, f`faults
    ensures f.faults == old(f.faults) + if ok then 0 else 1
    ensures f.s.popped == old(f.s.popped) && old(f.s.fifo) <= f.s.fifo && (old(f.s.broken) ==> f.s.broken)
    ensures next' == (if ok && queue then next + 1 else next)
    ensures !Busy(old(f.s)) ==> f.s.timedOut == old(f.s.timedOut)
    ensures ok ==> HostInv(f.s, f.reply, next', got)
  {
    ok, next' := true, next;
    if queue {
      ok := f.Transfer();
      if ok {
        f.RunsFreely();
        f.Queue();
        next' := next + 1;
      }
    }
  }

  /** The two-line loop, from the first start on. */
  method ReadChainDual(f: Fabric, dst: array<Byte>, bytes: nat) returns (r: Result)
    requires Inv(f.s, f.reply) && f.s.starts == 1 && f.s.popped == []
    requires dst.Length >= bytes == Total(f.reply) > 0 && f.time >= 0
    modifies f, dst
    ensures Honest(r, f.s, f.time) && (r == Ok ==> dst[..bytes] == From(f.reply, 0))
    ensures f.faults >= old(f.faults) && (r == Fail <==> f.faults > old(f.faults)) && f.working >= old(f.working)
    ensures f.time < 0 ==> old(f.time) <= 2 * (f.working - old(f.working) + bytes) + |f.reply|
  {
    var got: nat, next: nat, ask, idleEmpty := 0, 1, DRAIN_CHUNK, 0;
    while true
      invariant HostInv(f.s, f.reply, next, got) && dst[..got] == f.s.popped
      invariant f.time >= 0 && f.faults == old(f.faults) && ask > 0 && f.working >= old(f.working)
      invariant old(f.time) - f.time <=
                  2 * (f.working - old(f.working) + got) + next - 1 + (if idleEmpty > 0 then 1 else 0)
      invariant idleEmpty > 0 ==> f.s.broken || (idleEmpty == 1 && f.s.fifo != [])
      decreases f.time
    {
      var ok := f.Transfer();
      if !ok {
        return Fail;
      }
      var took, st, queue := PollDual(f, dst, got, Min(bytes - got, ask), next, idleEmpty > 0);
      got := got + took;
      if got == bytes {
        AllPopped(f.s, f.reply);
        return Ok;
      }
      var failed := st.timedOut || st.overrun;
      ok, next := QueueNext(f, next, got, queue);
      if !ok {
        return Fail;
      }
      ask := Min(if st.level > DRAIN_CHUNK then st.level else DRAIN_CHUNK, DRAIN_MAX);
      var idle := !st.busy && !st.queued;
      idleEmpty := if idle && st.level == 0 then idleEmpty + 1 else 0;
      if idleEmpty >= 2 && (next == |f.reply| || failed) {
        return if st.timedOut then TimedOut else if st.overrun then NoMem else InvalidSize;
      }
      var expired := f.Expired();
      if expired {
        return TimedOut;
      }
    }
  }

  /** Every block asks for 1 to 256 words. */
  method Check(counts: seq<nat>, ghost reply: seq<seq<Byte>>) returns (valid: bool, bytes: nat)
    requires |counts| == |reply| && forall j :: 0 <= j < |counts| ==> |reply[j]| == 4 * counts[j]
    ensures valid <==> forall j :: 0 <= j < |counts| ==> 0 < counts[j] <= 256
    ensures valid ==> bytes == Total(reply) && NoneEmpty(reply)
  {
    bytes := 0;
    for i := 0 to |counts|
      invariant bytes == Bytes(reply, i)
      invariant forall j :: 0 <= j < i ==> 0 < counts[j] <= 256
    {
      if !(0 < counts[i] <= 256) {
        return false, bytes;
      }
      bytes := bytes + 4 * counts[i];
    }
    valid := true;
  }

  /** The whole call: everything, in order, or an error.  A chain no parcel of which timed
      out is reported complete unless the deadline passed or a transfer failed; one that was
      cut short never is. */
  method ReadChain(f: Fabric, counts: seq<nat>, dst: array<Byte>, dual: bool) returns (r: Result)
    requires |counts| == |f.reply| && !Busy(f.s)
    requires forall j :: 0 <= j < |counts| ==> |f.reply[j]| == 4 * counts[j]
    requires dst.Length >= Total(f.reply) && f.time >= 0
    modifies f, dst
    ensures r == InvalidArg <==> counts == [] || exists j :: 0 <= j < |counts| && !(0 < counts[j] <= 256)
    ensures r == Ok ==> dst[..Total(f.reply)] == From(f.reply, 0) && !f.s.broken
    ensures f.faults >= old(f.faults) && (r == Fail <==> f.faults > old(f.faults)) && f.working >= old(f.working)
    ensures f.time < 0 ==>
              r == TimedOut && old(f.time) <= 2 * (f.working - old(f.working) + Total(f.reply)) + |counts|
    ensures r !in {InvalidArg, Fail} && f.time >= 0 ==> (r == Ok <==> !f.s.broken)
    ensures r != NoMem && (r == InvalidSize ==> f.s.broken && !f.s.timedOut)
    ensures r == TimedOut && f.time >= 0 ==> f.s.timedOut
  {
    if counts == [] {
      return InvalidArg;
    }
    var valid, bytes := Check(counts, f.reply);
    if !valid {
      return InvalidArg;
    }
    FromAndBytes(f.reply, 0);
    assert |f.reply[0]| <= |From(f.reply, 0)|;
    var ok := f.Transfer();
    if !ok {
      return Fail;
    }
    f.StartFirst();
    if dual {
      r := ReadChainDual(f, dst, bytes);
    } else {
      r := ReadChainSingle(f, dst, bytes);
    }
  }
}
