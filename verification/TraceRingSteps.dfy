/** The same ring with its two sides interleaved at every shared access: the
    drain's load of the tail, each byte it copies, its store of the head, and
    likewise the sender's.  Each side writes only its own index. */
module TraceRingSteps {
  import opened Arith
  import opened Common
  import opened TraceRing

  datatype Producer =
    | Idle
    | Copying(rec: seq<Byte>, done: nat)     // room was found; `done` bytes are in

  datatype Consumer =
    | Waiting
    | Taking(n: nat, out: seq<Byte>)         // `n` was fixed from one load of the head

  /** The ring and, as history, every record taken in and every byte handed out. */
  datatype State = State(
    buf: seq<Byte>, head: nat, tail: nat, producer: Producer, consumer: Consumer,
    seqNo: nat, dropped: nat, records: seq<seq<Byte>>, delivered: seq<Byte>)

  datatype Event =
    | Begin(rec: seq<Byte>)      // publish: number the record, look for room
    | CopyIn
    | StoreHead
    | Look(max: nat)             // read: how much there is
    | CopyOut
    | StoreTail

  function Flatten(rs: seq<seq<Byte>>): seq<Byte> {
    if rs == [] then [] else Flatten(rs[..|rs| - 1]) + rs[|rs| - 1]
  }

  function Start(buf: seq<Byte>): State
    requires |buf| > 0
  {
    State(buf, 0, 0, Idle, Waiting, 0, 0, [], [])
  }

  predicate Indexed(s: State) { s.head < |s.buf| && s.tail < |s.buf| }

  /** One step; an event that does not fit the side's place in its code is no step. */
  function Step(s: State, e: Event): (t: State)
    requires Indexed(s)
    ensures Indexed(t)
  {
    match e
    case Begin(rec) =>
      if !s.producer.Idle? then s
      else if Free(s.head, s.tail, |s.buf|) >= |rec|
      then s.(seqNo := s.seqNo + 1, producer := Copying(rec, 0))
      else s.(seqNo := s.seqNo + 1, dropped := s.dropped + 1)
    case CopyIn =>
      if !s.producer.Copying? || s.producer.done >= |s.producer.rec| then s
      else
        var p := s.producer;
        s.(buf := s.buf[(s.head + p.done) % |s.buf| := p.rec[p.done]],
           producer := Copying(p.rec, p.done + 1))
    case StoreHead =>
      if !s.producer.Copying? || s.producer.done < |s.producer.rec| then s
      else
        s.(head := (s.head + |s.producer.rec|) % |s.buf|, producer := Idle,
           records := s.records + [s.producer.rec])
    case Look(max) =>
      if !s.consumer.Waiting? then s
      else
        var used := Used(s.head, s.tail, |s.buf|);
        s.(consumer := Taking(if used < max then used else max, []))
    case CopyOut =>
      if !s.consumer.Taking? || |s.consumer.out| >= s.consumer.n then s
      else
        var c := s.consumer;
        s.(consumer := Taking(c.n, c.out + [s.buf[(s.tail + |c.out|) % |s.buf|]]))
    case StoreTail =>
      if !s.consumer.Taking? || |s.consumer.out| < s.consumer.n then s
      else
        s.(tail := (s.tail + s.consumer.n) % |s.buf|, consumer := Waiting,
           delivered := s.delivered + s.consumer.out)
  }

  function Run(s: State, es: seq<Event>): (t: State)
    requires Indexed(s)
    ensures Indexed(t)
    decreases |es|
  {
    if es == [] then s else Step(Run(s, es[..|es| - 1]), es[|es| - 1])
  }

  /** What the accepted records add up to, and how much of it is unread. */
  function Stream(s: State): seq<Byte> { Flatten(s.records) }

  predicate Inv(s: State) {
    && Indexed(s)
    && var used := Used(s.head, s.tail, |s.buf|);
    && s.delivered + Stored(s.buf, s.tail, used) == Stream(s)
    && (s.producer.Copying? ==>
          var p := s.producer;
          && p.done <= |p.rec| <= Free(s.head, s.tail, |s.buf|)
          && Stored(s.buf, s.head, p.done) == p.rec[..p.done])
    && (s.consumer.Taking? ==>
          var c := s.consumer;
          && |c.out| <= c.n <= used
          && c.out == Stored(s.buf, s.tail, |c.out|))
    && s.seqNo == |s.records| + s.dropped + if s.producer.Copying? then 1 else 0
  }

  lemma {:induction false} FlattenSnoc(rs: seq<seq<Byte>>, r: seq<Byte>)
    ensures Flatten(rs + [r]) == Flatten(rs) + r
  {
    assert (rs + [r])[..|rs + [r]| - 1] == rs;
  }

  lemma CopyInKeeps(s: State)
    requires Inv(s)
    ensures Inv(Step(s, CopyIn))
  {
    if s.producer.Copying? && s.producer.done < |s.producer.rec| {
      var p, t := s.producer, Step(s, CopyIn);
      WrapIsMod(s.head + p.done, |s.buf|);
      var used := Used(s.head, s.tail, |s.buf|);
      assert Stored(t.buf, s.tail, used) == Stored(s.buf, s.tail, used);
      assert Stored(t.buf, s.head, p.done + 1) == Stored(s.buf, s.head, p.done) + [p.rec[p.done]];
      if s.consumer.Taking? {
        assert Stored(t.buf, s.tail, |s.consumer.out|) == Stored(s.buf, s.tail, |s.consumer.out|);
      }
    }
  }

  lemma StoreHeadKeeps(s: State)
    requires Inv(s)
    ensures Inv(Step(s, StoreHead))
  {
    if s.producer.Copying? && s.producer.done == |s.producer.rec| {
      RecordStored(s);
      FlattenSnoc(s.records, s.producer.rec);
    }
  }

  /** The whole record is behind what was there. */
  lemma RecordStored(s: State)
    requires Inv(s) && s.producer.Copying? && s.producer.done == |s.producer.rec|
    ensures
      var t, rec, used := Step(s, StoreHead), s.producer.rec, Used(s.head, s.tail, |s.buf|);
      && Indexed(t) && Used(t.head, s.tail, |s.buf|) == used + |rec|
      && Stored(s.buf, s.tail, used + |rec|) == Stored(s.buf, s.tail, used) + rec
  {
    var rec, t := s.producer.rec, Step(s, StoreHead);
    WrapIsMod(s.head + |rec|, |s.buf|);
    IndicesMove(s.head, s.tail, |rec|, |s.buf|);
    StoredSplit(s.buf, s.tail, Used(t.head, t.tail, |s.buf|), Used(s.head, s.tail, |s.buf|));
    assert rec[..|rec|] == rec;
  }

  lemma CopyOutKeeps(s: State)
    requires Inv(s)
    ensures Inv(Step(s, CopyOut))
  {
    if s.consumer.Taking? && |s.consumer.out| < s.consumer.n {
      var k := |s.consumer.out|;
      WrapIsMod(s.tail + k, |s.buf|);
      assert Stored(s.buf, s.tail, k + 1) == Stored(s.buf, s.tail, k) + [s.buf[Wrap(s.tail + k, |s.buf|)]];
    }
  }

  function TailStored(s: State): State
    requires Inv(s) && s.consumer.Taking?
  {
    s.(tail := Wrap(s.tail + s.consumer.n, |s.buf|), consumer := Waiting,
       delivered := s.delivered + s.consumer.out)
  }

  lemma TailStoredKeeps(s: State)
    requires Inv(s) && s.consumer.Taking? && |s.consumer.out| == s.consumer.n
    ensures Inv(TailStored(s))
  {
    var n, out, used, t := s.consumer.n, s.consumer.out, Used(s.head, s.tail, |s.buf|), TailStored(s);
    IndicesMove(s.head, s.tail, n, |s.buf|);
    StoredSplit(s.buf, s.tail, used, n);
    var rest := Stored(s.buf, t.tail, used - n);
    assert t.delivered + rest == s.delivered + (out + rest);
  }

  lemma StoreTailKeeps(s: State)
    requires Inv(s)
    ensures Inv(Step(s, StoreTail))
  {
    if s.consumer.Taking? && |s.consumer.out| == s.consumer.n {
      TailStoredKeeps(s);
      WrapIsMod(s.tail + s.consumer.n, |s.buf|);
    }
  }

  lemma StepKeeps(s: State, e: Event)
    requires Inv(s)
    ensures Inv(Step(s, e))
  {
    match e
    case Begin(rec) =>
    case CopyIn => CopyInKeeps(s);
    case StoreHead => StoreHeadKeeps(s);
    case Look(max) =>
    case CopyOut => CopyOutKeeps(s);
    case StoreTail => StoreTailKeeps(s);
  }

  lemma {:induction false} RunKeeps(s: State, es: seq<Event>)
    requires Inv(s)
    ensures Inv(Run(s, es))
    decreases |es|
  {
    if es != [] {
      RunKeeps(s, es[..|es| - 1]);
      StepKeeps(Run(s, es[..|es| - 1]), es[|es| - 1]);
    }
  }

  /** Under every interleaving the sender has handed out a prefix of the accepted
      records' bytes, what it has not handed out is still in the buffer, unharmed,
      and every numbered record was accepted, dropped, or is being copied. */
  lemma {:induction false} Linearizable(buf: seq<Byte>, es: seq<Event>)
    requires |buf| > 0
    ensures
      var s := Run(Start(buf), es);
      && s.delivered <= Stream(s)
      && Stream(s)[|s.delivered|..] == Stored(s.buf, s.tail, Used(s.head, s.tail, |s.buf|))
      && (s.producer.Idle? ==> s.seqNo == |s.records| + s.dropped)
  {
    RunKeeps(Start(buf), es);
  }

  /** The head only ever shows whole records: whatever the sender is about to take
      was fixed at a moment when the stream ended exactly there. */
  lemma {:induction false} HeadOnRecordBoundary(buf: seq<Byte>, es: seq<Event>)
    requires |buf| > 0
    ensures
      var s := Run(Start(buf), es);
      s.head == |Flatten(s.records)| % |buf|
    decreases |es|
  {
    if es != [] {
      var s, e := Run(Start(buf), es[..|es| - 1]), es[|es| - 1];
      HeadOnRecordBoundary(buf, es[..|es| - 1]);
      RunSize(buf, es[..|es| - 1]);
      if e.StoreHead? && Step(s, e) != s {
        FlattenSnoc(s.records, s.producer.rec);
        ModAdds(|Flatten(s.records)|, |s.producer.rec|, |buf|);
      }
    }
  }

  lemma {:induction false} RunSize(buf: seq<Byte>, es: seq<Event>)
    requires |buf| > 0
    ensures |Run(Start(buf), es).buf| == |buf|
    decreases |es|
  {
    if es != [] {
      RunSize(buf, es[..|es| - 1]);
    }
  }

  // ------------------------------------------------- what the ring is, seen from outside

  /** A queue of bytes with room for fewer than `size`: records come in whole or are dropped,
      and leave in order, any number of bytes at a time. */
  datatype Queue = Queue(size: nat, taken: seq<seq<Byte>>, out: seq<Byte>, coming: Option<seq<Byte>>, copied: nat,
                         wanted: Option<nat>, handed: nat, numbered: nat, dropped: nat)

  function Unread(q: Queue): int { |Flatten(q.taken)| - |q.out| }

  function QueueStep(q: Queue, e: Event): Queue {
    match e
    case Begin(rec) =>
      if q.coming.Some? then q
      else if Unread(q) + |rec| < q.size then q.(numbered := q.numbered + 1, coming := Some(rec), copied := 0)
      else q.(numbered := q.numbered + 1, dropped := q.dropped + 1)
    case CopyIn =>
      if q.coming.Some? && q.copied < |q.coming.value| then q.(copied := q.copied + 1) else q
    case StoreHead =>
      if q.coming.Some? && q.copied == |q.coming.value|
      then q.(taken := q.taken + [q.coming.value], coming := None, copied := 0) else q
    case Look(max) =>
      if q.wanted.Some? || Unread(q) < 0 then q else q.(wanted := Some(Min(max, Unread(q))), handed := 0)
    case CopyOut =>
      if q.wanted.Some? && q.handed < q.wanted.value then q.(handed := q.handed + 1) else q
    case StoreTail =>
      if q.wanted.Some? && q.handed == q.wanted.value && q.wanted.value <= Unread(q)
      then q.(out := Flatten(q.taken)[..|q.out| + q.wanted.value], wanted := None, handed := 0) else q
  }

  function QueueRun(size: nat, es: seq<Event>): Queue
    decreases |es|
  {
    if es == [] then Queue(size, [], [], None, 0, None, 0, 0, 0)
    else QueueStep(QueueRun(size, es[..|es| - 1]), es[|es| - 1])
  }

  /** The queue a state of the ring stands for. */
  function Seen(s: State): Queue {
    Queue(|s.buf|, s.records, s.delivered, if s.producer.Copying? then Some(s.producer.rec) else None,
          if s.producer.Copying? then s.producer.done else 0,
          if s.consumer.Taking? then Some(s.consumer.n) else None,
          if s.consumer.Taking? then |s.consumer.out| else 0, s.seqNo, s.dropped)
  }

  lemma UnreadIsUsed(s: State)
    requires Inv(s)
    ensures Unread(Seen(s)) == Used(s.head, s.tail, |s.buf|) && s.delivered <= Stream(s)
  {
    assert |s.delivered + Stored(s.buf, s.tail, Used(s.head, s.tail, |s.buf|))| == |Stream(s)|;
  }

  /** The bytes taken out are the next of the stream. */
  lemma OutIsNext(s: State)
    requires Inv(s) && s.consumer.Taking? && |s.consumer.out| == s.consumer.n
    ensures s.consumer.n <= Unread(Seen(s))
    ensures s.delivered + s.consumer.out == Stream(s)[..|s.delivered| + s.consumer.n]
  {
    UnreadIsUsed(s);
    var used, n := Used(s.head, s.tail, |s.buf|), s.consumer.n;
    assert Stored(s.buf, s.tail, n) == Stored(s.buf, s.tail, used)[..n];
    assert Stream(s) == s.delivered + Stored(s.buf, s.tail, used);
  }

  lemma StepIsQueueStep(s: State, e: Event)
    requires Inv(s)
    ensures Seen(Step(s, e)) == QueueStep(Seen(s), e)
  {
    UnreadIsUsed(s);
    if e.StoreTail? && s.consumer.Taking? && |s.consumer.out| == s.consumer.n {
      OutIsNext(s);
    }
  }

  /** Under every interleaving, byte by byte, the ring is that queue: a record is dropped exactly
      if it finds no room at its begin; one taken in joins the records when its head is stored;
      a read begun with u bytes unread hands out the next min(max, u). */
  lemma {:induction false} RingIsQueue(buf: seq<Byte>, es: seq<Event>)
    requires |buf| > 0
    ensures Seen(Run(Start(buf), es)) == QueueRun(|buf|, es)
    decreases |es|
  {
    if es != [] {
      var before := es[..|es| - 1];
      RunKeeps(Start(buf), before);
      RingIsQueue(buf, before);
      StepIsQueueStep(Run(Start(buf), before), es[|es| - 1]);
    }
  }

  // ------------------------------------------------------- one side undisturbed

  function Times(e: Event, n: nat): seq<Event> { seq(n, _ => e) }

  lemma {:induction false} RunOn(s: State, a: seq<Event>, b: seq<Event>)
    requires Indexed(s)
    ensures Run(s, a + b) == Run(Run(s, a), b)
    decreases |b|
  {
    if b == [] {
      assert a + b == a;
    } else {
      var n := |b| - 1;
      assert (a + b)[..|a + b| - 1] == a + b[..n];
      RunOn(s, a, b[..n]);
    }
  }

  lemma {:induction false} CopiesIn(s: State, rec: seq<Byte>, k: nat)
    requires Indexed(s) && s.producer == Copying(rec, 0) && k <= |rec| < |s.buf|
    ensures Run(s, Times(CopyIn, k)) == s.(buf := Written(s.buf, s.head, rec[..k]), producer := Copying(rec, k))
  {
    if k == 0 {
      assert Written(s.buf, s.head, rec[..0]) == s.buf;
    } else {
      assert Times(CopyIn, k)[..k - 1] == Times(CopyIn, k - 1);
      CopiesIn(s, rec, k - 1);
      WrapIsMod(s.head + (k - 1), |s.buf|);
      OneMoreWritten(s.buf, s.head, rec, k - 1);
    }
  }

  lemma OneMoreWritten(b: seq<Byte>, at: nat, rec: seq<Byte>, k: nat)
    requires at < |b| && k < |rec| < |b|
    ensures Written(b, at, rec[..k])[Wrap(at + k, |b|) := rec[k]] == Written(b, at, rec[..k + 1])
  {
  }

  lemma {:induction false} FirstMidLast(s: State, e: Event, mid: seq<Event>, f: Event)
    requires Indexed(s)
    ensures Run(s, [e] + mid + [f]) == Step(Run(Step(s, e), mid), f)
  {
    RunOn(s, [e] + mid, [f]);
    RunOn(s, [e], mid);
    RunOne(s, e);
    RunOne(Run(Step(s, e), mid), f);
  }

  /** Undisturbed, the sender's steps do what `Ring.Publish` does. */
  lemma {:induction false} PublishAlone(s: State, rec: seq<Byte>)
    requires Indexed(s) && s.producer.Idle?
    ensures
      var t := Run(s, [Begin(rec)] + Times(CopyIn, |rec|) + [StoreHead]);
      if |rec| <= Free(s.head, s.tail, |s.buf|)
      then t == s.(buf := Written(s.buf, s.head, rec), head := Wrap(s.head + |rec|, |s.buf|),
                   seqNo := s.seqNo + 1, records := s.records + [rec])
      else t == s.(seqNo := s.seqNo + 1, dropped := s.dropped + 1)
  {
    FirstMidLast(s, Begin(rec), Times(CopyIn, |rec|), StoreHead);
    if |rec| <= Free(s.head, s.tail, |s.buf|) {
      TakenAlone(s, rec);
    } else {
      NoCopies(Step(s, Begin(rec)), |rec|);
    }
  }

  lemma {:induction false} TakenAlone(s: State, rec: seq<Byte>)
    requires Indexed(s) && s.producer.Idle? && |rec| <= Free(s.head, s.tail, |s.buf|)
    ensures
      Step(Run(Step(s, Begin(rec)), Times(CopyIn, |rec|)), StoreHead)
      == s.(buf := Written(s.buf, s.head, rec), head := Wrap(s.head + |rec|, |s.buf|),
            seqNo := s.seqNo + 1, records := s.records + [rec])
  {
    var b := s.(seqNo := s.seqNo + 1, producer := Copying(rec, 0));
    assert Step(s, Begin(rec)) == b;
    CopiesIn(b, rec, |rec|);
    assert rec[..|rec|] == rec;
    WrapIsMod(s.head + |rec|, |s.buf|);
  }

  lemma {:induction false} RunOne(s: State, e: Event)
    requires Indexed(s)
    ensures Run(s, [e]) == Step(s, e)
  {
    assert [e][..0] == [] && Run(s, []) == s;
  }

  lemma {:induction false} NoCopies(s: State, k: nat)
    requires Indexed(s) && s.producer.Idle?
    ensures Run(s, Times(CopyIn, k)) == s
  {
    if k > 0 {
      assert Times(CopyIn, k)[..k - 1] == Times(CopyIn, k - 1);
      NoCopies(s, k - 1);
    }
  }

  lemma {:induction false} CopiesOut(s: State, n: nat, k: nat)
    requires Indexed(s) && s.consumer == Taking(n, []) && k <= n < |s.buf|
    ensures Run(s, Times(CopyOut, k)) == s.(consumer := Taking(n, Stored(s.buf, s.tail, k)))
  {
    if k > 0 {
      assert Times(CopyOut, k)[..k - 1] == Times(CopyOut, k - 1);
      CopiesOut(s, n, k - 1);
      WrapIsMod(s.tail + (k - 1), |s.buf|);
      assert Stored(s.buf, s.tail, k) == Stored(s.buf, s.tail, k - 1) + [s.buf[Wrap(s.tail + (k - 1), |s.buf|)]];
    } else {
      assert Stored(s.buf, s.tail, 0) == [];
    }
  }

  /** Undisturbed, the reader's steps do what `Ring.Read` does. */
  lemma {:induction false} ReadAlone(s: State, max: nat)
    requires Indexed(s) && s.consumer.Waiting?
    ensures
      var n := Min(Used(s.head, s.tail, |s.buf|), max);
      Run(s, [Look(max)] + Times(CopyOut, n) + [StoreTail])
      == s.(tail := Wrap(s.tail + n, |s.buf|), delivered := s.delivered + Stored(s.buf, s.tail, n))
  {
    var n := Min(Used(s.head, s.tail, |s.buf|), max);
    FirstMidLast(s, Look(max), Times(CopyOut, n), StoreTail);
    var b := s.(consumer := Taking(n, []));
    assert Step(s, Look(max)) == b;
    CopiesOut(b, n, n);
    WrapIsMod(s.tail + n, |s.buf|);
  }
}
