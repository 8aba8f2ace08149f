/** The fabric's side of a chained block read: one block running, at most one start held
    behind it, and a reply FIFO the fabric fills and the host empties. */
module ChainFabric {
  import opened Common

  const FIFO_BYTES: nat := 1024

  datatype Running = Idle | Block(index: nat, pos: nat, sent: bool)

  /** `popped` and `broken` are history: the bytes the host took since the clear, and
      whether a parcel of this chain timed out. */
  datatype Fab = Fab(fifo: seq<Byte>, run: Running, held: bool, starts: nat,
                     timedOut: bool, overrun: bool, popped: seq<Byte>, broken: bool)

  predicate Busy(s: Fab) { s.run.Block? || s.held }

  // ------------------------------------------------------------- the replies

  /** The replies of blocks j, j+1, ..., in order. */
  function From(reply: seq<seq<Byte>>, j: nat): (r: seq<Byte>)
    requires j <= |reply|
    decreases |reply| - j
  {
    if j == |reply| then [] else reply[j] + From(reply, j + 1)
  }

  /** How many bytes blocks 0 .. k-1 answer with. */
  function Bytes(reply: seq<seq<Byte>>, k: nat): nat
    requires k <= |reply|
  {
    if k == 0 then 0 else Bytes(reply, k - 1) + |reply[k - 1]|
  }

  function Total(reply: seq<seq<Byte>>): nat { Bytes(reply, |reply|) }

  predicate NoneEmpty(reply: seq<seq<Byte>>) { forall j :: 0 <= j < |reply| ==> |reply[j]| > 0 }

  lemma {:induction false} FromAndBytes(reply: seq<seq<Byte>>, j: nat)
    requires j <= |reply|
    ensures Bytes(reply, j) + |From(reply, j)| == Total(reply)
    decreases |reply| - j
  {
    if j < |reply| {
      FromAndBytes(reply, j + 1);
    }
  }

  // --------------------------------------------------------------- the steps

  datatype Move = Take | Command | Push | TimeOut

  predicate CanMove(s: Fab, m: Move, reply: seq<seq<Byte>>) {
    match m
    case Take => s.run.Idle? && s.held && 0 < s.starts
    case Command => s.run.Block? && !s.run.sent
    case Push =>
      s.run.Block? && s.run.sent && s.run.index < |reply| && s.run.pos < |reply[s.run.index]|
      && |s.fifo| < FIFO_BYTES
    case TimeOut => s.run.Block? && s.run.sent
  }

  /** A start is taken when nothing runs; its command clears the reply flags; its reply
      goes into the FIFO while there is room; a parcel that never comes ends the block and
      drops a held start. */
  function Moved(s: Fab, m: Move, reply: seq<seq<Byte>>): Fab
    requires CanMove(s, m, reply)
  {
    match m
    case Take => s.(run := Block(s.starts - 1, 0, false), held := false, overrun := false)
    case Command => s.(run := s.run.(sent := true), timedOut := false)
    case Push =>
      s.(fifo := s.fifo + [reply[s.run.index][s.run.pos]],
         run := if s.run.pos + 1 == |reply[s.run.index]| then Idle else s.run.(pos := s.run.pos + 1))
    case TimeOut => s.(run := Idle, held := false, timedOut := true, broken := true)
  }

  // ------------------------------------------------------- the host's actions

  /** The first start, with the FIFO cleared; the reply flags are whatever they were. */
  function Started(s: Fab): Fab {
    s.(fifo := [], run := Idle, held := true, starts := 1, popped := [], broken := false)
  }

  function Queued(s: Fab): Fab
    requires !s.held
  {
    s.(held := true, starts := s.starts + 1)
  }

  function Popped(s: Fab, k: nat): Fab
    requires k <= |s.fifo|
  {
    s.(fifo := s.fifo[k..], popped := s.popped + s.fifo[..k])
  }

  // ------------------------------------------------------------ the invariant

  /** What the starts written so far, and those still to come, will yet push. */
  function Rest(s: Fab, reply: seq<seq<Byte>>): seq<Byte>
    requires Sane(s, reply)
  {
    (if s.run.Block? then reply[s.run.index][s.run.pos..] else [])
    + (if s.held then reply[s.starts - 1] else [])
    + From(reply, s.starts)
  }

  function Pushed(s: Fab): nat { |s.popped| + |s.fifo| }

  predicate Sane(s: Fab, reply: seq<seq<Byte>>) {
    && NoneEmpty(reply) && 1 <= s.starts <= |reply| && |s.fifo| <= FIFO_BYTES
    && (s.run.Block? ==>
          && s.run.index + (if s.held then 2 else 1) == s.starts
          && s.run.pos < |reply[s.run.index]| && (!s.run.sent ==> s.run.pos == 0))
  }

  /** Flags from before the chain are seen only until its first command is out. */
  predicate FlagsOk(s: Fab) {
    && (s.timedOut && !s.broken ==> Pushed(s) == 0 && Busy(s) && (s.run.Block? ==> !s.run.sent))
    && (s.overrun ==> Pushed(s) == 0 && s.run.Idle? && s.held)
  }

  predicate Inv(s: Fab, reply: seq<seq<Byte>>) {
    && Sane(s, reply) && FlagsOk(s)
    && (if s.broken then Pushed(s) + |Rest(s, reply)| < Total(reply)
        else s.popped + s.fifo + Rest(s, reply) == From(reply, 0))
  }

  lemma StartedInv(s: Fab, reply: seq<seq<Byte>>)
    requires NoneEmpty(reply) && |reply| > 0
    ensures Inv(Started(s), reply)
  {
    var t := Started(s);
    assert t.popped + t.fifo + Rest(t, reply) == From(reply, 0);
  }

  lemma PushInv(s: Fab, reply: seq<seq<Byte>>)
    requires Inv(s, reply) && CanMove(s, Push, reply)
    ensures Inv(Moved(s, Push, reply), reply)
  {
    var t, i, p := Moved(s, Push, reply), s.run.index, s.run.pos;
    assert Rest(s, reply) == [reply[i][p]] + Rest(t, reply) by {
      assert reply[i][p..] == [reply[i][p]] + reply[i][p + 1..];
    }
    assert s.popped + s.fifo + Rest(s, reply) == t.popped + t.fifo + Rest(t, reply);
  }

  lemma MovedInv(s: Fab, m: Move, reply: seq<seq<Byte>>)
    requires Inv(s, reply) && CanMove(s, m, reply)
    ensures Inv(Moved(s, m, reply), reply) && Later(s, Moved(s, m, reply))
  {
    var t := Moved(s, m, reply);
    match m
    case Take =>
      assert Rest(t, reply) == Rest(s, reply);
    case Command =>
      assert Rest(t, reply) == Rest(s, reply);
    case Push =>
      PushInv(s, reply);
    case TimeOut =>
      SizeOk(s, reply);
      assert |Rest(t, reply)| < |Rest(s, reply)|;
  }

  /** Nothing pushed and nothing to come ever exceeds what the blocks answer with. */
  lemma SizeOk(s: Fab, reply: seq<seq<Byte>>)
    requires Inv(s, reply)
    ensures Pushed(s) + |Rest(s, reply)| <= Total(reply)
    ensures !s.broken ==> Pushed(s) + |Rest(s, reply)| == Total(reply)
  {
    FromAndBytes(reply, 0);
    if !s.broken {
      assert |s.popped + s.fifo + Rest(s, reply)| == |From(reply, 0)|;
    }
  }

  lemma QueuedInv(s: Fab, reply: seq<seq<Byte>>)
    requires Inv(s, reply) && !s.held && s.starts < |reply|
    ensures Inv(Queued(s), reply)
  {
    assert Rest(Queued(s), reply) == Rest(s, reply);
  }

  lemma PoppedInv(s: Fab, k: nat, reply: seq<seq<Byte>>)
    requires Inv(s, reply) && k <= |s.fifo|
    ensures Inv(Popped(s, k), reply) && Pushed(Popped(s, k)) == Pushed(s)
  {
    var t := Popped(s, k);
    assert s.fifo == s.fifo[..k] + s.fifo[k..];
    assert t.popped + t.fifo == s.popped + s.fifo;
    assert Rest(t, reply) == Rest(s, reply);
  }

  // --------------------------------------------------- between host accesses

  /** t can follow s by the fabric's own moves. */
  predicate Later(s: Fab, t: Fab) {
    && t.starts == s.starts && t.popped == s.popped && s.fifo <= t.fifo
    && (t.held ==> s.held) && (!Busy(s) ==> t == s) && (s.broken ==> t.broken)
  }

  // -------------------------------------------------- what the host can infer

  /** While a start is held, only earlier blocks have pushed. */
  lemma {:induction false} HeldBehind(s: Fab, reply: seq<seq<Byte>>)
    requires Inv(s, reply) && s.held
    ensures Pushed(s) <= Bytes(reply, s.starts - 1)
  {
    SizeOk(s, reply);
    FromAndBytes(reply, s.starts - 1);
    assert From(reply, s.starts - 1) == reply[s.starts - 1] + From(reply, s.starts);
  }

  /** Only blocks started have pushed, and once idle without a timeout all of each. */
  lemma {:induction false} StartedCovers(s: Fab, reply: seq<seq<Byte>>)
    requires Inv(s, reply)
    ensures Pushed(s) <= Bytes(reply, s.starts)
    ensures !Busy(s) && !s.broken ==> Pushed(s) == Bytes(reply, s.starts)
  {
    SizeOk(s, reply);
    FromAndBytes(reply, s.starts);
  }

  /** Everything popped is everything, in order. */
  lemma {:induction false} AllPopped(s: Fab, reply: seq<seq<Byte>>)
    requires Inv(s, reply) && |s.popped| == Total(reply)
    ensures s.popped == From(reply, 0)
  {
    SizeOk(s, reply);
    assert s.popped + s.fifo + Rest(s, reply) == s.popped;
  }

  // ---------------------------------------------------- LEVEL, read in halves

  /** The level the host works with, from the low byte and a later high byte. */
  function Avail(low: nat, high: nat): nat {
    var a := low + high % 16 * 256;
    if low >= 0xF0 && a >= 0x100 then a - 0x100 else a
  }

  /** It never exceeds the level there was when the low byte was sampled, is zero only if
      that was, and is at most one wrap short of it. */
  lemma TornLevel(level: nat, later: nat)
    requires level <= later <= level + 16 && later <= FIFO_BYTES
    ensures
      var a := Avail(level % 256, later / 256);
      a <= level <= a + 0x100 && (a == 0 <==> level == 0)
  {
    var low, k := level % 256, level / 256;
    assert level == 256 * k + low;
    assert later / 256 == k || (later / 256 == k + 1 && low >= 0xF0);
  }
}
