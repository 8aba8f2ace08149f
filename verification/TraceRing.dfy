/** The drained stream's output ring: one producer, one consumer, no lock. */
module TraceRing {
  import opened Common

  /** Bytes between the indices; one byte is held back so full and empty differ. */
  function Used(head: nat, tail: nat, size: nat): nat
    requires head < size && tail < size
  {
    if head >= tail then head - tail else size - tail + head
  }

  function Free(head: nat, tail: nat, size: nat): nat
    requires head < size && tail < size
  {
    size - 1 - Used(head, tail, size)
  }

  // ---------------------------------------------------- the two procedures

  class Ring {
    const buf: array<Byte>
    var head: nat
    var tail: nat

    ghost predicate Valid()
      reads this
    {
      head < buf.Length && tail < buf.Length
    }

    /** The unread bytes, oldest first. */
    ghost function Contents(): seq<Byte>
      reads this, buf
      requires Valid()
    {
      Stored(buf[..], tail, Used(head, tail, buf.Length))
    }

    constructor (size: nat)
      requires size > 0
      ensures Valid() && Contents() == [] && fresh(buf) && buf.Length == size
    {
      buf := new Byte[size];
      head, tail := 0, 0;
    }

    /** Two copies: up to the end of the buffer, and the rest from its start. */
    method Put(at: nat, src: seq<Byte>) returns (next: nat)
      requires Valid() && at < buf.Length && |src| < buf.Length
      modifies buf
      ensures buf[..] == Written(old(buf[..]), at, src)
      ensures next == Wrap(at + |src|, buf.Length)
    {
      var first := if |src| < buf.Length - at then |src| else buf.Length - at;
      for i := 0 to first
        invariant buf[..] == Written(old(buf[..]), at, src[..i])
      {
        buf[at + i] := src[i];
      }
      for i := 0 to |src| - first
        invariant buf[..] == Written(old(buf[..]), at, src[..first + i])
      {
        buf[i] := src[first + i];
      }
      assert src[..|src|] == src;
      WrapIsMod(at + |src|, buf.Length);
      next := (at + |src|) % buf.Length;
    }

    /** A whole record, or nothing of it. */
    method Publish(header: seq<Byte>, words: seq<Byte>) returns (accepted: bool)
      requires Valid()
      modifies this`head, buf
      ensures Valid()
      ensures accepted <==> |header| + |words| <= old(Free(head, tail, buf.Length))
      ensures Contents() == old(Contents()) + if accepted then header + words else []
      ensures
        var rec := header + words;
        if accepted then buf[..] == Written(old(buf[..]), old(head), rec) && head == Wrap(old(head) + |rec|, buf.Length)
        else buf[..] == old(buf[..]) && head == old(head)
    {
      accepted := Free(head, tail, buf.Length) >= |header| + |words|;
      if accepted {
        ghost var before := buf[..];
        var h := Put(head, header);
        h := Put(h, words);
        RecordAppended(before, head, tail, header, words);
        WrittenTwice(before, head, header, words);
        head := h;
      }
    }

    method Read(max: nat) returns (out: seq<Byte>)
      requires Valid()
      modifies this`tail
      ensures Valid()
      ensures |out| == if max < |old(Contents())| then max else |old(Contents())|
      ensures old(Contents()) == out + Contents()
      ensures out == Stored(buf[..], old(tail), |out|) && tail == Wrap(old(tail) + |out|, buf.Length)
    {
      var used := Used(head, tail, buf.Length);
      var n := if used < max then used else max;
      var first := if n < buf.Length - tail then n else buf.Length - tail;
      out := buf[tail..tail + first] + buf[..n - first];
      assert out == Stored(buf[..], tail, n);
      IndicesMove(head, tail, n, buf.Length);
      StoredSplit(buf[..], tail, used, n);
      WrapIsMod(tail + n, buf.Length);
      tail := (tail + n) % buf.Length;
    }
  }

  /** x % size for an index that ran at most one lap past the end. */
  function Wrap(x: nat, size: nat): (w: nat)
    requires x < 2 * size
    ensures w < size
  {
    if x < size then x else x - size
  }

  lemma WrapIsMod(x: nat, size: nat)
    requires x < 2 * size
    ensures x % size == Wrap(x, size)
  {
    if x >= size {
      assert x == 1 * size + (x - size);
      assert (x - size) % size == x - size;
    }
  }

  /** n bytes from position `at` on, wrapping. */
  function Stored(b: seq<Byte>, at: nat, n: nat): (s: seq<Byte>)
    requires at < |b| && n <= |b|
    ensures |s| == n
    ensures forall i :: 0 <= i < n ==> s[i] == b[Wrap(at + i, |b|)]
  {
    seq(n, i requires 0 <= i < n => b[Wrap(at + i, |b|)])
  }

  /** The buffer after `src` was laid down from `at` on, wrapping. */
  function Written(b: seq<Byte>, at: nat, src: seq<Byte>): (w: seq<Byte>)
    requires at < |b| && |src| <= |b|
    ensures |w| == |b|
  {
    seq(|b|, k requires 0 <= k < |b| =>
      if at <= k < at + |src| then src[k - at]
      else if k + |b| < at + |src| then src[k + |b| - at]
      else b[k])
  }

  lemma RecordAppended(b: seq<Byte>, head: nat, tail: nat, x: seq<Byte>, y: seq<Byte>)
    requires head < |b| && tail < |b| && |x| + |y| <= Free(head, tail, |b|)
    ensures
      var used, h := Used(head, tail, |b|), Wrap(head + |x|, |b|);
      && Used(Wrap(h + |y|, |b|), tail, |b|) == used + |x| + |y|
      && Stored(Written(Written(b, head, x), h, y), tail, used + |x| + |y|)
         == Stored(b, tail, used) + (x + y)
  {
    WrittenTwice(b, head, x, y);
    IndicesMove(head, tail, |x| + |y|, |b|);
    StoredThenWritten(b, tail, Used(head, tail, |b|), x + y);
  }

  lemma WrittenTwice(b: seq<Byte>, at: nat, x: seq<Byte>, y: seq<Byte>)
    requires at < |b| && |x| + |y| < |b|
    ensures Written(Written(b, at, x), Wrap(at + |x|, |b|), y) == Written(b, at, x + y)
    ensures Wrap(Wrap(at + |x|, |b|) + |y|, |b|) == Wrap(at + |x + y|, |b|)
  {
  }

  lemma StoredThenWritten(b: seq<Byte>, tail: nat, used: nat, src: seq<Byte>)
    requires tail < |b| && used + |src| < |b|
    ensures Stored(Written(b, Wrap(tail + used, |b|), src), tail, used + |src|)
         == Stored(b, tail, used) + src
  {
  }

  lemma StoredSplit(b: seq<Byte>, tail: nat, used: nat, n: nat)
    requires tail < |b| && n <= used < |b|
    ensures Stored(b, tail, used)
         == Stored(b, tail, n) + Stored(b, Wrap(tail + n, |b|), used - n)
  {
  }

  lemma IndicesMove(head: nat, tail: nat, len: nat, size: nat)
    requires head < size && tail < size
    ensures Wrap(tail + Used(head, tail, size), size) == head
    ensures len <= Free(head, tail, size) ==>
              Used(Wrap(head + len, size), tail, size) == Used(head, tail, size) + len
    ensures len <= Used(head, tail, size) ==>
              Used(head, Wrap(tail + len, size), size) == Used(head, tail, size) - len
  {
  }
}
