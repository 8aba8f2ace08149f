/** Byte access at any alignment and length over a bus that moves only whole words. */
module ByteMemory {

  type Byte = bv8
  type Word = bv32

  const SPACE: nat := 0x1_0000_0000

  /** A word's bytes, lowest first. */
  function BytesOf(w: Word): (b: seq<Byte>)
    ensures |b| == 4
  {
    [(w & 0xFF) as Byte, ((w >> 8) & 0xFF) as Byte, ((w >> 16) & 0xFF) as Byte, ((w >> 24) & 0xFF) as Byte]
  }

  function ByteOf(w: Word, k: nat): Byte
    requires k < 4
  {
    BytesOf(w)[k]
  }

  // Clearing a byte and or-ing a new one in replaces it, and no other.

  lemma PutByte0(w: Word, b: Byte)
    ensures BytesOf((w & 0xFFFF_FF00) | (b as Word)) == BytesOf(w)[0 := b]
  {
    var r := (w & 0xFFFF_FF00) | (b as Word);
    assert (r & 0xFF) as Byte == b;
    assert (r >> 8) & 0xFF == (w >> 8) & 0xFF;
    assert (r >> 16) & 0xFF == (w >> 16) & 0xFF;
    assert (r >> 24) & 0xFF == (w >> 24) & 0xFF;
  }

  lemma PutByte1(w: Word, b: Byte)
    ensures BytesOf((w & 0xFFFF_00FF) | ((b as Word) << 8)) == BytesOf(w)[1 := b]
  {
    var r := (w & 0xFFFF_00FF) | ((b as Word) << 8);
    assert r & 0xFF == w & 0xFF;
    assert ((r >> 8) & 0xFF) as Byte == b;
    assert (r >> 16) & 0xFF == (w >> 16) & 0xFF;
    assert (r >> 24) & 0xFF == (w >> 24) & 0xFF;
  }

  lemma PutByte2(w: Word, b: Byte)
    ensures BytesOf((w & 0xFF00_FFFF) | ((b as Word) << 16)) == BytesOf(w)[2 := b]
  {
    var r := (w & 0xFF00_FFFF) | ((b as Word) << 16);
    assert r & 0xFF == w & 0xFF;
    assert (r >> 8) & 0xFF == (w >> 8) & 0xFF;
    assert ((r >> 16) & 0xFF) as Byte == b;
    assert (r >> 24) & 0xFF == (w >> 24) & 0xFF;
  }

  lemma PutByte3(w: Word, b: Byte)
    ensures BytesOf((w & 0x00FF_FFFF) | ((b as Word) << 24)) == BytesOf(w)[3 := b]
  {
    var r := (w & 0x00FF_FFFF) | ((b as Word) << 24);
    assert r & 0xFF == w & 0xFF;
    assert (r >> 8) & 0xFF == (w >> 8) & 0xFF;
    assert (r >> 16) & 0xFF == (w >> 16) & 0xFF;
    assert ((r >> 24) & 0xFF) as Byte == b;
  }

  method PutByte(w: Word, k: nat, b: Byte) returns (r: Word)
    requires k < 4
    ensures forall j :: 0 <= j < 4 ==> ByteOf(r, j) == if j == k then b else ByteOf(w, j)
  {
    match k
    case 0 =>
      PutByte0(w, b);
      r := (w & 0xFFFF_FF00) | (b as Word);
    case 1 =>
      PutByte1(w, b);
      r := (w & 0xFFFF_00FF) | ((b as Word) << 8);
    case 2 =>
      PutByte2(w, b);
      r := (w & 0xFF00_FFFF) | ((b as Word) << 16);
    case 3 =>
      PutByte3(w, b);
      r := (w & 0x00FF_FFFF) | ((b as Word) << 24);
  }

  /** The bytes of w from `skip` on replaced by the first n of `bytes`. */
  predicate Merged(w: Word, skip: nat, bytes: seq<Byte>, n: nat, r: Word)
    requires n <= |bytes| && skip + n <= 4
  {
    forall j :: 0 <= j < 4 ==> ByteOf(r, j) == if skip <= j < skip + n then bytes[j - skip] else ByteOf(w, j)
  }

  type Words = nat -> Word

  /** The word that holds the byte at a. */
  function WordAddress(a: nat): nat { a - a % 4 }

  /** Memory as bytes. */
  function View(words: Words, a: nat): Byte { ByteOf(words(WordAddress(a)), a % 4) }

  /** Addresses run round the end of the address space. */
  function Plus(a: nat, i: nat): nat { (a + i) % SPACE }

  /** How far past `address` a is, going up and round. */
  function Offset(a: nat, address: nat): nat
    requires a < SPACE && address < SPACE
  {
    (a + SPACE - address) % SPACE
  }

  /** The n addresses from `address` on hold these bytes; every other byte is as it was. */
  ghost predicate Stored(before: Words, after: Words, address: nat, bytes: seq<Byte>, n: nat)
    requires n <= |bytes| && address < SPACE
  {
    forall a: nat :: a < SPACE ==>
      View(after, a) == if Offset(a, address) < n then bytes[Offset(a, address)] else View(before, a)
  }

  class Bus {
    var words: Words
    ghost var faults: nat           // accesses that failed

    constructor (initial: Words)
      ensures words == initial
    {
      words, faults := initial, 0;
    }

    method ReadWord(address: nat) returns (ok: bool, w: Word)
      modifies this`faults
      ensures faults == old(faults) + if ok then 0 else 1
      ensures ok ==> w == words(address)
    {
      ok := *;
      faults := faults + if ok then 0 else 1;
      w := if ok then words(address) else 0;
    }

    /** A write reported as failed may have arrived all the same. */
    method WriteWord(address: nat, w: Word) returns (ok: bool)
      modifies this
      ensures forall a: nat :: a != address ==> words(a) == old(words(a))
      ensures words(address) == w || (!ok && words(address) == old(words(address)))
      ensures faults == old(faults) + if ok then 0 else 1
    {
      ok := *;
      faults := faults + if ok then 0 else 1;
      var arrived: bool := *;
      if ok || arrived {
        var before := words;
        words := (a: nat) => if a == address then w else before(a);
      }
    }

    method ReadMem(address0: nat, len: nat) returns (ok: bool, bytes: seq<Byte>)
      requires address0 < SPACE
      modifies this`faults
      ensures faults >= old(faults) && (ok <==> faults == old(faults))
      ensures ok ==> |bytes| == len && forall i :: 0 <= i < len ==> bytes[i] == View(words, Plus(address0, i))
    {
      bytes := [];
      var address := address0;
      while |bytes| < len
        invariant |bytes| <= len && address == Plus(address0, |bytes|) && faults == old(faults)
        invariant forall i :: 0 <= i < |bytes| ==> bytes[i] == View(words, Plus(address0, i))
      {
        var skip := address % 4;
        var take := if 4 - skip < len - |bytes| then 4 - skip else len - |bytes|;
        var w;
        ok, w := ReadWord(address - skip);
        if !ok {
          return;
        }
        bytes := TakeBytes(address0, bytes, take, skip, w);
        PlusPlus(address0, |bytes| - take, take);
        address := (address + take) % SPACE;
      }
      ok := true;
    }

    /** The next bytes of the range, from their word. */
    method TakeBytes(address0: nat, bytes: seq<Byte>, take: nat, skip: nat, w: Word)
      returns (more: seq<Byte>)
      requires skip == Plus(address0, |bytes|) % 4 && skip + take <= 4
      requires w == words(WordAddress(Plus(address0, |bytes|)))
      requires forall i :: 0 <= i < |bytes| ==> bytes[i] == View(words, Plus(address0, i))
      ensures |more| == |bytes| + take && forall i :: 0 <= i < |more| ==> more[i] == View(words, Plus(address0, i))
    {
      more := bytes;
      for i := 0 to take
        invariant |more| == |bytes| + i
        invariant forall j :: 0 <= j < |more| ==> more[j] == View(words, Plus(address0, j))
      {
        SameWord(address0, |bytes|, i);
        more := more + [ByteOf(w, skip + i)];
      }
    }

    /** On failure the bytes before some word are written and no others; that word is the one
        whose access failed, or the one after it. */
    method WriteMem(address0: nat, bytes: seq<Byte>) returns (ok: bool, ghost done: nat)
      requires address0 < SPACE && |bytes| <= SPACE
      modifies this
      ensures done <= |bytes| && Stored(old(words), words, address0, bytes, done)
      ensures ok ==> done == |bytes|
      ensures faults >= old(faults) && (ok <==> faults == old(faults))
    {
      var address, at := address0, 0;
      done := 0;
      while at < |bytes|
        invariant at <= |bytes| && done == at && address == Plus(address0, at) && faults == old(faults)
        invariant Stored(old(words), words, address0, bytes, at)
      {
        var take := if 4 - address % 4 < |bytes| - at then 4 - address % 4 else |bytes| - at;
        ok, done := WriteOne(address0, bytes, at, take, address, old(words));
        if !ok {
          return;
        }
        PlusPlus(address0, at, take);
        address := (address + take) % SPACE;
        at := at + take;
      }
      ok := true;
    }

    /** One word, read first unless all of it is replaced. */
    method WriteOne(address0: nat, bytes: seq<Byte>, at: nat, take: nat, address: nat, ghost before: Words)
      returns (ok: bool, ghost done: nat)
      requires address0 < SPACE && at + take <= |bytes| <= SPACE && address == Plus(address0, at)
      requires address % 4 + take <= 4 && Stored(before, words, address0, bytes, at)
      modifies this
      ensures done <= |bytes| && Stored(before, words, address0, bytes, done) && (ok ==> done == at + take)
      ensures faults == old(faults) + if ok then 0 else 1
    {
      done := at;
      var skip := address % 4;
      var w: Word := 0;
      if take != 4 {
        ok, w := ReadWord(address - skip);
        if !ok {
          return;
        }
      }
      ghost var mid := words;
      w := Merge(w, skip, bytes[at..], take);
      ok := WriteWord(address - skip, w);
      if words(address - skip) == w {
        WriteStep(before, mid, words, address0, bytes, at, take);
        done := at + take;
      } else {
        assert forall a: nat :: words(a) == mid(a);
      }
    }
  }

  method Merge(w: Word, skip: nat, bytes: seq<Byte>, take: nat) returns (r: Word)
    requires take <= |bytes| && skip + take <= 4
    ensures Merged(w, skip, bytes, take, r)
  {
    r := w;
    for i := 0 to take
      invariant Merged(w, skip, bytes, i, r)
    {
      r := PutByte(r, skip + i, bytes[i]);
    }
  }

  lemma OffsetPlus(address: nat, i: nat)
    requires address < SPACE && i < SPACE
    ensures Plus(address, i) < SPACE && Offset(Plus(address, i), address) == i
  {
  }

  /** The bytes one word write changes are the next `take` of the range. */
  lemma InThisWord(address: nat, at: nat, take: nat, a: nat)
    requires address < SPACE && a < SPACE && at + take <= SPACE
    requires Plus(address, at) % 4 + take <= 4
    ensures
      var here := Plus(address, at);
      && (WordAddress(a) == WordAddress(here) && here % 4 <= a % 4 < here % 4 + take <==>
            at <= Offset(a, address) < at + take)
      && (at <= Offset(a, address) < at + take ==> Offset(a, address) - at == a % 4 - here % 4)
  {
    var here := Plus(address, at);
    var o := Offset(a, address);
    assert Plus(address, o) == a;
    if at <= o < at + take {
      SameWord(address, at, o - at);
    }
    if WordAddress(a) == WordAddress(here) && here % 4 <= a % 4 < here % 4 + take {
      var i := a % 4 - here % 4;
      SameWord(address, at, i);
      OffsetPlus(address, at + i);
      assert Plus(address, at + i) == a;
    }
  }

  lemma WriteStep(before: Words, mid: Words, after: Words, address: nat, bytes: seq<Byte>, at: nat, take: nat)
    requires address < SPACE && at + take <= |bytes| <= SPACE && Stored(before, mid, address, bytes, at)
    requires Plus(address, at) % 4 + take <= 4
    requires
      var here := WordAddress(Plus(address, at));
      && (forall a: nat :: a != here ==> after(a) == mid(a))
      && Merged(if take != 4 then mid(here) else 0, Plus(address, at) % 4, bytes[at..], take, after(here))
    ensures Stored(before, after, address, bytes, at + take)
  {
    forall a: nat | a < SPACE
      ensures View(after, a) == if Offset(a, address) < at + take then bytes[Offset(a, address)] else View(before, a)
    {
      ByteWritten(mid, after, address, bytes, at, take, a);
    }
  }

  lemma ByteWritten(mid: Words, after: Words, address: nat, bytes: seq<Byte>, at: nat, take: nat, a: nat)
    requires address < SPACE && at + take <= |bytes| <= SPACE && a < SPACE
    requires Plus(address, at) % 4 + take <= 4
    requires
      var here := WordAddress(Plus(address, at));
      && (forall a: nat :: a != here ==> after(a) == mid(a))
      && Merged(if take != 4 then mid(here) else 0, Plus(address, at) % 4, bytes[at..], take, after(here))
    ensures View(after, a) == if at <= Offset(a, address) < at + take then bytes[Offset(a, address)] else View(mid, a)
  {
    InThisWord(address, at, take, a);
  }

  /** What was written is what is read. */
  lemma ReadAfterWrite(before: Words, after: Words, address: nat, bytes: seq<Byte>, read: seq<Byte>)
    requires address < SPACE && |bytes| <= SPACE && Stored(before, after, address, bytes, |bytes|)
    requires |read| == |bytes| && forall i :: 0 <= i < |read| ==> read[i] == View(after, Plus(address, i))
    ensures read == bytes
  {
    forall i | 0 <= i < |bytes| ensures read[i] == bytes[i] {
      OffsetPlus(address, i);
    }
  }

  lemma PlusPlus(a: nat, i: nat, k: nat)
    ensures Plus(Plus(a, i), k) == Plus(a, i + k)
  {
  }

  /** Up to the end of its word, a byte's successors are in the same word. */
  lemma SameWord(a: nat, done: nat, i: nat)
    requires Plus(a, done) % 4 + i < 4
    ensures WordAddress(Plus(a, done + i)) == WordAddress(Plus(a, done))
    ensures Plus(a, done + i) % 4 == Plus(a, done) % 4 + i
  {
  }
}
