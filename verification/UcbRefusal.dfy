/** How a refusal nobody reads loses the safety of a header: runs of the command interpreter
    in which one page's program command is refused and everything else is taken. */
module UcbRefusal {
  import opened Common
  import opened UcbDevice
  import opened Ucb

  /** A run of the interpreter through these cycles, each of them reported as delivered. */
  ghost predicate Follows(states: seq<Dmu>, cycles: seq<Cycle>) {
    && |states| == |cycles| + 1
    && forall i :: 0 <= i < |cycles| ==> Next(states[i], cycles[i], states[i + 1], true)
  }

  /** There is a run from s to t. */
  ghost predicate Leads(s: Dmu, cycles: seq<Cycle>, t: Dmu) {
    exists states: seq<Dmu> :: Follows(states, cycles) && states[0] == s && states[|cycles|] == t
  }

  lemma LeadsOn(s: Dmu, c: seq<Cycle>, t: Dmu, d: seq<Cycle>, u: Dmu)
    requires Leads(s, c, t) && Leads(t, d, u)
    ensures Leads(s, c + d, u)
  {
    var a: seq<Dmu> :| Follows(a, c) && a[0] == s && a[|c|] == t;
    var b: seq<Dmu> :| Follows(b, d) && b[0] == t && b[|d|] == u;
    var r := a[..|c|] + b;
    forall i | 0 <= i < |c + d| ensures Next(r[i], (c + d)[i], r[i + 1], true) {
      if i >= |c| {
        assert Next(b[i - |c|], d[i - |c|], b[i - |c| + 1], true);
      } else {
        assert Next(a[i], c[i], a[i + 1], true);
      }
    }
    assert Follows(r, c + d);
  }

  /** What programming a page sends, the clearing at the end of the wait included. */
  function PageCycles(address: nat, low: Page, high: Page): seq<Cycle> {
    [ClearStatus, EnterPage, LoadLow(low), LoadHigh(high), Address(address), Count(0), Setup(0xA0), Setup(0xAA),
     ClearStatus, ClearStatus]
  }

  /** Every cycle taken, or all but the one that programs. */
  lemma PageRun(s: Dmu, address: nat, low: Page, high: Page, refused: bool) returns (t: Dmu)
    ensures Leads(s, PageCycles(address, low, high), t)
    ensures t.flash == if refused then s.flash else PageWritten(s.flash, address, low, high)
  {
    var s1 := Taken(s, ClearStatus);
    var s2 := Taken(s1, EnterPage);
    var s3 := Taken(s2, LoadLow(low));
    var s4 := Taken(s3, LoadHigh(high));
    var s5 := Taken(s4, Address(address));
    var s6 := Taken(s5, Count(0));
    var s7 := Taken(s6, Setup(0xA0));
    var s8 := Taken(s7, Setup(0xAA));
    if refused {
      s8 := s8.(flash := s7.flash, refused := true);
    }
    var s9 := Taken(s8, ClearStatus);
    t := Taken(s9, ClearStatus);
    assert Follows([s, s1, s2, s3, s4, s5, s6, s7, s8, s9, t], PageCycles(address, low, high));
  }

  function PageOf(blob: seq<Byte>, offset: nat): (Page, Page)
    requires offset + PAGE <= |blob|
  {
    (blob[offset..offset + 4], blob[offset + 4..offset + 8])
  }

  function ProgramCycles(base: nat, blob: seq<Byte>, offset: nat): seq<Cycle>
    requires offset + PAGE <= |blob|
  {
    PageCycles(base + offset, PageOf(blob, offset).0, PageOf(blob, offset).1)
  }

  /** What is sent from a page on: the pages in order but for the confirmation word's, and
      that one last. */
  function CyclesFrom(base: nat, blob: seq<Byte>, offset: nat): seq<Cycle>
    requires |blob| == UCB_SIZE && offset % PAGE == 0 && offset <= UCB_SIZE
    decreases UCB_SIZE - offset
  {
    if offset == UCB_SIZE then ProgramCycles(base, blob, STATE_OFFSET)
    else (if offset == STATE_OFFSET then [] else ProgramCycles(base, blob, offset))
         + CyclesFrom(base, blob, offset + PAGE)
  }

  /** The pages from `offset` on and the confirmation word's page are the image's, everything
      else is as it was. */
  ghost predicate RestWritten(f: Flash, g: Flash, base: nat, blob: seq<Byte>, offset: nat)
    requires |blob| == UCB_SIZE
  {
    forall a: nat ::
      g(a) == if Within(a, base, UCB_SIZE) && (a - base >= offset || Within(a - base, STATE_OFFSET, PAGE))
              then blob[a - base] else f(a)
  }

  lemma PageLands(f: Flash, base: nat, blob: seq<Byte>, offset: nat, a: nat)
    requires |blob| == UCB_SIZE && offset + PAGE <= UCB_SIZE
    ensures PageWritten(f, base + offset, PageOf(blob, offset).0, PageOf(blob, offset).1)(a)
         == if Within(a, base + offset, PAGE) then blob[a - base] else f(a)
  {
    if Within(a, base + offset, PAGE) {
      var k := a - (base + offset);
      assert (PageOf(blob, offset).0 + PageOf(blob, offset).1)[k] == blob[offset + k];
    }
  }

  ghost predicate PageTaken(f: Flash, g: Flash, base: nat, blob: seq<Byte>, at: nat)
    requires |blob| == UCB_SIZE && at + PAGE <= UCB_SIZE
  {
    forall a: nat :: g(a) == if Within(a, base + at, PAGE) then blob[a - base] else f(a)
  }

  lemma BlobPageRun(s: Dmu, base: nat, blob: seq<Byte>, at: nat) returns (t: Dmu)
    requires |blob| == UCB_SIZE && at + PAGE <= UCB_SIZE
    ensures Leads(s, ProgramCycles(base, blob, at), t) && PageTaken(s.flash, t.flash, base, blob, at)
  {
    t := PageRun(s, base + at, PageOf(blob, at).0, PageOf(blob, at).1, false);
    forall a: nat ensures t.flash(a) == if Within(a, base + at, PAGE) then blob[a - base] else s.flash(a) {
      PageLands(s.flash, base, blob, at, a);
    }
  }

  lemma RestStep(f: Flash, g: Flash, h: Flash, base: nat, blob: seq<Byte>, offset: nat)
    requires |blob| == UCB_SIZE && offset + PAGE <= UCB_SIZE
    requires PageTaken(f, g, base, blob, offset) && RestWritten(g, h, base, blob, offset + PAGE)
    ensures RestWritten(f, h, base, blob, offset)
  {
  }

  /** Everything from a page on taken. */
  lemma {:induction false} RestRun(s: Dmu, base: nat, blob: seq<Byte>, offset: nat) returns (t: Dmu)
    requires |blob| == UCB_SIZE && offset % PAGE == 0 && offset <= UCB_SIZE
    ensures Leads(s, CyclesFrom(base, blob, offset), t) && RestWritten(s.flash, t.flash, base, blob, offset)
    decreases UCB_SIZE - offset
  {
    if offset == UCB_SIZE {
      t := BlobPageRun(s, base, blob, STATE_OFFSET);
    } else if offset == STATE_OFFSET {
      t := RestRun(s, base, blob, offset + PAGE);
      assert [] + CyclesFrom(base, blob, offset + PAGE) == CyclesFrom(base, blob, offset + PAGE);
    } else {
      var mid := BlobPageRun(s, base, blob, offset);
      t := RestRun(mid, base, blob, offset + PAGE);
      LeadsOn(s, ProgramCycles(base, blob, offset), mid, CyclesFrom(base, blob, offset + PAGE), t);
      RestStep(s.flash, mid.flash, t.flash, base, blob, offset);
    }
  }

  /** One page's command refused with the error left unread, everything after it taken: if the
      flash did not hold that page anyway, the header ends up unsafe, unless it ends up just
      as it was before the whole run. */
  lemma RefusedPageLosesSafety(image: Image, before: Flash, s: Dmu, h: nat, offset: nat, i: nat) returns (t: Dmu)
    requires Whole(image) && h < HEADERS && Unlocks(Blob(image, h))
    requires offset % PAGE == 0 && offset < UCB_SIZE && offset != STATE_OFFSET && Within(i, offset, PAGE)
    requires s.flash(HeaderBase(h) + i) != Blob(image, h)[i]
    ensures Leads(s, CyclesFrom(HeaderBase(h), Blob(image, h), offset), t)
    ensures HeaderSafe(image, before, t.flash, h) <==> SameBlock(t.flash, before, HeaderBase(h))
    ensures t.flash(HeaderBase(h) + i) == s.flash(HeaderBase(h) + i)
  {
    t := RefusedRun(s, HeaderBase(h), Blob(image, h), offset, i);
    NotTheImage(image, before, t.flash, h, i);
  }

  lemma RefusedRun(s: Dmu, base: nat, blob: seq<Byte>, offset: nat, i: nat) returns (t: Dmu)
    requires |blob| == UCB_SIZE && offset % PAGE == 0 && offset < UCB_SIZE && offset != STATE_OFFSET
    requires Within(i, offset, PAGE)
    ensures Leads(s, CyclesFrom(base, blob, offset), t) && i < UCB_SIZE
    ensures t.flash(base + i) == s.flash(base + i)
    ensures ConfirmArrived(t.flash, base, blob)
  {
    PagesApart(offset, i);
    var mid := RefusedPageRun(s, base, blob, offset);
    t := RestRun(mid, base, blob, offset + PAGE);
    FirstThenRest(s, mid, t, base, blob, offset);
    LeftOut(mid.flash, t.flash, base, blob, offset, i);
  }

  lemma RefusedPageRun(s: Dmu, base: nat, blob: seq<Byte>, at: nat) returns (t: Dmu)
    requires |blob| == UCB_SIZE && at + PAGE <= UCB_SIZE
    ensures Leads(s, ProgramCycles(base, blob, at), t) && t.flash == s.flash
  {
    t := PageRun(s, base + at, PageOf(blob, at).0, PageOf(blob, at).1, true);
  }

  lemma FirstThenRest(s: Dmu, mid: Dmu, t: Dmu, base: nat, blob: seq<Byte>, offset: nat)
    requires |blob| == UCB_SIZE && offset % PAGE == 0 && offset + PAGE <= UCB_SIZE && offset != STATE_OFFSET
    requires Leads(s, ProgramCycles(base, blob, offset), mid)
    requires Leads(mid, CyclesFrom(base, blob, offset + PAGE), t)
    ensures Leads(s, CyclesFrom(base, blob, offset), t)
  {
    LeadsOn(s, ProgramCycles(base, blob, offset), mid, CyclesFrom(base, blob, offset + PAGE), t);
  }

  /** The blob's confirmation word is there. */
  ghost predicate ConfirmArrived(g: Flash, base: nat, blob: seq<Byte>)
    requires |blob| == UCB_SIZE
  {
    forall k :: STATE_OFFSET <= k < STATE_OFFSET + 4 ==> g(base + k) == blob[k]
  }

  lemma LeftOut(f: Flash, g: Flash, base: nat, blob: seq<Byte>, offset: nat, i: nat)
    requires |blob| == UCB_SIZE && offset + PAGE <= UCB_SIZE && Within(i, offset, PAGE)
    requires !Within(i, STATE_OFFSET, PAGE) && RestWritten(f, g, base, blob, offset + PAGE)
    ensures g(base + i) == f(base + i) && ConfirmArrived(g, base, blob)
  {
    assert base + i - base == i;
    forall k | STATE_OFFSET <= k < STATE_OFFSET + 4 ensures g(base + k) == blob[k] {
      assert base + k - base == k;
    }
  }

  lemma PagesApart(offset: nat, i: nat)
    requires offset % PAGE == 0 && offset < UCB_SIZE && offset != STATE_OFFSET && Within(i, offset, PAGE)
    ensures !Within(i, STATE_OFFSET, PAGE) && offset + PAGE <= UCB_SIZE && (offset + PAGE) % PAGE == 0
  {
  }

  predicate Unlocks(b: seq<Byte>)
    requires |b| == UCB_SIZE
  {
    b[STATE_OFFSET..STATE_OFFSET + 4] == UNLOCKED
  }

  /** Every header that may be written unlocks the block, and begins as a header does. */
  lemma WritableUnlocks(b: seq<Byte>)
    requires |b| == UCB_SIZE && Writable(b)
    ensures Unlocks(b) && b[2] == 0x59
  {
    assert b[STATE_OFFSET..STATE_OFFSET + 4] in {UNLOCKED, CONFIRMED};
  }

  /** A block with the blob's confirmation word, but not all its bytes. */
  lemma Misses(g: Flash, base: nat, blob: seq<Byte>, i: nat)
    requires |blob| == UCB_SIZE && Unlocks(blob) && i < UCB_SIZE && g(base + i) != blob[i]
    requires ConfirmArrived(g, base, blob)
    ensures BlockOf(g, base) != blob && !ConfirmErased(g, base) && !Confirms(BlockOf(g, base))
  {
    var b := BlockOf(g, base);
    assert b[i] != blob[i];
    assert blob[STATE_OFFSET] == blob[STATE_OFFSET..STATE_OFFSET + 4][0] == UNLOCKED[0];
    assert Within(base + STATE_OFFSET, base + STATE_OFFSET, 4) && g(base + STATE_OFFSET) != ERASED_BYTE;
    assert b[STATE_OFFSET..STATE_OFFSET + 4][0] == b[STATE_OFFSET] == UNLOCKED[0] != CONFIRMED[0];
  }

  lemma NotTheImage(image: Image, before: Flash, g: Flash, h: nat, i: nat)
    requires Whole(image) && h < HEADERS && Unlocks(Blob(image, h)) && i < UCB_SIZE
    requires g(HeaderBase(h) + i) != Blob(image, h)[i]
    requires ConfirmArrived(g, HeaderBase(h), Blob(image, h))
    ensures HeaderSafe(image, before, g, h) <==> SameBlock(g, before, HeaderBase(h))
  {
    Misses(g, HeaderBase(h), Blob(image, h), i);
  }

  lemma Differ(g: Flash, before: Flash, base: nat, i: nat)
    requires i < UCB_SIZE && g(base + i) != before(base + i)
    ensures !SameBlock(g, before, base)
  {
    assert Within(base + i, base, UCB_SIZE);
  }

  /** In particular: an old header that was in force, erased as it should be; then the very
      first page refused and not noticed, whatever header is being written. */
  lemma FirstPageRefused(image: Image, before: Flash, s: Dmu, h: nat) returns (t: Dmu)
    requires Whole(image) && h < HEADERS && Writable(Blob(image, h))
    requires before(HeaderBase(h) + 2) == 0x59 && BytesErased(s.flash, HeaderBase(h), UCB_SIZE)
    ensures Leads(s, CyclesFrom(HeaderBase(h), Blob(image, h), 0), t) && !HeaderSafe(image, before, t.flash, h)
  {
    WritableUnlocks(Blob(image, h));
    ThirdByteErased(s.flash, HeaderBase(h));
    t := RefusedAtStart(image, before, s, h, 0x59);
  }

  lemma RefusedAtStart(image: Image, before: Flash, s: Dmu, h: nat, b: Byte) returns (t: Dmu)
    requires Whole(image) && h < HEADERS && Unlocks(Blob(image, h)) && Blob(image, h)[2] == b != ERASED_BYTE
    requires before(HeaderBase(h) + 2) == b && s.flash(HeaderBase(h) + 2) == ERASED_BYTE
    ensures Leads(s, CyclesFrom(HeaderBase(h), Blob(image, h), 0), t) && !HeaderSafe(image, before, t.flash, h)
  {
    t := RefusedPageLosesSafety(image, before, s, h, 0, 2);
    Differ(t.flash, before, HeaderBase(h), 2);
  }

  lemma ThirdByteErased(f: Flash, base: nat)
    requires BytesErased(f, base, UCB_SIZE)
    ensures f(base + 2) == ERASED_BYTE
  {
    assert Within(base + 2, base, UCB_SIZE);
  }
}
