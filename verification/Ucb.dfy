/** Writing the boot mode headers, so that a run cut off anywhere leaves nothing that
    claims to be valid and is not. */
module Ucb {
  import opened Common
  import opened UcbDevice
  import Crc32

  const UCB_WINDOW: nat := 0x6000
  const STATE_OFFSET: nat := 0x1F0
  const PAGE: nat := 8
  const HEADERS: nat := 8

  const UNLOCKED: seq<Byte> := [0x34, 0x12, 0x21, 0x43]
  const CONFIRMED: seq<Byte> := [0x7F, 0x32, 0xB5, 0x57]

  /** What an image carries: bytes of the whole window, and which slots it has. */
  datatype Image = Image(data: seq<Byte>, present: set<nat>)

  predicate Whole(image: Image) { |image.data| == UCB_WINDOW }

  /** Four originals, then four copies. */
  function HeaderBase(h: nat): nat {
    if h < 4 then UCB_BASE + h * UCB_SIZE else UCB_BASE + 0x1000 + (h - 4) * UCB_SIZE
  }

  function SlotOf(base: nat): nat
    requires base >= UCB_BASE
  {
    (base - UCB_BASE) / UCB_SIZE
  }

  predicate InHeader(h: nat, a: nat) { Within(a, HeaderBase(h), UCB_SIZE) }

  predicate InAnyHeader(a: nat) { exists h :: 0 <= h < HEADERS && InHeader(h, a) }

  ghost predicate SameOutside(f: Flash, g: Flash) {
    forall a: nat :: !InAnyHeader(a) ==> f(a) == g(a)
  }

  function Blob(image: Image, h: nat): (b: seq<Byte>)
    requires Whole(image) && h < HEADERS
    ensures |b| == UCB_SIZE
  {
    image.data[HeaderBase(h) - UCB_BASE..HeaderBase(h) - UCB_BASE + UCB_SIZE]
  }

  // ------------------------------------------------------------------- safety

  ghost predicate SameBlock(f: Flash, g: Flash, base: nat) {
    forall a: nat :: Within(a, base, UCB_SIZE) ==> f(a) == g(a)
  }

  ghost predicate SameElsewhere(f: Flash, g: Flash, base: nat) {
    forall a: nat :: !Within(a, base, UCB_SIZE) ==> f(a) == g(a)
  }

  ghost predicate BytesErased(f: Flash, lo: nat, n: nat) {
    forall a: nat :: Within(a, lo, n) ==> f(a) == ERASED_BYTE
  }

  ghost predicate ConfirmErased(f: Flash, base: nat) { BytesErased(f, base + STATE_OFFSET, 4) }

  predicate Confirms(blob: seq<Byte>)
    requires |blob| == UCB_SIZE
  {
    blob[STATE_OFFSET..STATE_OFFSET + 4] == CONFIRMED
  }

  /** A header is untouched, or its confirmation word is erased, or it is the image's. */
  ghost predicate HeaderSafe(image: Image, before: Flash, f: Flash, h: nat)
    requires Whole(image) && h < HEADERS
  {
    && (|| SameBlock(f, before, HeaderBase(h))
        || ConfirmErased(f, HeaderBase(h))
        || BlockOf(f, HeaderBase(h)) == Blob(image, h))
    && (Confirms(BlockOf(f, HeaderBase(h))) ==> SameBlock(f, before, HeaderBase(h)))
  }

  ghost predicate Safe(image: Image, before: Flash, f: Flash)
    requires Whole(image)
  {
    && (forall h :: 0 <= h < HEADERS ==> HeaderSafe(image, before, f, h))
    && SameOutside(f, before)
  }

  ghost predicate SafeTrace(image: Image, before: Flash, trace: seq<Flash>)
    requires Whole(image)
  {
    forall i :: 0 <= i < |trace| ==> Safe(image, before, trace[i])
  }

  /** One header changed to something safe keeps everything safe. */
  lemma OneHeader(image: Image, before: Flash, f: Flash, g: Flash, h: nat)
    requires Whole(image) && h < HEADERS && Safe(image, before, f)
    requires SameElsewhere(f, g, HeaderBase(h)) && HeaderSafe(image, before, g, h)
    ensures Safe(image, before, g)
  {
    forall k | 0 <= k < HEADERS && k != h ensures HeaderSafe(image, before, g, k) {
      HeadersApart(h, k);
      assert HeaderSafe(image, before, f, k);
      assert BlockOf(g, HeaderBase(k)) == BlockOf(f, HeaderBase(k));
      assert SameBlock(f, before, HeaderBase(k)) ==> SameBlock(g, before, HeaderBase(k));
    }
    OutsideKept(f, g, h);
  }

  lemma OutsideKept(f: Flash, g: Flash, h: nat)
    requires h < HEADERS && SameElsewhere(f, g, HeaderBase(h))
    ensures SameOutside(f, g)
  {
    forall a: nat | !InAnyHeader(a) ensures f(a) == g(a) {
      assert !InHeader(h, a);
    }
  }

  lemma HeadersApart(h: nat, k: nat)
    requires h < HEADERS && k < HEADERS && h != k
    ensures HeaderBase(h) + UCB_SIZE <= HeaderBase(k) || HeaderBase(k) + UCB_SIZE <= HeaderBase(h)
  {
  }

  // ------------------------------------------------- the formal check of a block

  function Le32(b: seq<Byte>, at: nat): nat
    requires at + 4 <= |b|
  {
    (b[at] as nat) + (b[at + 1] as nat) * 0x100 + (b[at + 2] as nat) * 0x1_0000 + (b[at + 3] as nat) * 0x100_0000
  }

  /** Over the first eight bytes, each word byte-swapped first. */
  function CrcHeader(b: seq<Byte>): Crc32.Word
    requires |b| == UCB_SIZE
  {
    Crc32.Checksum([b[3], b[2], b[1], b[0], b[7], b[6], b[5], b[4]])
  }

  predicate Passes(b: seq<Byte>)
    requires |b| == UCB_SIZE
  {
    && !(forall i :: 0 <= i < UCB_SIZE ==> b[i] == ERASED_BYTE)
    && b[STATE_OFFSET..STATE_OFFSET + 4] in {UNLOCKED, CONFIRMED}
    && b[2] == 0x59 && b[3] == 0xB3
    && b[0] / 2 % 8 in {3, 4, 6, 7}
    && b[4] % 4 == 0 && b[7] in {0x80, 0xA0}
    && Le32(b, 8) == CrcHeader(b) && Le32(b, 12) == Crc32.Inverted(CrcHeader(b))
  }

  /** What may be written: it passes, and does not confirm the block. */
  predicate Writable(b: seq<Byte>)
    requires |b| == UCB_SIZE
  {
    Passes(b) && !Confirms(b)
  }

  // --------------------------------------------------- what the check amounts to

  function Le16(b: seq<Byte>, at: nat): nat
    requires at + 2 <= |b|
  {
    (b[at] as nat) + (b[at + 1] as nat) * 0x100
  }

  /** A word's bytes, from its top byte down. */
  function TopDown(w: Crc32.Word): (b: seq<Byte>)
    ensures |b| == 4
  {
    [(w / 0x100_0000) as Byte, (w / 0x1_0000 % 0x100) as Byte, (w / 0x100 % 0x100) as Byte, (w % 0x100) as Byte]
  }

  const BMHD_ID: nat := 0xB359
  const CODE_UNLOCKED: nat := 0x4321_1234
  const CODE_CONFIRMED: nat := 0x57B5_327F

  /** The header's identifier, a start-up mode there is, a start address on a word of program
      flash, and the word that unlocks it. */
  predicate FieldsOk(b: seq<Byte>)
    requires |b| == UCB_SIZE
  {
    var stad := Le32(b, 4);
    && Le16(b, 2) == BMHD_ID && Le16(b, 0) / 2 % 8 in {3, 4, 6, 7}
    && stad % 4 == 0 && (0x8000_0000 <= stad < 0x8100_0000 || 0xA000_0000 <= stad < 0xA100_0000)
    && Le32(b, STATE_OFFSET) == CODE_UNLOCKED
  }

  /** The third word is the CRC-32 of the first two, each from its top byte down, and the fourth
      is its complement. */
  ghost predicate SumsOk(b: seq<Byte>)
    requires |b| == UCB_SIZE
  {
    && Le32(b, 8) < 0x1_0000_0000 && Le32(b, 0) < 0x1_0000_0000 && Le32(b, 4) < 0x1_0000_0000
    && Crc32.Fits(TopDown(Le32(b, 0)) + TopDown(Le32(b, 4)), Le32(b, 8))
    && Le32(b, 8) + Le32(b, 12) == 0xFFFF_FFFF
  }

  lemma Le32Is(b: seq<Byte>, at: nat)
    requires at + 4 <= |b|
    ensures Le32(b, at) < 0x1_0000_0000 && TopDown(Le32(b, at)) == [b[at + 3], b[at + 2], b[at + 1], b[at]]
  {
    FourBytes(b[at] as nat, b[at + 1] as nat, b[at + 2] as nat, b[at + 3] as nat);
  }

  lemma FourBytes(p: nat, q: nat, r: nat, s: nat)
    requires p < 0x100 && q < 0x100 && r < 0x100 && s < 0x100
    ensures
      var w := p + q * 0x100 + r * 0x1_0000 + s * 0x100_0000;
      && w / 0x100_0000 == s && w / 0x1_0000 % 0x100 == r && w / 0x100 % 0x100 == q && w % 0x100 == p
  {
    var w := p + q * 0x100 + r * 0x1_0000 + s * 0x100_0000;
    assert w / 0x100 == q + r * 0x100 + s * 0x1_0000;
    assert w / 0x1_0000 == r + s * 0x100;
  }

  /** The header's bytes as the checksum takes them. */
  lemma CrcHeaderIs(b: seq<Byte>, c: Crc32.Word)
    requires |b| == UCB_SIZE
    ensures Le32(b, 0) < 0x1_0000_0000 && Le32(b, 4) < 0x1_0000_0000
    ensures Crc32.Fits(TopDown(Le32(b, 0)) + TopDown(Le32(b, 4)), c) <==> c == CrcHeader(b)
  {
    Le32Is(b, 0);
    Le32Is(b, 4);
    var swapped := TopDown(Le32(b, 0)) + TopDown(Le32(b, 4));
    assert swapped == [b[3], b[2], b[1], b[0], b[7], b[6], b[5], b[4]];
    Crc32.ChecksumIs(swapped, c);
  }

  /** Exactly the headers with these fields and these sums may be written. */
  lemma WritableIff(b: seq<Byte>)
    requires |b| == UCB_SIZE
    ensures Writable(b) <==> FieldsOk(b) && SumsOk(b)
  {
    Le32Is(b, 8);
    CrcHeaderIs(b, Le32(b, 8));
    StateWordIs(b);
    FieldBytes(b);
  }

  /** A word's bytes, from its lowest up. */
  function BottomUp(w: Crc32.Word): (b: seq<Byte>)
    ensures |b| == 4
  {
    [(w % 0x100) as Byte, (w / 0x100 % 0x100) as Byte, (w / 0x1_0000 % 0x100) as Byte, (w / 0x100_0000) as Byte]
  }

  lemma BottomUpReads(w: Crc32.Word, b: seq<Byte>, at: nat)
    requires at + 4 <= |b| && b[at..at + 4] == BottomUp(w)
    ensures Le32(b, at) == w
  {
    forall i | 0 <= i < 4 ensures b[at + i] == BottomUp(w)[i] {
      assert b[at..at + 4][i] == b[at + i];
    }
    assert w / 0x100 == (w / 0x1_0000) * 0x100 + w / 0x100 % 0x100;
    assert w / 0x1_0000 == (w / 0x100_0000) * 0x100 + w / 0x1_0000 % 0x100;
  }

  /** With its sums put in. */
  function Completed(b: seq<Byte>): (r: seq<Byte>)
    requires |b| == UCB_SIZE
    ensures |r| == UCB_SIZE
  {
    b[..8] + BottomUp(CrcHeader(b)) + BottomUp(Crc32.Inverted(CrcHeader(b))) + b[16..]
  }

  lemma CompletedParts(b: seq<Byte>)
    requires |b| == UCB_SIZE
    ensures
      var r, c := Completed(b), CrcHeader(b);
      && r[8..12] == BottomUp(c) && r[12..16] == BottomUp(Crc32.Inverted(c))
      && forall i :: 0 <= i < UCB_SIZE && !(8 <= i < 16) ==> r[i] == b[i]
  {
  }

  lemma CompletedSums(b: seq<Byte>)
    requires |b| == UCB_SIZE
    ensures SumsOk(Completed(b))
  {
    var r, c := Completed(b), CrcHeader(b);
    CompletedParts(b);
    BottomUpReads(c, r, 8);
    BottomUpReads(Crc32.Inverted(c), r, 12);
    assert CrcHeader(r) == c;
    CrcHeaderIs(r, c);
  }

  /** Whatever its other bytes, a header with proper fields can be completed to one that may be
      written. */
  lemma CompletedIsWritable(b: seq<Byte>)
    requires |b| == UCB_SIZE && FieldsOk(b)
    ensures Writable(Completed(b))
  {
    CompletedParts(b);
    CompletedSums(b);
    SameFields(b, Completed(b));
    WritableIff(Completed(b));
  }

  lemma SameFields(b: seq<Byte>, r: seq<Byte>)
    requires |b| == |r| == UCB_SIZE && FieldsOk(b)
    requires forall i :: 0 <= i < UCB_SIZE && !(8 <= i < 16) ==> r[i] == b[i]
    ensures FieldsOk(r)
  {
    assert Le16(r, 0) == Le16(b, 0) && Le16(r, 2) == Le16(b, 2) && Le32(r, 4) == Le32(b, 4);
    assert Le32(r, STATE_OFFSET) == Le32(b, STATE_OFFSET);
  }

  /** For one: start-up mode 7, entry at 0x8000_0000, the rest zeros. */
  lemma GoodHeader() returns (b: seq<Byte>)
    ensures |b| == UCB_SIZE && b[..8] == [0x0E, 0x00, 0x59, 0xB3, 0x00, 0x00, 0x00, 0x80] && Writable(b)
  {
    var first: seq<Byte>, zeros: seq<Byte> :=
      [0x0E, 0x00, 0x59, 0xB3, 0x00, 0x00, 0x00, 0x80], seq(STATE_OFFSET - 8, _ => 0);
    var a := first + zeros + UNLOCKED + seq(UCB_SIZE - STATE_OFFSET - 4, _ => 0);
    assert a[STATE_OFFSET..STATE_OFFSET + 4] == UNLOCKED;
    StateWordIs(a);
    assert a[..8] == first;
    assert forall i :: 0 <= i < 8 ==> a[i] == first[i];
    CompletedIsWritable(a);
    b := Completed(a);
    assert b[..8] == a[..8];
  }

  lemma StateWordIs(b: seq<Byte>)
    requires |b| == UCB_SIZE
    ensures Le32(b, 0x1F0) == CODE_UNLOCKED <==> b[STATE_OFFSET..STATE_OFFSET + 4] == UNLOCKED
    ensures Le32(b, 0x1F0) == CODE_CONFIRMED <==> Confirms(b)
  {
    var s := b[STATE_OFFSET..STATE_OFFSET + 4];
    assert s == [b[STATE_OFFSET], b[STATE_OFFSET + 1], b[STATE_OFFSET + 2], b[STATE_OFFSET + 3]];
  }

  lemma FieldBytes(b: seq<Byte>)
    requires |b| == UCB_SIZE
    ensures Le16(b, 2) == BMHD_ID <==> b[2] == 0x59 && b[3] == 0xB3
    ensures Le16(b, 0) / 2 % 8 == b[0] as nat / 2 % 8
    ensures Le32(b, 4) % 4 == b[4] as nat % 4
    ensures b[7] in {0x80, 0xA0} <==> 0x8000_0000 <= Le32(b, 4) < 0x8100_0000 || 0xA000_0000 <= Le32(b, 4) < 0xA100_0000
  {
  }

  // ------------------------------------------------------------- the sequences

  ghost predicate Steps(old': seq<Flash>, new': seq<Flash>, f: Flash, g: Flash) {
    && old' <= new'
    && forall i :: |old'| <= i < |new'| ==> new'[i] == f || new'[i] == g
  }

  method EnterPageMode(t: Target) returns (ok: bool)
    modifies t
    ensures Steps(old(t.trace), t.trace, old(t.dmu.flash), old(t.dmu.flash))
    ensures t.dmu.flash == old(t.dmu.flash) && t.missed == old(t.missed)
    ensures t.faults >= old(t.faults) && (t.faults == old(t.faults) ==> ok)
  {
    var _ := t.Do(ClearStatus);
    ok := t.Do(EnterPage);
    if !ok { return; }
    ok := t.Access();
    if !ok { return; }
    var refused: bool := *;
    var inPageMode := t.dmu.page && !(t.dmu.refused && refused);
    var _ := t.Do(ClearStatus);
    ok := inPageMode;
  }

  /** The erase command up to its last cycle. */
  method ArmErase(t: Target, base: nat) returns (ok: bool)
    modifies t
    ensures Steps(old(t.trace), t.trace, old(t.dmu.flash), old(t.dmu.flash))
    ensures t.dmu.flash == old(t.dmu.flash) && t.missed == old(t.missed)
    ensures ok ==> t.dmu.armed == ToErase && t.dmu.address == base && t.dmu.count == 1
    ensures t.faults >= old(t.faults) && (t.faults == old(t.faults) ==> ok && !t.dmu.refused)
  {
    var _ := t.Do(ClearStatus);
    ok := t.Do(Address(base));
    if !ok { return; }
    ok := t.Do(Count(1));
    if !ok { return; }
    ok := t.Do(Setup(0x80));
  }

  lemma ErasedBlock(f: Flash, base: nat)
    ensures forall i :: 0 <= i < UCB_SIZE ==> BlockOf(Erased(f, base, 1), base)[i] == ERASED_BYTE
  {
    forall i | 0 <= i < UCB_SIZE ensures BlockOf(Erased(f, base, 1), base)[i] == ERASED_BYTE {
      assert Within(base + i, base, UCB_SIZE);
    }
  }

  method EraseBlock(t: Target, base: nat) returns (ok: bool)
    modifies t
    ensures Steps(old(t.trace), t.trace, old(t.dmu.flash), Erased(old(t.dmu.flash), base, 1))
    ensures t.dmu.flash == old(t.dmu.flash) || t.dmu.flash == Erased(old(t.dmu.flash), base, 1)
    ensures old(t.missed) ==> t.missed
    ensures ok ==> BytesErased(t.dmu.flash, base, UCB_SIZE)
    ensures t.faults >= old(t.faults)
    ensures t.faults == old(t.faults) ==> ok && t.missed == old(t.missed)
  {
    ok := ArmErase(t, base);
    if !ok { return; }
    ok := t.Do(Setup(0x50));
    if !ok { return; }
    ok := t.WaitIdle();
    if !ok { return; }
    var _ := t.Do(ClearStatus);
    var after;
    ok, after := t.ReadBlock(base);
    if !ok { return; }
    ok := forall i :: 0 <= i < UCB_SIZE ==> after[i] == ERASED_BYTE;
    if t.dmu.flash == Erased(old(t.dmu.flash), base, 1) {
      ErasedBlock(old(t.dmu.flash), base);
    }
    forall a: nat | ok && Within(a, base, UCB_SIZE) ensures t.dmu.flash(a) == ERASED_BYTE {
      assert after[a - base] == t.dmu.flash(base + (a - base));
    }
  }

  /** Page mode, and the page's two words. */
  method LoadPage(t: Target, low: Page, high: Page) returns (ok: bool)
    modifies t
    ensures Steps(old(t.trace), t.trace, old(t.dmu.flash), old(t.dmu.flash))
    ensures t.dmu.flash == old(t.dmu.flash) && t.missed == old(t.missed)
    ensures ok ==> t.dmu.page && t.dmu.low == low && t.dmu.high == high
    ensures t.faults >= old(t.faults) && (t.faults == old(t.faults) ==> ok && !t.dmu.refused)
  {
    ok := t.Do(ClearStatus);
    if !ok { return; }
    ok := t.Do(EnterPage);
    if !ok { return; }
    ok := t.Do(LoadLow(low));
    if !ok { return; }
    ok := t.Do(LoadHigh(high));
  }

  /** The program command up to its last cycle. */
  method ArmProgram(t: Target, address: nat, low: Page, high: Page) returns (ok: bool)
    modifies t
    ensures Steps(old(t.trace), t.trace, old(t.dmu.flash), old(t.dmu.flash))
    ensures t.dmu.flash == old(t.dmu.flash) && t.missed == old(t.missed)
    ensures ok ==> t.dmu.armed == ToProgram && t.dmu.page && t.dmu.address == address
                   && t.dmu.low == low && t.dmu.high == high
    ensures t.faults >= old(t.faults) && (t.faults == old(t.faults) ==> ok && !t.dmu.refused)
  {
    ok := LoadPage(t, low, high);
    if !ok { return; }
    ok := t.Do(Address(address));
    if !ok { return; }
    ok := t.Do(Count(0));
    if !ok { return; }
    ok := t.Do(Setup(0xA0));
  }

  method ProgramPage(t: Target, address: nat, low: Page, high: Page) returns (ok: bool)
    modifies t
    ensures Steps(old(t.trace), t.trace, old(t.dmu.flash), PageWritten(old(t.dmu.flash), address, low, high))
    ensures t.dmu.flash == old(t.dmu.flash) || t.dmu.flash == PageWritten(old(t.dmu.flash), address, low, high)
    ensures old(t.missed) ==> t.missed
    ensures ok && !t.missed ==> t.dmu.flash == PageWritten(old(t.dmu.flash), address, low, high)
    ensures t.faults >= old(t.faults)
    ensures t.faults == old(t.faults) ==>
              ok && t.missed == old(t.missed) && t.dmu.flash == PageWritten(old(t.dmu.flash), address, low, high)
  {
    ok := ArmProgram(t, address, low, high);
    if !ok { return; }
    ok := t.Do(Setup(0xAA));
    if !ok { return; }
    ok := t.WaitIdle();
    if !ok { return; }
    ok := t.Do(ClearStatus);
  }

  // ------------------------------------------------------------ writing a block

  /** The pages before `offset`, but for the one with the confirmation word, hold the
      image's bytes, and the confirmation word is erased. */
  ghost predicate WrittenTo(f: Flash, base: nat, blob: seq<Byte>, offset: nat)
    requires |blob| == UCB_SIZE
  {
    && ConfirmErased(f, base)
    && forall a: nat :: Within(a, base, UCB_SIZE) && a < base + offset && !Within(a, base + STATE_OFFSET, PAGE)
                        ==> f(a) == blob[a - base]
  }

  lemma PageAdds(f: Flash, base: nat, blob: seq<Byte>, offset: nat)
    requires |blob| == UCB_SIZE && offset % PAGE == 0 && offset < UCB_SIZE && offset != STATE_OFFSET
    requires WrittenTo(f, base, blob, offset)
    ensures
      var g := PageWritten(f, base + offset, blob[offset..offset + 4], blob[offset + 4..offset + 8]);
      WrittenTo(g, base, blob, offset + PAGE) && SameElsewhere(f, g, base)
  {
    var low: Page, high: Page := blob[offset..offset + 4], blob[offset + 4..offset + 8];
    var g := PageWritten(f, base + offset, low, high);
    assert offset + PAGE <= UCB_SIZE && (offset + PAGE <= STATE_OFFSET || STATE_OFFSET + PAGE <= offset);
    forall a: nat | Within(a, base + offset, PAGE) ensures g(a) == blob[a - base] {
      WrittenAt(f, base + offset, low, high, a - (base + offset));
      assert base + offset + (a - (base + offset)) == a;
      assert (low + high)[a - (base + offset)] == blob[a - base];
    }
  }

  /** The page with the confirmation word, programmed. */
  function StateWritten(f: Flash, base: nat, blob: seq<Byte>): Flash
    requires |blob| == UCB_SIZE
  {
    PageWritten(f, base + STATE_OFFSET, blob[STATE_OFFSET..STATE_OFFSET + 4],
                blob[STATE_OFFSET + 4..STATE_OFFSET + 8])
  }

  lemma StatePageByte(f: Flash, base: nat, blob: seq<Byte>, i: nat)
    requires |blob| == UCB_SIZE && i < UCB_SIZE
    ensures StateWritten(f, base, blob)(base + i)
            == if Within(i, STATE_OFFSET, PAGE) then blob[i] else f(base + i)
  {
    var low: Page, high: Page := blob[STATE_OFFSET..STATE_OFFSET + 4], blob[STATE_OFFSET + 4..STATE_OFFSET + 8];
    if Within(i, STATE_OFFSET, PAGE) {
      assert (low + high)[i - STATE_OFFSET] == blob[i];
      WrittenAt(f, base + STATE_OFFSET, low, high, i - STATE_OFFSET);
      assert base + STATE_OFFSET + (i - STATE_OFFSET) == base + i;
    }
  }

  /** The confirmation word's page makes the block the image's just when every other page
      of it already is: why it goes in last. */
  lemma StatePageCompletes(f: Flash, base: nat, blob: seq<Byte>)
    requires |blob| == UCB_SIZE
    ensures BlockOf(StateWritten(f, base, blob), base) == blob <==>
              forall i :: 0 <= i < UCB_SIZE && !Within(i, STATE_OFFSET, PAGE) ==> BlockOf(f, base)[i] == blob[i]
    ensures SameElsewhere(f, StateWritten(f, base, blob), base)
  {
    var b, c := BlockOf(f, base), BlockOf(StateWritten(f, base, blob), base);
    forall i | 0 <= i < UCB_SIZE ensures c[i] == if Within(i, STATE_OFFSET, PAGE) then blob[i] else b[i] {
      StatePageByte(f, base, blob, i);
    }
  }

  lemma ImageIsSafe(image: Image, before: Flash, g: Flash, h: nat)
    requires Whole(image) && h < HEADERS && Writable(Blob(image, h)) && BlockOf(g, HeaderBase(h)) == Blob(image, h)
    ensures HeaderSafe(image, before, g, h)
  {
  }

  lemma ErasedIsSafe(image: Image, before: Flash, f: Flash, h: nat)
    requires Whole(image) && h < HEADERS && ConfirmErased(f, HeaderBase(h))
    ensures HeaderSafe(image, before, f, h)
  {
    var b := BlockOf(f, HeaderBase(h));
    assert b[STATE_OFFSET] == f(HeaderBase(h) + STATE_OFFSET) == ERASED_BYTE;
    assert b[STATE_OFFSET..STATE_OFFSET + 4][0] == b[STATE_OFFSET];
  }

  /** So one page refused unseen is enough to lose safety: once the confirmation word is in,
      a block that is not its old self is safe just when every other page arrived. */
  lemma SafeIffEveryPageArrived(image: Image, before: Flash, f: Flash, h: nat)
    requires Whole(image) && h < HEADERS && Writable(Blob(image, h))
    requires !SameBlock(StateWritten(f, HeaderBase(h), Blob(image, h)), before, HeaderBase(h))
    ensures HeaderSafe(image, before, StateWritten(f, HeaderBase(h), Blob(image, h)), h) <==>
              forall i :: 0 <= i < UCB_SIZE && !Within(i, STATE_OFFSET, PAGE) ==>
                            BlockOf(f, HeaderBase(h))[i] == Blob(image, h)[i]
  {
    var base, blob := HeaderBase(h), Blob(image, h);
    var g := StateWritten(f, base, blob);
    StatePageCompletes(f, base, blob);
    StatePageByte(f, base, blob, STATE_OFFSET);
    assert blob[STATE_OFFSET] == blob[STATE_OFFSET..STATE_OFFSET + 4][0] == UNLOCKED[0];
    assert Within(base + STATE_OFFSET, base + STATE_OFFSET, 4) && g(base + STATE_OFFSET) != ERASED_BYTE;
    if BlockOf(g, base) == blob {
      ImageIsSafe(image, before, g, h);
    }
  }

  lemma StepsSafe(image: Image, before: Flash, old': seq<Flash>, new': seq<Flash>, f: Flash, g: Flash)
    requires Whole(image) && SafeTrace(image, before, old') && Steps(old', new', f, g)
    requires Safe(image, before, f) && Safe(image, before, g)
    ensures SafeTrace(image, before, new')
  {
    forall i | 0 <= i < |new'| ensures Safe(image, before, new'[i]) {
      if i < |old'| {
        assert new'[i] == old'[i];
      }
    }
  }

  /** Unless a refusal went unread, every state of the run so far is safe. */
  ghost predicate Watched(t: Target, image: Image, before: Flash)
    requires Whole(image)
    reads t
  {
    !t.missed ==> SafeTrace(image, before, t.trace) && Safe(image, before, t.dmu.flash)
  }

  method WritePages(t: Target, image: Image, h: nat, ghost before: Flash) returns (ok: bool)
    requires Whole(image) && h < HEADERS && Watched(t, image, before)
    requires ConfirmErased(t.dmu.flash, HeaderBase(h))
    modifies t
    ensures Watched(t, image, before) && SameElsewhere(old(t.dmu.flash), t.dmu.flash, HeaderBase(h))
    ensures (old(t.missed) ==> t.missed) && old(t.trace) <= t.trace
    ensures ok && (!t.missed || t.faults == old(t.faults)) ==>
              WrittenTo(t.dmu.flash, HeaderBase(h), Blob(image, h), UCB_SIZE)
    ensures t.faults >= old(t.faults)
    ensures t.faults == old(t.faults) ==> ok && t.missed == old(t.missed)
  {
    var base, blob := HeaderBase(h), Blob(image, h);
    var offset := 0;
    while offset < UCB_SIZE
      invariant offset <= UCB_SIZE && offset % PAGE == 0 && Watched(t, image, before)
      invariant SameElsewhere(old(t.dmu.flash), t.dmu.flash, base) && (old(t.missed) ==> t.missed)
      invariant old(t.trace) <= t.trace
      invariant !t.missed || t.faults == old(t.faults) ==> WrittenTo(t.dmu.flash, base, blob, offset)
      invariant t.faults >= old(t.faults) && (t.faults == old(t.faults) ==> t.missed == old(t.missed))
    {
      if offset != STATE_OFFSET {
        ok := WritePage(t, image, h, offset, before, !t.missed || t.faults == old(t.faults));
        if !ok { return; }
      }
      offset := offset + PAGE;
    }
    ok := true;
  }

  /** `sure`: the pages before are known to be there. */
  method WritePage(t: Target, image: Image, h: nat, offset: nat, ghost before: Flash, ghost sure: bool)
    returns (ok: bool)
    requires Whole(image) && h < HEADERS && Watched(t, image, before)
    requires offset < UCB_SIZE && offset % PAGE == 0 && offset != STATE_OFFSET
    requires (!t.missed ==> sure) && (sure ==> WrittenTo(t.dmu.flash, HeaderBase(h), Blob(image, h), offset))
    modifies t
    ensures Watched(t, image, before) && SameElsewhere(old(t.dmu.flash), t.dmu.flash, HeaderBase(h))
    ensures (old(t.missed) ==> t.missed) && old(t.trace) <= t.trace
    ensures ok && (!t.missed || (sure && t.faults == old(t.faults))) ==>
              WrittenTo(t.dmu.flash, HeaderBase(h), Blob(image, h), offset + PAGE)
    ensures t.faults >= old(t.faults)
    ensures t.faults == old(t.faults) ==> ok && t.missed == old(t.missed)
  {
    var base, blob := HeaderBase(h), Blob(image, h);
    ghost var f := t.dmu.flash;
    ghost var g := PageWritten(f, base + offset, blob[offset..offset + 4], blob[offset + 4..offset + 8]);
    if sure {
      PageAdds(f, base, blob, offset);
    }
    if !t.missed {
      ErasedIsSafe(image, before, g, h);
      OneHeader(image, before, f, g, h);
    }
    ok := ProgramPage(t, base + offset, blob[offset..offset + 4], blob[offset + 4..offset + 8]);
    if !t.missed {
      StepsSafe(image, before, old(t.trace), t.trace, f, g);
    }
  }

  method ProgramState(t: Target, base: nat, blob: seq<Byte>) returns (ok: bool)
    requires |blob| == UCB_SIZE
    modifies t
    ensures Steps(old(t.trace), t.trace, old(t.dmu.flash), StateWritten(old(t.dmu.flash), base, blob))
    ensures t.dmu.flash == old(t.dmu.flash) || t.dmu.flash == StateWritten(old(t.dmu.flash), base, blob)
    ensures ok && !t.missed ==> t.dmu.flash == StateWritten(old(t.dmu.flash), base, blob)
    ensures old(t.missed) ==> t.missed
    ensures t.faults >= old(t.faults)
    ensures t.faults == old(t.faults) ==>
              ok && t.missed == old(t.missed) && t.dmu.flash == StateWritten(old(t.dmu.flash), base, blob)
  {
    ok := ProgramPage(t, base + STATE_OFFSET, blob[STATE_OFFSET..STATE_OFFSET + 4],
                      blob[STATE_OFFSET + 4..STATE_OFFSET + 8]);
  }

  method WriteStatePage(t: Target, image: Image, h: nat, ghost before: Flash, ghost sure: bool) returns (ok: bool)
    requires Whole(image) && h < HEADERS && Writable(Blob(image, h)) && Watched(t, image, before)
    requires (!t.missed ==> sure) && (sure ==> WrittenTo(t.dmu.flash, HeaderBase(h), Blob(image, h), UCB_SIZE))
    modifies t
    ensures Watched(t, image, before) && SameElsewhere(old(t.dmu.flash), t.dmu.flash, HeaderBase(h))
    ensures (old(t.missed) ==> t.missed) && old(t.trace) <= t.trace
    ensures ok && (!t.missed || (sure && t.faults == old(t.faults))) ==>
              BlockOf(t.dmu.flash, HeaderBase(h)) == Blob(image, h)
    ensures t.faults >= old(t.faults)
    ensures t.faults == old(t.faults) ==> ok && t.missed == old(t.missed)
  {
    var base, blob := HeaderBase(h), Blob(image, h);
    StatePageCompletes(t.dmu.flash, base, blob);
    ok := ProgramState(t, base, blob);
    if sure {
      OthersWritten(old(t.dmu.flash), base, blob);
    }
    if !t.missed {
      StatePageSafe(image, before, old(t.dmu.flash), h);
      StepsSafe(image, before, old(t.trace), t.trace, old(t.dmu.flash), StateWritten(old(t.dmu.flash), base, blob));
    }
  }

  lemma StatePageSafe(image: Image, before: Flash, f: Flash, h: nat)
    requires Whole(image) && h < HEADERS && Writable(Blob(image, h)) && Safe(image, before, f)
    requires WrittenTo(f, HeaderBase(h), Blob(image, h), UCB_SIZE)
    ensures Safe(image, before, StateWritten(f, HeaderBase(h), Blob(image, h)))
  {
    var base, blob := HeaderBase(h), Blob(image, h);
    var g := StateWritten(f, base, blob);
    StatePageCompletes(f, base, blob);
    OthersWritten(f, base, blob);
    ImageIsSafe(image, before, g, h);
    OneHeader(image, before, f, g, h);
  }

  lemma OthersWritten(f: Flash, base: nat, blob: seq<Byte>)
    requires |blob| == UCB_SIZE && WrittenTo(f, base, blob, UCB_SIZE)
    ensures forall i :: 0 <= i < UCB_SIZE && !Within(i, STATE_OFFSET, PAGE) ==> BlockOf(f, base)[i] == blob[i]
  {
    forall i | 0 <= i < UCB_SIZE && !Within(i, STATE_OFFSET, PAGE) ensures BlockOf(f, base)[i] == blob[i] {
      assert BlockOf(f, base)[i] == f(base + i);
    }
  }

  /** Erase, the pages, the confirmation word's page last, read back. */
  method WriteBlock(t: Target, image: Image, h: nat, ghost before: Flash) returns (ok: bool)
    requires Whole(image) && h < HEADERS && Writable(Blob(image, h)) && Watched(t, image, before)
    modifies t
    ensures Watched(t, image, before) && SameElsewhere(old(t.dmu.flash), t.dmu.flash, HeaderBase(h))
    ensures (old(t.missed) ==> t.missed) && old(t.trace) <= t.trace
    ensures ok ==> BlockOf(t.dmu.flash, HeaderBase(h)) == Blob(image, h)
    ensures t.faults >= old(t.faults)
    ensures t.faults == old(t.faults) ==> ok && t.missed == old(t.missed)
  {
    var base, blob := HeaderBase(h), Blob(image, h);
    var halted := t.Access();
    if !halted {
      return false;
    }
    ok := EnterPageMode(t);
    if !t.missed {
      StepsSafe(image, before, old(t.trace), t.trace, t.dmu.flash, t.dmu.flash);
    }
    if !ok {
      return;
    }
    ok := EraseHeader(t, image, h, before);
    if !ok { return; }
    ok := WritePages(t, image, h, before);
    if !ok { return; }
    ok := WriteStatePage(t, image, h, before, !t.missed || t.faults == old(t.faults));
    if !ok { return; }
    var after;
    ok, after := t.ReadBlock(base);
    ok := ok && after == blob && Passes(after);
  }

  method EraseHeader(t: Target, image: Image, h: nat, ghost before: Flash) returns (ok: bool)
    requires Whole(image) && h < HEADERS && Watched(t, image, before)
    modifies t
    ensures Watched(t, image, before) && SameElsewhere(old(t.dmu.flash), t.dmu.flash, HeaderBase(h))
    ensures (old(t.missed) ==> t.missed) && old(t.trace) <= t.trace
    ensures ok ==> ConfirmErased(t.dmu.flash, HeaderBase(h))
    ensures t.faults >= old(t.faults)
    ensures t.faults == old(t.faults) ==> ok && t.missed == old(t.missed)
  {
    var base := HeaderBase(h);
    ghost var f, g := t.dmu.flash, Erased(t.dmu.flash, base, 1);
    if !t.missed {
      ErasedIsSafe(image, before, g, h);
      OneHeader(image, before, f, g, h);
    }
    ok := EraseBlock(t, base);
    if !t.missed {
      StepsSafe(image, before, old(t.trace), t.trace, f, g);
    }
  }

  // ------------------------------------------------------------------ the plan

  datatype State = Unread | Unlocked | Confirmed' | Errored | Unreadable

  datatype Decision = Write | Skip | Refuse

  predicate Present(image: Image, h: nat)
    requires h < HEADERS
  {
    SlotOf(HeaderBase(h)) in image.present
  }

  /** The image's slots that are headers, and where they go. */
  lemma HeaderSlots(image: Image)
    ensures forall h :: 0 <= h < HEADERS ==> (Present(image, h) <==> (if h < 4 then h else h + 4) in image.present)
    ensures forall h :: 0 <= h < HEADERS ==>
              HeaderBase(h) == if h < 4 then 0xAF40_0000 + 0x200 * h else 0xAF40_1000 + 0x200 * (h - 4)
  {
  }

  /** A header's fate, from the image, the state the device reports and what it holds. */
  method PlanBlock(t: Target, image: Image, h: nat, state: State) returns (d: Decision)
    requires Whole(image) && h < HEADERS
    modifies t`faults
    ensures t.faults >= old(t.faults) && Decided(t.dmu.flash, image, h, state, d, t.faults > old(t.faults))
  {
    var blob := Blob(image, h);
    if !Passes(blob) || Confirms(blob) {
      return Refuse;
    }
    if state != Unread && state != Unlocked {
      return Refuse;
    }
    var ok, onTarget := t.ReadBlock(HeaderBase(h));
    if !ok {
      return Refuse;
    }
    d := if onTarget == blob then Skip else Write;
  }

  /** Refused exactly if it may not be written or could not be read; else skipped exactly if
      it is there already. */
  ghost predicate Decided(f: Flash, image: Image, h: nat, state: State, d: Decision, fault: bool)
    requires Whole(image) && h < HEADERS
  {
    && (!Writable(Blob(image, h)) || state !in {Unread, Unlocked} ==> d == Refuse)
    && (d == Refuse && !fault ==> !Writable(Blob(image, h)) || state !in {Unread, Unlocked})
    && (d != Refuse ==> (d == Skip <==> BlockOf(f, HeaderBase(h)) == Blob(image, h)))
  }

  type States = s: seq<State> | |s| == HEADERS witness seq(HEADERS, _ => Unread)

  method Plan(t: Target, image: Image, states: States) returns (plan: seq<Decision>)
    requires Whole(image)
    modifies t`faults
    ensures |plan| == HEADERS && t.faults >= old(t.faults)
    ensures forall h :: 0 <= h < HEADERS ==>
              Planned(t.dmu.flash, image, h, states[h], plan[h], t.faults > old(t.faults))
  {
    plan := [];
    for h := 0 to HEADERS
      invariant |plan| == h && t.faults >= old(t.faults)
      invariant forall k :: 0 <= k < h ==>
                  Planned(t.dmu.flash, image, k, states[k], plan[k], t.faults > old(t.faults))
    {
      var d := Skip;
      if Present(image, h) {
        d := PlanBlock(t, image, h, states[h]);
      }
      plan := plan + [d];
    }
  }

  ghost predicate Planned(f: Flash, image: Image, h: nat, state: State, d: Decision, fault: bool)
    requires Whole(image) && h < HEADERS
  {
    if Present(image, h) then Decided(f, image, h, state, d, fault) else d == Skip
  }

  // --------------------------------------------------------------- the whole run

  /** The headers before h that the image carries hold it. */
  ghost predicate HeldTo(image: Image, f: Flash, h: nat)
    requires Whole(image) && h <= HEADERS
  {
    forall k :: 0 <= k < h && Present(image, k) ==> BlockOf(f, HeaderBase(k)) == Blob(image, k)
  }

  ghost predicate UntouchedFrom(before: Flash, f: Flash, h: nat) {
    forall k :: h <= k < HEADERS ==> BlockOf(f, HeaderBase(k)) == BlockOf(before, HeaderBase(k))
  }

  method CarryOut(t: Target, image: Image, h: nat, state: State, d: Decision, ghost fault: bool, ghost before: Flash)
    returns (done: bool)
    requires Whole(image) && h < HEADERS && Watched(t, image, before)
    requires Planned(before, image, h, state, d, fault)
    requires UntouchedFrom(before, t.dmu.flash, h) && SameOutside(before, t.dmu.flash)
    modifies t
    ensures Watched(t, image, before) && old(t.trace) <= t.trace && (old(t.missed) ==> t.missed)
    ensures UntouchedFrom(before, t.dmu.flash, h + 1) && SameOutside(before, t.dmu.flash)
    ensures done ==> d != Refuse
    ensures SameElsewhere(old(t.dmu.flash), t.dmu.flash, HeaderBase(h))
    ensures d != Write ==> t.dmu.flash == old(t.dmu.flash)
    ensures d == Write && done ==> BlockOf(t.dmu.flash, HeaderBase(h)) == Blob(image, h)
    ensures done && HeldTo(image, old(t.dmu.flash), h) ==> HeldTo(image, t.dmu.flash, h + 1)
    ensures t.faults >= old(t.faults)
    ensures t.faults == old(t.faults) ==> t.missed == old(t.missed) && (done <==> d != Refuse)
  {
    ghost var f := t.dmu.flash;
    if d == Write {
      done := WriteBlock(t, image, h, before);
    } else {
      done := d == Skip;
    }
    OneFurther(image, before, f, t.dmu.flash, h);
  }

  lemma OneFurther(image: Image, before: Flash, f: Flash, g: Flash, h: nat)
    requires Whole(image) && h < HEADERS && SameElsewhere(f, g, HeaderBase(h))
    requires UntouchedFrom(before, f, h) && SameOutside(before, f)
    ensures UntouchedFrom(before, g, h + 1) && SameOutside(before, g)
    ensures (Present(image, h) ==> BlockOf(g, HeaderBase(h)) == Blob(image, h)) && HeldTo(image, f, h)
            ==> HeldTo(image, g, h + 1)
  {
    OthersKept(f, g, h);
    OutsideKept(f, g, h);
  }

  /** A header the image carries passes the formal check, confirms nothing, and the device
      lets it be written. */
  predicate Allowed(image: Image, states: States, h: nat)
    requires Whole(image) && h < HEADERS
  {
    Present(image, h) ==> Writable(Blob(image, h)) && states[h] in {Unread, Unlocked}
  }

  /** Cut off after any cycle, every header is its old self, or unconfirmed, or the image's;
      nothing else is touched; no header is ever confirmed - unless a refusal went unread.
      Success means every header the image carries was allowed and is there; with no fault
      of the device, being allowed is enough. */
  method ProgramHeaders(t: Target, image: Image, states: States) returns (ok: bool, ghost marks: seq<nat>)
    requires Whole(image) && t.trace == [t.dmu.flash] && !t.missed
    modifies t
    ensures old(t.trace) <= t.trace
    ensures !t.missed ==> SafeTrace(image, old(t.dmu.flash), t.trace)
    ensures SameOutside(old(t.dmu.flash), t.dmu.flash)
    ensures ok ==> HeldTo(image, t.dmu.flash, HEADERS) && forall h :: 0 <= h < HEADERS ==> Allowed(image, states, h)
    ensures t.faults >= old(t.faults)
    ensures t.faults == old(t.faults) ==>
              !t.missed && (ok <==> forall h :: 0 <= h < HEADERS ==> Allowed(image, states, h))
    ensures AllEnd(image, states, old(t.dmu.flash), t.dmu.flash, marks, old(t.faults))
  {
    ghost var before := t.dmu.flash;
    assert Safe(image, before, before);
    var plan := Plan(t, image, states);
    ghost var fault := t.faults > old(t.faults);
    ok, marks := CarryOutAll(t, image, states, plan, fault, before);
    RefusedIffNotAllowed(image, states, before, plan, fault);
    AllEndAsPlanned(image, states, before, t.dmu.flash, plan, fault, marks, old(t.faults));
    if Write in plan {
      ClearAtEnd(t, image, before);
    }
  }

  /** A header ends as the image's if the image carries one that is allowed and nothing failed
      while the headers were looked at or this one was written, whatever became of the others; one
      not carried or not allowed stays as it was. */
  ghost predicate HeaderEnds(image: Image, states: States, before: Flash, f: Flash, h: nat, clean: bool)
    requires Whole(image) && h < HEADERS
  {
    if Present(image, h) && Allowed(image, states, h) then clean ==> BlockOf(f, HeaderBase(h)) == Blob(image, h)
    else BlockOf(f, HeaderBase(h)) == BlockOf(before, HeaderBase(h))
  }

  /** Every header does; `marks` are the fault counts before the first is written and after each. */
  ghost predicate AllEnd(image: Image, states: States, before: Flash, f: Flash, marks: seq<nat>, start: nat)
    requires Whole(image)
  {
    && |marks| == HEADERS + 1
    && forall h :: 0 <= h < HEADERS ==>
         HeaderEnds(image, states, before, f, h, marks[0] == start && marks[h + 1] == marks[h])
  }

  lemma AllEndAsPlanned(image: Image, states: States, before: Flash, f: Flash, plan: seq<Decision>, fault: bool,
                        marks: seq<nat>, start: nat)
    requires Whole(image) && |plan| == HEADERS && |marks| == HEADERS + 1 && (fault <==> marks[0] != start)
    requires forall h :: 0 <= h < HEADERS ==> Planned(before, image, h, states[h], plan[h], fault)
    requires AllCame(image, before, f, plan, marks, HEADERS)
    ensures AllEnd(image, states, before, f, marks, start)
  {
    forall h | 0 <= h < HEADERS
      ensures HeaderEnds(image, states, before, f, h, marks[0] == start && marks[h + 1] == marks[h])
    {
      assert Planned(before, image, h, states[h], plan[h], fault);
      assert CameTo(image, before, f, h, plan[h], marks[h + 1] == marks[h]);
    }
  }

  method ClearAtEnd(t: Target, image: Image, ghost before: Flash)
    requires Whole(image) && Watched(t, image, before)
    modifies t
    ensures Watched(t, image, before) && old(t.trace) <= t.trace && t.dmu.flash == old(t.dmu.flash)
    ensures t.missed == old(t.missed) && t.faults >= old(t.faults)
  {
    var _ := t.Do(ClearStatus);
    if !t.missed {
      StepsSafe(image, before, old(t.trace), t.trace, t.dmu.flash, t.dmu.flash);
    }
  }

  /** A header that fails does not keep the others from being written. */
  method CarryOutAll(t: Target, image: Image, states: States, plan: seq<Decision>, ghost fault: bool,
                     ghost before: Flash)
    returns (ok: bool, ghost marks: seq<nat>)
    requires Whole(image) && |plan| == HEADERS && Watched(t, image, before) && before == t.dmu.flash
    requires forall h :: 0 <= h < HEADERS ==> Planned(before, image, h, states[h], plan[h], fault)
    modifies t
    ensures Watched(t, image, before) && old(t.trace) <= t.trace && SameOutside(before, t.dmu.flash)
    ensures ok ==> HeldTo(image, t.dmu.flash, HEADERS) && NoneRefused(plan, HEADERS)
    ensures t.faults >= old(t.faults)
    ensures t.faults == old(t.faults) && !old(t.missed) ==> !t.missed && (ok <==> NoneRefused(plan, HEADERS))
    ensures |marks| == HEADERS + 1 && marks[0] == old(t.faults) && marks[HEADERS] == t.faults
    ensures AllCame(image, before, t.dmu.flash, plan, marks, HEADERS)
  {
    ok, marks := true, [t.faults];
    for h := 0 to HEADERS
      invariant |marks| == h + 1 && marks[0] == old(t.faults) && marks[h] == t.faults
      invariant AllCame(image, before, t.dmu.flash, plan, marks, h)
      invariant Watched(t, image, before) && old(t.trace) <= t.trace
      invariant ok ==> HeldTo(image, t.dmu.flash, h) && NoneRefused(plan, h)
      invariant UntouchedFrom(before, t.dmu.flash, h) && SameOutside(before, t.dmu.flash)
      invariant t.faults >= old(t.faults)
      invariant t.faults == old(t.faults) && !old(t.missed) ==> !t.missed && (ok <==> NoneRefused(plan, h))
    {
      ghost var was := t.dmu.flash;
      var done := CarryOut(t, image, h, states[h], plan[h], fault, before);
      ok := ok && done;
      NoneRefusedNext(plan, h);
      HeaderCame(image, before, was, t.dmu.flash, h, states[h], plan[h], fault, t.faults == marks[h]);
      OneMoreCame(image, before, was, t.dmu.flash, plan, marks, h, t.faults);
      marks := marks + [t.faults];
    }
  }

  /** What became of a header: the image's if it was not refused and nothing failed while it was
      written; what it was if it was refused or the image carries none. */
  ghost predicate CameTo(image: Image, before: Flash, f: Flash, h: nat, d: Decision, clean: bool)
    requires Whole(image) && h < HEADERS
  {
    && (Present(image, h) && d != Refuse && clean ==> BlockOf(f, HeaderBase(h)) == Blob(image, h))
    && (!Present(image, h) || d == Refuse ==> BlockOf(f, HeaderBase(h)) == BlockOf(before, HeaderBase(h)))
  }

  lemma HeaderCame(image: Image, before: Flash, f: Flash, g: Flash, h: nat, state: State, d: Decision,
                   fault: bool, clean: bool)
    requires Whole(image) && h < HEADERS && Planned(before, image, h, state, d, fault) && UntouchedFrom(before, f, h)
    requires d != Write ==> g == f
    requires d == Write && clean ==> BlockOf(g, HeaderBase(h)) == Blob(image, h)
    ensures CameTo(image, before, g, h, d, clean)
  {
    assert BlockOf(f, HeaderBase(h)) == BlockOf(before, HeaderBase(h));
  }

  lemma StillCame(image: Image, before: Flash, f: Flash, g: Flash, h: nat, k: nat, d: Decision, clean: bool)
    requires Whole(image) && h < HEADERS && k < HEADERS && h != k && SameElsewhere(f, g, HeaderBase(h))
    requires CameTo(image, before, f, k, d, clean)
    ensures CameTo(image, before, g, k, d, clean)
  {
    HeadersApart(h, k);
    assert BlockOf(g, HeaderBase(k)) == BlockOf(f, HeaderBase(k));
  }

  ghost predicate AllCame(image: Image, before: Flash, f: Flash, plan: seq<Decision>, marks: seq<nat>, n: nat)
    requires Whole(image) && n <= HEADERS == |plan| && n < |marks|
  {
    forall h :: 0 <= h < n ==> CameTo(image, before, f, h, plan[h], marks[h + 1] == marks[h])
  }

  lemma OneMoreCame(image: Image, before: Flash, f: Flash, g: Flash, plan: seq<Decision>, marks: seq<nat>, h: nat,
                    mark: nat)
    requires Whole(image) && h < HEADERS == |plan| && |marks| == h + 1 && SameElsewhere(f, g, HeaderBase(h))
    requires AllCame(image, before, f, plan, marks, h) && CameTo(image, before, g, h, plan[h], mark == marks[h])
    ensures AllCame(image, before, g, plan, marks + [mark], h + 1)
  {
    forall k | 0 <= k < h ensures CameTo(image, before, g, k, plan[k], marks[k + 1] == marks[k]) {
      assert CameTo(image, before, f, k, plan[k], marks[k + 1] == marks[k]);
      StillCame(image, before, f, g, h, k, plan[k], marks[k + 1] == marks[k]);
    }
  }

  predicate NoneRefused(plan: seq<Decision>, n: nat) {
    forall h :: 0 <= h < n && h < |plan| ==> plan[h] != Refuse
  }

  lemma NoneRefusedNext(plan: seq<Decision>, n: nat)
    requires n < |plan|
    ensures NoneRefused(plan, n + 1) <==> NoneRefused(plan, n) && plan[n] != Refuse
  {
  }

  lemma RefusedIffNotAllowed(image: Image, states: States, f: Flash, plan: seq<Decision>, fault: bool)
    requires Whole(image) && |plan| == HEADERS
    requires forall h :: 0 <= h < HEADERS ==> Planned(f, image, h, states[h], plan[h], fault)
    ensures NoneRefused(plan, HEADERS) ==> forall h :: 0 <= h < HEADERS ==> Allowed(image, states, h)
    ensures !fault && (forall h :: 0 <= h < HEADERS ==> Allowed(image, states, h)) ==> NoneRefused(plan, HEADERS)
  {
    forall h | 0 <= h < HEADERS
      ensures plan[h] != Refuse ==> Allowed(image, states, h)
      ensures !fault && Allowed(image, states, h) ==> plan[h] != Refuse
    {
      assert Planned(f, image, h, states[h], plan[h], fault);
    }
  }

  lemma OthersKept(f: Flash, g: Flash, h: nat)
    requires h < HEADERS && SameElsewhere(f, g, HeaderBase(h))
    ensures forall k :: 0 <= k < HEADERS && k != h ==> BlockOf(g, HeaderBase(k)) == BlockOf(f, HeaderBase(k))
  {
    forall k | 0 <= k < HEADERS && k != h ensures BlockOf(g, HeaderBase(k)) == BlockOf(f, HeaderBase(k)) {
      HeadersApart(h, k);
    }
  }
}
