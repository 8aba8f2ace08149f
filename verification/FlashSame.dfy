/** What a differential write and a full one have in common, and what a second write does. */
module FlashSame {
  import opened Common
  import opened FlashMap
  import opened FlashDevice
  import opened FlashErase
  import opened FlashImage
  import opened FlashKept
  import opened FlashCollect
  import opened FlashApply

  /** A finished erase-and-program phase: the image, the sectors it was laid out over, which
      of them were rewritten, and the flash before and after. */
  datatype Write = Write(g: Geometry, regions: seq<Region>, sectors: seq<nat>, keep: seq<bool>,
                         before: nat -> Cell, after: nat -> Cell)

  ghost predicate IsWrite(w: Write) {
    && GoodImage(w.regions) && Ready(w.g, w.regions, w.sectors) && |w.keep| == |w.sectors|
    && Holds(w.g, w.regions, |w.regions|, w.sectors, w.keep, w.before, w.after)
  }

  type GoodWrite = w: Write | IsWrite(w)
    ghost witness Write(Geometry(Split8, false), [], [], [], (a: nat) => Blank, (a: nat) => Blank)

  /** Skipped sectors held what the comparison expects of them. */
  ghost predicate SkipsMatch(w: GoodWrite) {
    forall k, n :: 0 <= k < |w.keep| && !w.keep[k] && 0 <= n < |w.regions| ==>
                     Matches(w.before, w.g, w.regions[n], w.sectors[k])
  }

  function At(w: Write, n: nat, i: nat): nat
    requires n < |w.regions|
  {
    Cmd(w.g, w.regions[n].address) + i
  }

  // ----------------------------------------------------------- byte by byte

  /** Where one region goes, no later one does. */
  lemma OtherMisses(g: Geometry, regions: seq<Region>, sectors: seq<nat>, keep: seq<bool>, n: nat, m: nat, a: nat)
    requires n < m < |regions| && GoodImage(regions) && InSpan(regions[n], Cmd(g, regions[n].address), a)
    requires forall r :: r in regions ==> AllPermitted(g, r.address, End(r))
    ensures !Hit(regions[m], Cmd(g, regions[m].address), sectors, keep, |sectors|, a)
  {
    assert regions[n] in regions && regions[m] in regions && Apart(regions[n], regions[m]);
    NoCollision(g, regions[n], regions[m], a);
  }

  /** Of the regions up to the m-th, only the n-th puts anything where it goes. */
  lemma {:induction false} ImageCellAt(g: Geometry, regions: seq<Region>, sectors: seq<nat>, keep: seq<bool>,
                                       n: nat, m: nat, a: nat)
    requires n <= m < |regions| && GoodImage(regions) && InSpan(regions[n], Cmd(g, regions[n].address), a)
    requires forall r :: r in regions ==> AllPermitted(g, r.address, End(r))
    ensures ImageCell(g, regions[..m + 1], sectors, keep, a)
         == if Hit(regions[n], Cmd(g, regions[n].address), sectors, keep, |sectors|, a)
            then Data(PaddedByte(regions[n].data, a - Cmd(g, regions[n].address))) else Blank
  {
    OneRegionMore(g, regions, m, sectors, keep, a);
    if n < m {
      OtherMisses(g, regions, sectors, keep, n, m, a);
      ImageCellAt(g, regions, sectors, keep, n, m - 1, a);
      assert regions[..m - 1 + 1] == regions[..m];
    } else {
      StillBlank(g, regions, sectors, keep, n, n, a);
    }
  }

  /** Within a sector, reads from a translated start go where reads from each address do. */
  lemma SectorReads(g: Geometry, lo: nat, i: nat)
    requires Base(lo + i) == Base(lo)
    ensures Cmd(g, ToPhysical(lo) + i) == Cmd(g, lo + i)
  {
  }

  lemma SameSector(s: nat, x: nat)
    requires s % SECTOR == 0 && s <= x < s + SECTOR
    ensures Base(x) == s
  {
  }

  lemma ExpectedAt(r: Region, s: nat, j: nat)
    requires Overlaps(r, s) && j < |Expected(r, s)|
    ensures
      var x := PieceLo(r, s) + j;
      && Expected(r, s)[j] == (if x < PieceHi(r, s + SECTOR) then r.data[x - r.address] else COMPARE_PAD)
      && (x < PieceHi(r, s + SECTOR) || (PieceHi(r, s + SECTOR) == End(r) && EndPad(End(r)) > 0))
  {
  }

  /** The sector a byte of a region's padded span is in, and where both go. */
  lemma Locate(w: GoodWrite, n: nat, i: nat) returns (m: nat)
    requires n < |w.regions| && i < PadUp(|w.regions[n].data|)
    ensures m < |w.sectors| && w.sectors[m] % SECTOR == 0
    ensures w.sectors[m] == Base(w.regions[n].address + i) <= w.regions[n].address + i < w.sectors[m] + SECTOR
    ensures At(w, n, i) == Cmd(w.g, w.regions[n].address + i)
    ensures Base(At(w, n, i)) == Commands(w.g, w.sectors)[m]
  {
    assert Laid(w.g, w.regions[n], Cmd(w.g, w.regions[n].address), w.sectors);
    m := LocateIn(w.g, w.regions[n], w.sectors, i);
  }

  lemma LocateIn(g: Geometry, r: Region, sectors: seq<nat>, i: nat) returns (m: nat)
    requires Laid(g, r, Cmd(g, r.address), sectors) && i < PadUp(|r.data|)
    ensures m < |sectors| && sectors[m] % SECTOR == 0
    ensures sectors[m] == Base(r.address + i) <= r.address + i < sectors[m] + SECTOR
    ensures Cmd(g, r.address) + i == Cmd(g, r.address + i)
    ensures Base(Cmd(g, r.address) + i) == Commands(g, sectors)[m]
  {
    var base := Cmd(g, r.address);
    SpanTranslates(g, r, base + i);
    m := SectorOf(r, base, sectors, base + i);
    LandsIn(g, sectors, m, r.address + i);
  }

  lemma LandsIn(g: Geometry, sectors: seq<nat>, m: nat, x: nat)
    requires m < |sectors| && sectors[m] == Base(x)
    ensures Base(Cmd(g, x)) == Commands(g, sectors)[m] && sectors[m] % SECTOR == 0
    ensures sectors[m] <= x < sectors[m] + SECTOR
  {
    SectorWhole(g, x);
  }

  lemma KeptIff(sectors: seq<nat>, keep: seq<bool>, m: nat)
    requires Increasing(sectors) && m < |sectors| == |keep|
    ensures Kept(sectors, keep, |sectors|, sectors[m]) <==> keep[m]
  {
  }

  lemma HitIff(r: Region, base: nat, sectors: seq<nat>, keep: seq<bool>, m: nat, a: nat)
    requires Increasing(sectors) && m < |sectors| == |keep|
    requires InSpan(r, base, a) && sectors[m] == SectorHere(r, base, a)
    ensures Hit(r, base, sectors, keep, |sectors|, a) <==> keep[m]
  {
    KeptIff(sectors, keep, m);
  }

  lemma RegionsPermitted(w: GoodWrite)
    ensures forall r :: r in w.regions ==> AllPermitted(w.g, r.address, End(r))
  {
    forall r | r in w.regions ensures AllPermitted(w.g, r.address, End(r)) {
      assert Laid(w.g, r, Cmd(w.g, r.address), w.sectors);
    }
  }

  lemma {:induction false} ImageAt(g: Geometry, regions: seq<Region>, sectors: seq<nat>, keep: seq<bool>, n: nat,
                                   m: nat, a: nat)
    requires GoodImage(regions) && (forall r :: r in regions ==> AllPermitted(g, r.address, End(r)))
    requires Increasing(sectors) && |keep| == |sectors| && n < |regions| && m < |sectors|
    requires InSpan(regions[n], Cmd(g, regions[n].address), a)
    requires sectors[m] == SectorHere(regions[n], Cmd(g, regions[n].address), a)
    ensures ImageCell(g, regions, sectors, keep, a)
         == if keep[m] then Data(PaddedByte(regions[n].data, a - Cmd(g, regions[n].address))) else Blank
  {
    var last := |regions| - 1;
    HitIff(regions[n], Cmd(g, regions[n].address), sectors, keep, m, a);
    ImageCellAt(g, regions, sectors, keep, n, last, a);
    assert regions[..last + 1] == regions;
  }

  /** What the write left of a region's byte: its value, or - in a sector that was skipped -
      what was there, unless the sector was erased through its other alias. */
  lemma CellOf(w: GoodWrite, n: nat, i: nat, m: nat)
    requires n < |w.regions| && i < PadUp(|w.regions[n].data|) && m < |w.sectors|
    requires w.sectors[m] == Base(w.regions[n].address + i)
    requires Base(At(w, n, i)) == Commands(w.g, w.sectors)[m]
    ensures
      var cs := Commands(w.g, w.sectors);
      w.after(At(w, n, i)) == if w.keep[m] then Data(PaddedByte(w.regions[n].data, i))
                              else if Kept(cs, w.keep, |cs|, cs[m]) then Blank
                              else w.before(At(w, n, i))
  {
    RegionsPermitted(w);
    ImageAt(w.g, w.regions, w.sectors, w.keep, n, m, At(w, n, i));
    assert w.regions[..|w.regions|] == w.regions;
  }

  lemma MatchByte(g: Geometry, r: Region, s: nat, cells: nat -> Cell, i: nat)
    requires Matches(cells, g, r, s) && s % SECTOR == 0 && i < |r.data| && s <= r.address + i < s + SECTOR
    ensures cells(Cmd(g, r.address + i)) == Data(r.data[i])
  {
    var lo := PieceLo(r, s);
    var j := r.address + i - lo;
    SameSector(s, lo);
    SameSector(s, lo + j);
    SectorReads(g, lo, j);
    ExpectedAt(r, s, j);
    assert cells(Cmd(g, ToPhysical(lo) + j)) == Data(Expected(r, s)[j]);
  }

  lemma ByteShown(w: GoodWrite, n: nat, i: nat)
    requires SkipsMatch(w) && Consistent(Commands(w.g, w.sectors), w.keep)
    requires n < |w.regions| && i < |w.regions[n].data|
    ensures w.after(Cmd(w.g, w.regions[n].address + i)) == Data(w.regions[n].data[i])
  {
    var m := Locate(w, n, i);
    CellOf(w, n, i, m);
    if !w.keep[m] {
      SkippedIsNotKept(Commands(w.g, w.sectors), w.keep, m);
      SkippedByte(w, n, i, m);
    }
  }

  lemma SkippedIsNotKept(cs: seq<nat>, keep: seq<bool>, m: nat)
    requires Consistent(cs, keep) && m < |cs| == |keep| && !keep[m]
    ensures !Kept(cs, keep, |cs|, cs[m])
  {
  }

  lemma SkippedByte(w: GoodWrite, n: nat, i: nat, m: nat)
    requires SkipsMatch(w) && n < |w.regions| && i < |w.regions[n].data| && m < |w.sectors| && !w.keep[m]
    requires w.sectors[m] % SECTOR == 0 && w.sectors[m] <= w.regions[n].address + i < w.sectors[m] + SECTOR
    ensures w.before(Cmd(w.g, w.regions[n].address + i)) == Data(w.regions[n].data[i])
  {
    MatchByte(w.g, w.regions[n], w.sectors[m], w.before, i);
  }

  /** Whatever was skipped, the image reads back exactly as after a write of everything:
      this rests on the comparison and the programming alone, not on the final verify. */
  lemma ImageShown(w: GoodWrite)
    requires SkipsMatch(w) && Consistent(Commands(w.g, w.sectors), w.keep)
    ensures AllShown(w.regions, |w.regions|, w.after, w.g)
  {
    forall n, i | 0 <= n < |w.regions| && 0 <= i < |w.regions[n].data|
      ensures w.after(Cmd(w.g, w.regions[n].address + i)) == Data(w.regions[n].data[i])
    {
      ByteShown(w, n, i);
    }
  }

  predicate NoneEmpty(regions: seq<Region>) { forall r :: r in regions ==> r.data != [] }

  /** Some byte of the image is in each sector. */
  lemma ByteIn(regions: seq<Region>, s: nat) returns (n: nat, i: nat)
    requires NoneEmpty(regions) && Touched(regions, s)
    ensures n < |regions| && i < |regions[n].data| && s == Base(regions[n].address + i)
  {
    var r :| r in regions && Touches(r, s);
    n :| 0 <= n < |regions| && regions[n] == r;
    i := FirstIn(r, s);
  }

  lemma FirstIn(r: Region, s: nat) returns (i: nat)
    requires Touches(r, s) && r.data != []
    ensures i < |r.data| && s == Base(r.address + i)
  {
    if s > r.address {
      i := s - r.address;
    } else {
      i := 0;
      BaseOf(r.address, r.address);
      SameSector(s, r.address);
    }
  }

  /** Skipping a sector through one alias and erasing it through the other loses what was
      skipped; nothing else does. */
  lemma ShownIffConsistent(w: GoodWrite)
    requires SkipsMatch(w) && NoneEmpty(w.regions)
    ensures AllShown(w.regions, |w.regions|, w.after, w.g) <==> Consistent(Commands(w.g, w.sectors), w.keep)
  {
    var cs := Commands(w.g, w.sectors);
    if Consistent(cs, w.keep) {
      ImageShown(w);
    } else {
      var i, j :| 0 <= i < |cs| && 0 <= j < |cs| && cs[i] == cs[j] && w.keep[i] != w.keep[j];
      if w.keep[j] {
        Lost(w, i, j);
      } else {
        Lost(w, j, i);
      }
    }
  }

  lemma Lost(w: GoodWrite, p: nat, q: nat)
    requires NoneEmpty(w.regions) && p < |w.sectors| && q < |w.sectors| && !w.keep[p] && w.keep[q]
    requires Commands(w.g, w.sectors)[p] == Commands(w.g, w.sectors)[q]
    ensures !AllShown(w.regions, |w.regions|, w.after, w.g)
  {
    assert w.sectors[p] in w.sectors;
    var n, i := ByteIn(w.regions, w.sectors[p]);
    BlankByte(w, p, q, n, i);
    OneBlank(w.regions, w.after, w.g, n, i);
  }

  lemma OneBlank(regions: seq<Region>, cells: nat -> Cell, g: Geometry, n: nat, i: nat)
    requires n < |regions| && i < |regions[n].data| && cells(Cmd(g, regions[n].address + i)) == Blank
    ensures !AllShown(regions, |regions|, cells, g)
  {
    Differs(cells, g, regions[n].address, regions[n].data, i);
  }

  lemma BlankByte(w: GoodWrite, p: nat, q: nat, n: nat, i: nat)
    requires p < |w.sectors| && q < |w.sectors| && !w.keep[p] && w.keep[q]
    requires Commands(w.g, w.sectors)[p] == Commands(w.g, w.sectors)[q]
    requires n < |w.regions| && i < |w.regions[n].data| && w.sectors[p] == Base(w.regions[n].address + i)
    ensures w.after(Cmd(w.g, w.regions[n].address + i)) == Blank
  {
    var cs := Commands(w.g, w.sectors);
    var m := Locate(w, n, i);
    IndexOf(w.sectors, p, m);
    assert Kept(cs, w.keep, |cs|, cs[p]);
    CellOf(w, n, i, p);
  }

  // ------------------------------------------------------------ a second write

  /** Does the comparison's padding agree with what the programming left? */
  predicate EndsOnPage(r: Region, s: nat) { PieceHi(r, s + SECTOR) == End(r) ==> End(r) % PAGE == 0 }

  lemma PadAgrees(address: nat, len: nat)
    requires address % PAGE == 0
    ensures len + EndPad(address + len) == PadUp(len)
  {
  }

  lemma PadWithin(hi: nat, top: nat)
    requires hi <= top && top % PAGE == 0
    ensures hi + EndPad(hi) <= top
  {
  }

  lemma PieceInSpan(r: Region, s: nat, j: nat)
    requires r.address % PAGE == 0 && s % SECTOR == 0 && Overlaps(r, s) && j < |Expected(r, s)|
    ensures
      var x := PieceLo(r, s) + j;
      InSpan(r, r.address, x) && s <= x < s + SECTOR && Base(x) == s == Base(PieceLo(r, s))
  {
    WholePages(s);
    var lo, hi := PieceLo(r, s), PieceHi(r, s + SECTOR);
    SameSector(s, lo);
    if hi == End(r) {
      PadAgrees(r.address, |r.data|);
      PadWithin(hi, s + SECTOR);
    }
    SameSector(s, lo + j);
  }

  lemma WrittenByte(w: GoodWrite, k: nat, n: nat, i: nat)
    requires k < |w.sectors| && w.keep[k] && n < |w.regions| && i < PadUp(|w.regions[n].data|)
    requires w.sectors[k] <= w.regions[n].address + i < w.sectors[k] + SECTOR
    ensures w.after(At(w, n, i)) == Data(PaddedByte(w.regions[n].data, i))
    ensures At(w, n, i) == Cmd(w.g, w.regions[n].address + i)
  {
    var m := Locate(w, n, i);
    SameSector(w.sectors[m], w.regions[n].address + i);
    SameSector(w.sectors[k], w.regions[n].address + i);
    IndexOf(w.sectors, k, m);
    CellOf(w, n, i, m);
  }

  lemma ReadPlace(g: Geometry, s: nat, address: nat, i: nat, lo: nat, j: nat)
    requires s % SECTOR == 0 && s <= lo && lo + j < s + SECTOR && address + i == lo + j
    ensures Cmd(g, address + i) == Cmd(g, ToPhysical(lo) + j)
  {
    SameSector(s, lo);
    SameSector(s, lo + j);
    SectorReads(g, lo, j);
  }

  /** What a read in a sector just written shows, through its translated start: the region's
      i-th byte. */
  lemma WrittenRead(w: GoodWrite, k: nat, n: nat, i: nat, lo: nat, j: nat)
    requires k < |w.sectors| && w.keep[k] && n < |w.regions| && i < PadUp(|w.regions[n].data|)
    requires w.sectors[k] % SECTOR == 0 && w.sectors[k] <= lo && lo + j < w.sectors[k] + SECTOR
    requires w.regions[n].address + i == lo + j
    ensures w.after(Cmd(w.g, ToPhysical(lo) + j)) == Data(PaddedByte(w.regions[n].data, i))
  {
    WrittenByte(w, k, n, i);
    ReadPlace(w.g, w.sectors[k], w.regions[n].address, i, lo, j);
  }

  /** Those reads agree with the comparison up to the region's end, and never beyond it. */
  lemma ReadAgrees(w: GoodWrite, k: nat, n: nat, j: nat)
    requires k < |w.sectors| && w.keep[k] && n < |w.regions| && Overlaps(w.regions[n], w.sectors[k])
    requires j < |Expected(w.regions[n], w.sectors[k])|
    ensures
      var r, s := w.regions[n], w.sectors[k];
      var lo := PieceLo(r, s);
      w.after(Cmd(w.g, ToPhysical(lo) + j)) == Data(Expected(r, s)[j]) <==> lo + j < End(r)
  {
    var r, s := w.regions[n], w.sectors[k];
    var i := PieceLo(r, s) + j - r.address;
    PieceInSpan(r, s, j);
    WrittenRead(w, k, n, i, PieceLo(r, s), j);
    ExpectedAgrees(r, s, j, i);
  }

  lemma ExpectedAgrees(r: Region, s: nat, j: nat, i: nat)
    requires Overlaps(r, s) && j < |Expected(r, s)| && i == PieceLo(r, s) + j - r.address
    ensures PaddedByte(r.data, i) == Expected(r, s)[j] <==> PieceLo(r, s) + j < End(r)
  {
    ExpectedAt(r, s, j);
    PaddingsDiffer();
  }

  lemma PaddingsDiffer()
    ensures ERASED != COMPARE_PAD
  {
  }

  lemma IndexOf(sectors: seq<nat>, k: nat, m: nat)
    requires Increasing(sectors) && k < |sectors| && m < |sectors| && sectors[k] == sectors[m]
    ensures k == m
  {
  }

  /** A sector just written with an image would be skipped by a second write of it exactly
      when no region ends inside it off a page boundary. */
  lemma SkippedNextTime(w: GoodWrite, k: nat, n: nat)
    requires k < |w.sectors| && w.keep[k] && n < |w.regions| && Overlaps(w.regions[n], w.sectors[k])
    ensures Matches(w.after, w.g, w.regions[n], w.sectors[k]) <==> EndsOnPage(w.regions[n], w.sectors[k])
  {
    var r, s := w.regions[n], w.sectors[k];
    var lo, e := PieceLo(r, s), Expected(r, s);
    forall j | 0 <= j < |e|
      ensures w.after(Cmd(w.g, ToPhysical(lo) + j)) == Data(e[j]) <==> lo + j < End(r)
    {
      ReadAgrees(w, k, n, j);
    }
    AgreesToEnd(w.after, w.g, r, s);
  }

  /** If the reads agree just up to the region's end, the sector matches just if there is no
      padding to compare. */
  lemma AgreesToEnd(cells: nat -> Cell, g: Geometry, r: Region, s: nat)
    requires Overlaps(r, s)
    requires
      var lo, e := PieceLo(r, s), Expected(r, s);
      forall j :: 0 <= j < |e| ==> (cells(Cmd(g, ToPhysical(lo) + j)) == Data(e[j]) <==> lo + j < End(r))
    ensures Matches(cells, g, r, s) <==> EndsOnPage(r, s)
  {
    if !EndsOnPage(r, s) {
      Differs(cells, g, ToPhysical(PieceLo(r, s)), Expected(r, s), End(r) - PieceLo(r, s));
    }
  }

  /** What writing an image from scratch leaves, by definition. */
  lemma WriteOf(g: Geometry, regions: seq<Region>, sectors: seq<nat>, keep: seq<bool>, before: nat -> Cell)
    returns (w: GoodWrite)
    requires GoodImage(regions) && Ready(g, regions, sectors) && |keep| == |sectors|
    ensures w.g == g && w.regions == regions && w.sectors == sectors && w.keep == keep && w.before == before
  {
    var after := (a: nat) => if Kept(Commands(g, sectors), keep, |sectors|, Base(a))
                             then ImageCell(g, regions, sectors, keep, a) else before(a);
    assert regions[..|regions|] == regions;
    assert Holds(g, regions, |regions|, sectors, keep, before, after);
    w := Write(g, regions, sectors, keep, before, after);
  }

  /** An image of one byte: once written, its sector does not match it, because the 31 bytes
      of padding are 0xFF and the comparison asks for 0x00. */
  lemma OneByteNeverMatches(r: Region, before: nat -> Cell) returns (w: GoodWrite)
    requires r.address == PFLASH_BASE && |r.data| == 1
    ensures w.regions == [r] && w.sectors == [PFLASH_BASE] && w.keep == [true]
    ensures !Matches(w.after, w.g, w.regions[0], w.sectors[0])
  {
    var g, regions, sectors := Geometry(Contiguous10, false), [r], [PFLASH_BASE];
    OneSector(r);
    LayOut(g, regions, sectors);
    w := WriteOf(g, regions, sectors, [true], before);
    SkippedNextTime(w, 0, 0);
  }

  lemma OneSector(r: Region)
    requires r.address == PFLASH_BASE && |r.data| == 1
    ensures GoodImage([r]) && forall s: nat :: s in [PFLASH_BASE] <==> Touched([r], s)
    ensures Overlaps(r, PFLASH_BASE) && !EndsOnPage(r, PFLASH_BASE)
  {
    forall s: nat ensures s in [PFLASH_BASE] <==> Touched([r], s) {
      assert r in [r] && (s in [PFLASH_BASE] <==> Touches(r, s));
    }
    assert PieceHi(r, PFLASH_BASE + SECTOR) == End(r) == PFLASH_BASE + 1;
  }

  /** One sector under both its names, a byte each on different pages: the comparison skips it
      under one, the erase under the other takes what was skipped. */
  lemma TwoNamesLoseAByte(r: Region, q: Region) returns (w: GoodWrite)
    requires r.address == PFLASH_BASE && q.address == PFLASH_CACHED + PAGE && |r.data| == |q.data| == 1
    ensures w.regions == [r, q] && w.sectors == [PFLASH_CACHED, PFLASH_BASE] && w.keep == [false, true]
    ensures SkipsMatch(w) && !AllShown(w.regions, |w.regions|, w.after, w.g)
  {
    var g, regions, sectors := Geometry(Contiguous10, false), [r, q], [PFLASH_CACHED, PFLASH_BASE];
    TwoSectors(r, q);
    LayOut(g, regions, sectors);
    var before := (a: nat) => Data(if a == PFLASH_BASE + PAGE then q.data[0] else COMPARE_PAD);
    w := WriteOf(g, regions, sectors, [false, true], before);
    NeighboursMatch(before, g, r, q);
    assert Commands(g, sectors)[0] == Commands(g, sectors)[1] == PFLASH_BASE;
    ShownIffConsistent(w);
  }

  lemma TwoSectors(r: Region, q: Region)
    requires r.address == PFLASH_BASE && q.address == PFLASH_CACHED + PAGE && |r.data| == |q.data| == 1
    ensures GoodImage([r, q]) && NoneEmpty([r, q])
    ensures forall s: nat :: s in [PFLASH_CACHED, PFLASH_BASE] <==> Touched([r, q], s)
  {
    forall s: nat ensures s in [PFLASH_CACHED, PFLASH_BASE] <==> Touched([r, q], s) {
      assert r in [r, q] && q in [r, q];
      assert s in [PFLASH_CACHED, PFLASH_BASE] <==> Touches(r, s) || Touches(q, s);
    }
  }

  /** The second byte's page is there; the first region has nothing in the sector by that name. */
  lemma NeighboursMatch(cells: nat -> Cell, g: Geometry, r: Region, q: Region)
    requires r.address == PFLASH_BASE && q.address == PFLASH_CACHED + PAGE && |r.data| == |q.data| == 1
    requires g == Geometry(Contiguous10, false)
    requires forall a: nat :: cells(a) == Data(if a == PFLASH_BASE + PAGE then q.data[0] else COMPARE_PAD)
    ensures Matches(cells, g, q, PFLASH_CACHED) && Matches(cells, g, r, PFLASH_CACHED)
  {
  }
}
