/** What an image is to the command interface, and the phases of writing one. */
module FlashApply {
  import opened Common
  import opened FlashMap
  import opened FlashDevice
  import opened FlashErase
  import opened FlashImage
  import opened FlashProgram
  import opened FlashKept
  import opened FlashCollect

  // -------------------------------------------------- what is asked of an image

  /** Regions start on pages and share none in either alias. */
  ghost predicate GoodImage(regions: seq<Region>) {
    && (forall r :: r in regions ==> r.address % PAGE == 0)
    && (forall i, j :: 0 <= i < j < |regions| ==> Apart(regions[i], regions[j]))
  }

  ghost predicate Apart(r: Region, q: Region) {
    forall x: nat, y: nat :: InSpan(r, r.address, x) && InSpan(q, q.address, y) ==> ToPhysical(x) != ToPhysical(y)
  }

  /** What the image's kept sectors put at a command address; later regions are looked at
      first. */
  function ImageCell(g: Geometry, regions: seq<Region>, sectors: seq<nat>, keep: seq<bool>, a: nat): Cell {
    if regions == [] then Blank
    else
      var r := regions[|regions| - 1];
      var base := Cmd(g, r.address);
      if Hit(r, base, sectors, keep, |sectors|, a) then Data(PaddedByte(r.data, a - base))
      else ImageCell(g, regions[..|regions| - 1], sectors, keep, a)
  }

  /** The sectors are laid out for every region, and may all be erased. */
  ghost predicate Ready(g: Geometry, regions: seq<Region>, sectors: seq<nat>) {
    && (forall r :: r in regions ==> Laid(g, r, Cmd(g, r.address), sectors))
    && (forall s: nat :: s in sectors <==> Touched(regions, s))
    && Increasing(sectors) && Aligned(sectors) && |sectors| <= MAX_SECTORS
  }

  /** A sector named through both aliases is rewritten through both or through neither. */
  predicate Consistent(cs: seq<nat>, keep: seq<bool>) {
    forall i, j :: 0 <= i < |cs| && 0 <= j < |cs| && |cs| == |keep| && cs[i] == cs[j] ==> keep[i] == keep[j]
  }

  /** The image's first n regions are in the kept sectors, which hold nothing else; the
      rest of the flash is as it was. */
  ghost predicate Holds(g: Geometry, regions: seq<Region>, n: nat, sectors: seq<nat>, keep: seq<bool>,
                        before: nat -> Cell, after: nat -> Cell)
    requires n <= |regions|
  {
    forall a: nat ::
      after(a) == if Kept(Commands(g, sectors), keep, |sectors|, Base(a))
                  then ImageCell(g, regions[..n], sectors, keep, a) else before(a)
  }

  // ------------------------------------------------------------------- layout

  lemma LayOut(g: Geometry, regions: seq<Region>, sectors: seq<nat>)
    requires GoodImage(regions) && Increasing(sectors) && |sectors| <= MAX_SECTORS
    requires forall s: nat :: s in sectors <==> Touched(regions, s)
    requires forall s :: s in sectors ==> Permitted(g, s)
    ensures Ready(g, regions, sectors)
  {
    forall i | 0 <= i < |sectors| ensures sectors[i] % SECTOR == 0 {
      assert sectors[i] in sectors;
    }
    forall r | r in regions ensures Laid(g, r, Cmd(g, r.address), sectors) {
      PlaceRegion(g, regions, r, sectors);
    }
  }

  lemma PlaceRegion(g: Geometry, regions: seq<Region>, r: Region, sectors: seq<nat>)
    requires r in regions
    requires forall s: nat :: s in sectors <==> Touched(regions, s)
    requires forall s :: s in sectors ==> Permitted(g, s)
    ensures AllPermitted(g, r.address, End(r)) && Placed(r, sectors)
  {
    forall t: nat | Touches(r, t) ensures t in sectors {
      assert Touched(regions, t);
    }
  }

  // ----------------------------------------------------- regions never collide

  /** Translated by its start, a region's padded span is translated byte by byte. */
  lemma SpanTranslates(g: Geometry, r: Region, a: nat)
    requires AllPermitted(g, r.address, End(r)) && r.address % PAGE == 0 && InSpan(r, Cmd(g, r.address), a)
    ensures Cmd(g, r.address + (a - Cmd(g, r.address))) == a
  {
    var x := r.address + (a - Cmd(g, r.address));
    PadStays(r, x);
    RangeTranslates(g, r.address, End(r), x);
  }

  lemma NoCollision(g: Geometry, r: Region, q: Region, a: nat)
    requires Apart(r, q) && r.address % PAGE == 0 && q.address % PAGE == 0
    requires AllPermitted(g, r.address, End(r)) && AllPermitted(g, q.address, End(q))
    ensures !(InSpan(r, Cmd(g, r.address), a) && InSpan(q, Cmd(g, q.address), a))
  {
    if InSpan(r, Cmd(g, r.address), a) && InSpan(q, Cmd(g, q.address), a) {
      SpanTranslates(g, r, a);
      SpanTranslates(g, q, a);
      var x, y := r.address + (a - Cmd(g, r.address)), q.address + (a - Cmd(g, q.address));
      Injective(g, x, y);
      assert InSpan(r, r.address, x) && InSpan(q, q.address, y);
      assert false;
    }
  }

  /** Where region n goes, the regions before it have put nothing. */
  lemma {:induction false} StillBlank(g: Geometry, regions: seq<Region>, sectors: seq<nat>, keep: seq<bool>,
                                      n: nat, k: nat, a: nat)
    requires k <= n < |regions| && GoodImage(regions) && InSpan(regions[n], Cmd(g, regions[n].address), a)
    requires forall r :: r in regions ==> AllPermitted(g, r.address, End(r))
    ensures ImageCell(g, regions[..k], sectors, keep, a) == Blank
  {
    if k > 0 {
      assert regions[..k][..k - 1] == regions[..k - 1];
      StillBlank(g, regions, sectors, keep, n, k - 1, a);
      assert Apart(regions[k - 1], regions[n]);
      NoCollision(g, regions[k - 1], regions[n], a);
    }
  }

  /** A region's byte in a kept sector of the list is in a kept sector of the flash. */
  lemma HitIsKept(g: Geometry, r: Region, sectors: seq<nat>, keep: seq<bool>, a: nat)
    requires Laid(g, r, Cmd(g, r.address), sectors) && Hit(r, Cmd(g, r.address), sectors, keep, |sectors|, a)
    ensures Kept(Commands(g, sectors), keep, |sectors|, Base(a))
  {
    SpanTranslates(g, r, a);
    SectorWhole(g, r.address + (a - Cmd(g, r.address)));
    KeptThere(g, sectors, keep, SectorHere(r, Cmd(g, r.address), a));
  }

  lemma KeptThere(g: Geometry, sectors: seq<nat>, keep: seq<bool>, s: nat)
    requires Kept(sectors, keep, |sectors|, s)
    ensures Kept(Commands(g, sectors), keep, |sectors|, Cmd(g, s))
  {
    var m :| 0 <= m < |sectors| == |keep| && keep[m] && sectors[m] == s;
    assert Commands(g, sectors)[m] == Cmd(g, s);
  }

  lemma RegionAdded(g: Geometry, regions: seq<Region>, n: nat, sectors: seq<nat>, keep: seq<bool>,
                    before: nat -> Cell, mid: nat -> Cell, after: nat -> Cell)
    requires n < |regions| && Holds(g, regions, n, sectors, keep, before, mid)
    requires Laid(g, regions[n], Cmd(g, regions[n].address), sectors)
    requires KeptTo(regions[n], Cmd(g, regions[n].address), sectors, keep, |sectors|, mid, after)
    ensures Holds(g, regions, n + 1, sectors, keep, before, after)
  {
    forall a: nat
      ensures after(a) == if Kept(Commands(g, sectors), keep, |sectors|, Base(a))
                          then ImageCell(g, regions[..n + 1], sectors, keep, a) else before(a)
    {
      OneRegionMore(g, regions, n, sectors, keep, a);
      if Hit(regions[n], Cmd(g, regions[n].address), sectors, keep, |sectors|, a) {
        HitIsKept(g, regions[n], sectors, keep, a);
      }
    }
  }

  lemma {:induction false} OneRegionMore(g: Geometry, regions: seq<Region>, n: nat, sectors: seq<nat>,
                                         keep: seq<bool>, a: nat)
    requires n < |regions|
    ensures
      var r := regions[n];
      ImageCell(g, regions[..n + 1], sectors, keep, a)
      == if Hit(r, Cmd(g, r.address), sectors, keep, |sectors|, a) then Data(PaddedByte(r.data, a - Cmd(g, r.address)))
         else ImageCell(g, regions[..n], sectors, keep, a)
  {
    assert regions[..n + 1][..n] == regions[..n] && regions[..n + 1][n] == regions[n];
  }

  /** What is still to be programmed is blank. */
  lemma HitsAreBlank(g: Geometry, regions: seq<Region>, n: nat, sectors: seq<nat>, keep: seq<bool>,
                     before: nat -> Cell, cells: nat -> Cell)
    requires n < |regions| && GoodImage(regions) && Ready(g, regions, sectors)
    requires Holds(g, regions, n, sectors, keep, before, cells)
    ensures HitsBlank(regions[n], Cmd(g, regions[n].address), sectors, keep, cells)
  {
    forall r | r in regions ensures AllPermitted(g, r.address, End(r)) {
      assert Laid(g, r, Cmd(g, r.address), sectors);
    }
    forall a: nat | Hit(regions[n], Cmd(g, regions[n].address), sectors, keep, |sectors|, a) ensures cells(a) == Blank {
      HitIsKept(g, regions[n], sectors, keep, a);
      StillBlank(g, regions, sectors, keep, n, n, a);
    }
  }

  lemma HitsInKept(g: Geometry, r: Region, sectors: seq<nat>, keep: seq<bool>,
                   before: nat -> Cell, after: nat -> Cell)
    requires Laid(g, r, Cmd(g, r.address), sectors)
    requires OnlyHits(r, Cmd(g, r.address), sectors, keep, before, after)
    ensures OnlyKept(Commands(g, sectors), keep, before, after)
  {
    forall a: nat | Hit(r, Cmd(g, r.address), sectors, keep, |sectors|, a)
      ensures Kept(Commands(g, sectors), keep, |sectors|, Base(a))
    {
      HitIsKept(g, r, sectors, keep, a);
    }
  }

  // ------------------------------------------------------------------- phases

  /** What apply turns down before touching anything. */
  ghost predicate TurnedDown(g: Geometry, regions: seq<Region>) {
    TooMany(regions) || exists s: nat :: Touched(regions, s) && !Permitted(g, s)
  }

  method Prepare(g: Geometry, regions: seq<Region>) returns (ok: bool, sectors: seq<nat>)
    requires GoodImage(regions)
    ensures ok <==> !TurnedDown(g, regions)
    ensures ok ==> Ready(g, regions, sectors)
  {
    var found;
    ok, found := Collect(regions);
    sectors := Sorted(found);
    if !ok {
      return;
    }
    SortedKeeps(found);
    assert regions[..|regions|] == regions;
    for k := 0 to |sectors|
      invariant forall j :: 0 <= j < k ==> Permitted(g, sectors[j])
    {
      if !Permitted(g, sectors[k]) {
        assert sectors[k] in sectors;
        assert Touched(regions, sectors[k]);
        return false, sectors;
      }
    }
    forall s: nat | Touched(regions, s) ensures Permitted(g, s) {
      assert s in sectors;
    }
    LayOut(g, regions, sectors);
  }

  method Compare(d: Device, regions: seq<Region>, sectors: seq<nat>, differential: bool)
    returns (keep: seq<bool>)
    modifies d`faults, d`fates
    ensures |keep| == |sectors| && d.faults >= old(d.faults)
    ensures forall k :: 0 <= k < |keep| && !keep[k] ==>
              differential && forall r :: r in regions ==> Matches(d.cells, d.g, r, sectors[k])
    ensures d.faults == old(d.faults) ==> forall k :: 0 <= k < |keep| && keep[k] && differential ==>
              exists r :: r in regions && !Matches(d.cells, d.g, r, sectors[k])
  {
    keep := [];
    for k := 0 to |sectors|
      invariant |keep| == k && d.faults >= old(d.faults)
      invariant forall j :: 0 <= j < k && !keep[j] ==>
                  differential && forall r :: r in regions ==> Matches(d.cells, d.g, r, sectors[j])
      invariant d.faults == old(d.faults) ==> forall j :: 0 <= j < k && keep[j] && differential ==>
                  exists r :: r in regions && !Matches(d.cells, d.g, r, sectors[j])
    {
      var differs := true;
      if differential {
        differs := SectorDiffers(d, sectors[k], regions);
      }
      keep := keep + [differs];
    }
  }

  /** The sectors to be rewritten, in order. */
  function Chosen(sectors: seq<nat>, keep: seq<bool>): seq<nat>
    requires |keep| == |sectors|
  {
    if sectors == [] then []
    else
      var n := |sectors| - 1;
      Chosen(sectors[..n], keep[..n]) + if keep[n] then [sectors[n]] else []
  }

  method EraseList(g: Geometry, sectors: seq<nat>, keep: seq<bool>) returns (list: seq<nat>)
    requires |keep| == |sectors| && Aligned(sectors)
    ensures Aligned(list) && list == Chosen(sectors, keep)
    ensures forall b :: b in Commands(g, list) <==> Kept(Commands(g, sectors), keep, |sectors|, b)
  {
    ghost var cs := Commands(g, sectors);
    list := [];
    for k := 0 to |sectors|
      invariant Aligned(list) && list == Chosen(sectors[..k], keep[..k])
      invariant forall b :: b in Commands(g, list) <==> Kept(cs, keep, k, b)
    {
      if keep[k] {
        assert Commands(g, list + [sectors[k]]) == Commands(g, list) + [cs[k]];
        list := list + [sectors[k]];
      }
      assert sectors[..k + 1][..k] == sectors[..k] && keep[..k + 1][..k] == keep[..k];
    }
    assert sectors[..|sectors|] == sectors && keep[..|keep|] == keep;
  }

  /** Whatever the device does, only sectors to be rewritten change; if they were blank, no error
      went unseen and this ends well, they hold the image. */
  method ProgramAll(d: Device, regions: seq<Region>, sectors: seq<nat>, keep: seq<bool>,
                    ghost before: nat -> Cell)
    returns (r: Outcome)
    requires GoodImage(regions) && Ready(d.g, regions, sectors) && |keep| == |sectors|
    requires OnlyKept(Commands(d.g, sectors), keep, before, d.cells)
    modifies d
    ensures d.erases == old(d.erases) && d.unseen >= old(d.unseen)
    ensures d.faults >= old(d.faults) && (r == Done <==> d.faults == old(d.faults))
    ensures OnlyKept(Commands(d.g, sectors), keep, before, d.cells)
    ensures r == Done && d.unseen == old(d.unseen) && Holds(d.g, regions, 0, sectors, keep, before, old(d.cells)) ==>
              Holds(d.g, regions, |regions|, sectors, keep, before, d.cells)
  {
    ghost var blank := Holds(d.g, regions, 0, sectors, keep, before, d.cells);
    for i := 0 to |regions|
      invariant OnlyKept(Commands(d.g, sectors), keep, before, d.cells) && d.unseen >= old(d.unseen)
      invariant d.unseen == old(d.unseen) && blank ==> Holds(d.g, regions, i, sectors, keep, before, d.cells)
      invariant d.erases == old(d.erases) && d.faults == old(d.faults)
    {
      ghost var mid := d.cells;
      assert regions[i] in regions;
      if d.unseen == old(d.unseen) && blank {
        HitsAreBlank(d.g, regions, i, sectors, keep, before, d.cells);
      }
      r := ProgramKept(d, regions[i], sectors, keep);
      HitsInKept(d.g, regions[i], sectors, keep, mid, d.cells);
      if r == Failed {
        return;
      }
      if d.unseen == old(d.unseen) && blank {
        RegionAdded(d.g, regions, i, sectors, keep, before, mid, d.cells);
      }
    }
    r := Done;
  }

  ghost predicate OnlyKept(cs: seq<nat>, keep: seq<bool>, before: nat -> Cell, after: nat -> Cell) {
    forall a: nat :: !Kept(cs, keep, |cs|, Base(a)) ==> after(a) == before(a)
  }

  ghost predicate AllShown(regions: seq<Region>, n: nat, cells: nat -> Cell, g: Geometry)
    requires n <= |regions|
  {
    forall i :: 0 <= i < n ==> Shows(cells, g, regions[i].address, regions[i].data)
  }

  lemma ErasedHolds(g: Geometry, regions: seq<Region>, ls: seq<nat>, sectors: seq<nat>, keep: seq<bool>,
                    before: nat -> Cell, after: nat -> Cell)
    requires ErasedTo(ls, |ls|, before, after)
    requires forall b :: b in ls <==> Kept(Commands(g, sectors), keep, |sectors|, b)
    ensures Holds(g, regions, 0, sectors, keep, before, after)
  {
    assert ls[..|ls|] == ls && regions[..0] == [];
  }

  lemma NothingToDo(g: Geometry, regions: seq<Region>, ls: seq<nat>, sectors: seq<nat>, keep: seq<bool>,
                    cells: nat -> Cell)
    requires ls == [] && forall b :: b in ls <==> Kept(Commands(g, sectors), keep, |sectors|, b)
    ensures Holds(g, regions, |regions|, sectors, keep, cells, cells)
  {
  }
}
