/** The whole-image path: compare, erase and program what differs, verify everything. */
module FlashWrite {
  import opened Common
  import opened FlashMap
  import opened FlashDevice
  import opened FlashErase
  import opened FlashImage
  import opened FlashCollect
  import opened FlashApply
  import opened FlashSame

  datatype Result = Applied | InvalidArg | Rejected | Broken

  method VerifyAll(d: Device, regions: seq<Region>) returns (r: Outcome)
    modifies d`faults, d`fates
    ensures d.faults >= old(d.faults)
    ensures r == Done ==> AllShown(regions, |regions|, d.cells, d.g)
    ensures r == Failed ==> d.faults > old(d.faults) || !AllShown(regions, |regions|, d.cells, d.g)
  {
    for i := 0 to |regions|
      invariant AllShown(regions, i, d.cells, d.g) && d.faults == old(d.faults)
    {
      var sum := d.Checksum(regions[i].address, |regions[i].data|);
      if sum != Some(regions[i].data) {
        if d.faults == old(d.faults) {
          NotShown(d.cells, d.g, regions[i].address, regions[i].data, sum);
        }
        return Failed;
      }
    }
    r := Done;
  }

  // -------------------------------------------------------------------- apply

  /** On success the image reads back.  Unless an error went unseen, rewritten sectors then hold
      it and are blank beside it, and were erased once each.  Whatever happens, at most the
      sectors chosen for rewriting have changed, and every other byte of the flash, skipped
      sectors included, is as it was. */
  method Apply(e: Eraser, regions: seq<Region>, differential: bool)
    returns (res: Result, sectors: seq<nat>, keep: seq<bool>)
    requires GoodImage(regions) && !e.d.sqer
    modifies e, e.d
    ensures e.d.faults >= old(e.d.faults) && e.d.unseen >= old(e.d.unseen) && (res == InvalidArg <==> regions == [])
    ensures res == Rejected <==> regions != [] && TurnedDown(e.d.g, regions)
    ensures res == Broken ==> || e.d.faults > old(e.d.faults) || e.d.unseen > old(e.d.unseen)
                              || !Consistent(Commands(e.d.g, sectors), keep)
    ensures res == Applied && NoneEmpty(regions) && e.d.unseen == old(e.d.unseen) ==>
              Consistent(Commands(e.d.g, sectors), keep)
    ensures res in {InvalidArg, Rejected} ==> e.d.cells == old(e.d.cells) && e.d.erases == old(e.d.erases)
    ensures res !in {InvalidArg, Rejected} ==>
              && Ready(e.d.g, regions, sectors) && |keep| == |sectors|
              && OnlyKept(Commands(e.d.g, sectors), keep, old(e.d.cells), e.d.cells)
              && forall k :: 0 <= k < |keep| && !keep[k] ==>
                   differential && forall r :: r in regions ==> Matches(old(e.d.cells), e.d.g, r, sectors[k])
    ensures res !in {InvalidArg, Rejected} && differential && e.d.faults == old(e.d.faults) ==>
              forall k :: 0 <= k < |keep| && keep[k] ==>
                exists r :: r in regions && !Matches(old(e.d.cells), e.d.g, r, sectors[k])
    ensures res == Applied ==> AllShown(regions, |regions|, e.d.cells, e.d.g)
    ensures res == Applied && e.d.unseen == old(e.d.unseen) ==>
              Holds(e.d.g, regions, |regions|, sectors, keep, old(e.d.cells), e.d.cells)
    ensures old(e.d.erases) <= e.d.erases
    ensures res !in {InvalidArg, Rejected} ==>
              var cs, erased := Commands(e.d.g, Chosen(sectors, keep)), Each(e.d.erases[|old(e.d.erases)|..]);
              && Among(cs, |cs|, erased) && (e.d.unseen == old(e.d.unseen) ==> erased <= cs)
              && (res == Applied && e.d.unseen == old(e.d.unseen) ==> erased == cs)
  {
    var d := e.d;
    sectors, keep := [], [];
    if regions == [] {
      return InvalidArg, sectors, keep;
    }
    var ok;
    ok, sectors := Prepare(d.g, regions);
    if !ok {
      return Rejected, sectors, keep;
    }
    keep := Compare(d, regions, sectors, differential);
    var list := EraseList(d.g, sectors, keep);
    var r := Rewrite(e, regions, sectors, keep, list);
    if r == Done {
      if d.unseen == old(d.unseen) {
        ghost var w := Write(d.g, regions, sectors, keep, old(d.cells), d.cells);
        assert IsWrite(w);
        SkipsAre(w, differential);
        WriteShown(w);
      }
      r := VerifyAll(d, regions);
    }
    res := if r == Done then Applied else Broken;
  }

  /** The sectors that differ: erased, then programmed. */
  method Rewrite(e: Eraser, regions: seq<Region>, sectors: seq<nat>, keep: seq<bool>, list: seq<nat>)
    returns (r: Outcome)
    requires GoodImage(regions) && Ready(e.d.g, regions, sectors) && |keep| == |sectors|
    requires Aligned(list) && list == Chosen(sectors, keep) && !e.d.sqer
    requires forall b :: b in Commands(e.d.g, list) <==> Kept(Commands(e.d.g, sectors), keep, |sectors|, b)
    modifies e, e.d
    ensures e.d.faults >= old(e.d.faults) && e.d.unseen >= old(e.d.unseen)
    ensures r == Done <==> e.d.faults == old(e.d.faults)
    ensures OnlyKept(Commands(e.d.g, sectors), keep, old(e.d.cells), e.d.cells)
    ensures r == Done && e.d.unseen == old(e.d.unseen) ==>
              Holds(e.d.g, regions, |regions|, sectors, keep, old(e.d.cells), e.d.cells)
    ensures old(e.d.erases) <= e.d.erases
    ensures var cs, erased := Commands(e.d.g, list), Each(e.d.erases[|old(e.d.erases)|..]);
            && Among(cs, |cs|, erased) && (e.d.unseen == old(e.d.unseen) ==> erased <= cs)
            && (r == Done && e.d.unseen == old(e.d.unseen) ==> erased == cs)
  {
    ghost var ls, before := Commands(e.d.g, list), e.d.cells;
    r := Done;
    if list == [] {
      NothingToDo(e.d.g, regions, ls, sectors, keep, before);
      return;
    }
    r := e.EraseSectors(list);
    if r == Done {
      if e.d.unseen == old(e.d.unseen) {
        ErasedHolds(e.d.g, regions, ls, sectors, keep, before, e.d.cells);
      }
      r := ProgramAll(e.d, regions, sectors, keep, before);
    }
  }

  lemma WriteShown(w: GoodWrite)
    requires SkipsMatch(w)
    ensures Consistent(Commands(w.g, w.sectors), w.keep) ==> AllShown(w.regions, |w.regions|, w.after, w.g)
    ensures NoneEmpty(w.regions) && AllShown(w.regions, |w.regions|, w.after, w.g)
            ==> Consistent(Commands(w.g, w.sectors), w.keep)
  {
    if Consistent(Commands(w.g, w.sectors), w.keep) {
      ImageShown(w);
    } else if NoneEmpty(w.regions) {
      ShownIffConsistent(w);
    }
  }

  lemma SkipsAre(w: GoodWrite, differential: bool)
    requires forall k :: 0 <= k < |w.keep| && !w.keep[k] ==>
               differential && forall r :: r in w.regions ==> Matches(w.before, w.g, r, w.sectors[k])
    ensures SkipsMatch(w)
  {
  }
}
