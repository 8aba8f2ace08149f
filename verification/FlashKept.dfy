/** Programming the parts of a region that lie in the sectors to be rewritten. */
module FlashKept {
  import opened Common
  import opened FlashMap
  import opened FlashDevice
  import opened FlashErase
  import opened FlashImage
  import opened FlashProgram

  /** A byte of the region in one of the first k sectors, that sector being kept. */
  predicate Hit(r: Region, base: nat, sectors: seq<nat>, keep: seq<bool>, k: nat, a: nat) {
    InSpan(r, base, a) && Kept(sectors, keep, k, SectorHere(r, base, a))
  }

  ghost predicate KeptTo(r: Region, base: nat, sectors: seq<nat>, keep: seq<bool>, k: nat,
                         before: nat -> Cell, after: nat -> Cell) {
    forall a: nat ::
      after(a) == if Hit(r, base, sectors, keep, k, a) then Data(PaddedByte(r.data, a - base)) else before(a)
  }

  ghost predicate OnlyHits(r: Region, base: nat, sectors: seq<nat>, keep: seq<bool>,
                           before: nat -> Cell, after: nat -> Cell) {
    forall a: nat :: !Hit(r, base, sectors, keep, |sectors|, a) ==> after(a) == before(a)
  }

  ghost predicate HitsBlank(r: Region, base: nat, sectors: seq<nat>, keep: seq<bool>, cells: nat -> Cell) {
    forall a: nat :: Hit(r, base, sectors, keep, |sectors|, a) ==> cells(a) == Blank
  }

  /** A sorted list of sectors, a region's among them, all of them permitted. */
  ghost predicate Laid(g: Geometry, r: Region, base: nat, sectors: seq<nat>) {
    && Aligned(sectors) && Increasing(sectors)
    && r.address % PAGE == 0 && base == Cmd(g, r.address) && Placed(r, sectors)
    && AllPermitted(g, r.address, End(r))
  }

  lemma SkipStep(r: Region, base: nat, sectors: seq<nat>, keep: seq<bool>, k: nat, a: nat)
    requires Placed(r, sectors) && r.address % PAGE == 0
    requires k < |sectors| == |keep|
    requires !keep[k] || sectors[k] + SECTOR <= r.address || sectors[k] >= End(r)
    ensures Hit(r, base, sectors, keep, k + 1, a) <==> Hit(r, base, sectors, keep, k, a)
  {
    if Hit(r, base, sectors, keep, k + 1, a) && keep[k] && sectors[k] == SectorHere(r, base, a) {
      var m := SectorOf(r, base, sectors, a);
      assert false;
    }
  }

  lemma RunStep(r: Region, base: nat, sectors: seq<nat>, keep: seq<bool>, k: nat, last: nat, a: nat)
    requires Placed(r, sectors) && r.address % PAGE == 0
    requires Aligned(sectors) && Increasing(sectors)
    requires k <= last < |sectors| == |keep| && forall m :: k <= m <= last ==> keep[m]
    requires sectors[k] + SECTOR > r.address && sectors[last] < End(r)
    ensures
      var lo, hi := PieceLo(r, sectors[k]), PieceHi(r, sectors[last] + SECTOR);
      && lo <= hi
      && (Within(a, base + (lo - r.address), PadUp(hi - lo)) ==> Hit(r, base, sectors, keep, |sectors|, a))
      && (Hit(r, base, sectors, keep, last + 1, a) <==>
            Hit(r, base, sectors, keep, k, a) || Within(a, base + (lo - r.address), PadUp(hi - lo)))
  {
    Piece(r, base, sectors, k, last, a);
    if InSpan(r, base, a) {
      RunKept(sectors, keep, k, last, SectorHere(r, base, a));
    }
  }

  lemma RunByte(r: Region, base: nat, from: nat, last: nat, a: nat)
    requires r.address % PAGE == 0 && from % SECTOR == 0 && last % SECTOR == 0 && from <= last
    requires from + SECTOR > r.address && last < End(r)
    ensures
      var lo, hi := PieceLo(r, from), PieceHi(r, last + SECTOR);
      && r.address <= lo <= hi <= End(r)
      && (Within(a, base + (lo - r.address), PadUp(hi - lo)) ==>
            PaddedByte(r.data[lo - r.address..hi - r.address], a - (base + (lo - r.address)))
            == PaddedByte(r.data, a - base))
  {
    var lo := PieceLo(r, from);
    WholePages(from);
    WholePages(last);
    if Within(a, base + (lo - r.address), PadUp(PieceHi(r, last + SECTOR) - lo)) {
      PieceByte(r, base, lo, last + SECTOR, a);
    }
  }

  lemma RunKept(sectors: seq<nat>, keep: seq<bool>, k: nat, last: nat, b: nat)
    requires k <= last < |sectors| == |keep| && forall m :: k <= m <= last ==> keep[m]
    ensures Kept(sectors, keep, last + 1, b) <==> Kept(sectors, keep, k, b) || InRun(sectors, k, last, b)
    ensures InRun(sectors, k, last, b) ==> Kept(sectors, keep, |sectors|, b)
  {
  }

  /** The region's own bytes, n of them from `at` on. */
  ghost predicate Landed(r: Region, base: nat, at: nat, n: nat, before: nat -> Cell, after: nat -> Cell)
    requires base <= at
  {
    forall a: nat :: after(a) == if Within(a, at, n) then Data(PaddedByte(r.data, a - base)) else before(a)
  }

  lemma PieceLands(r: Region, base: nat, from: nat, last: nat, before: nat -> Cell, after: nat -> Cell)
    requires r.address % PAGE == 0 && from % SECTOR == 0 && last % SECTOR == 0 && from <= last
    requires from + SECTOR > r.address && last < End(r)
    requires
      var lo, hi := PieceLo(r, from), PieceHi(r, last + SECTOR);
      && r.address <= lo <= hi <= End(r)
      && ProgrammedTo(r.data[lo - r.address..hi - r.address], base + (lo - r.address), PadUp(hi - lo), before, after)
    ensures
      var lo, hi := PieceLo(r, from), PieceHi(r, last + SECTOR);
      Landed(r, base, base + (lo - r.address), PadUp(hi - lo), before, after)
  {
    var lo, hi := PieceLo(r, from), PieceHi(r, last + SECTOR);
    forall a: nat
      ensures after(a) == if Within(a, base + (lo - r.address), PadUp(hi - lo)) then Data(PaddedByte(r.data, a - base))
                          else before(a)
    {
      RunByte(r, base, from, last, a);
    }
  }

  /** A run's piece is the region's, in sectors to be rewritten. */
  lemma RunInsideHits(r: Region, base: nat, sectors: seq<nat>, keep: seq<bool>, k: nat, last: nat,
                      before: nat -> Cell, mid: nat -> Cell, after: nat -> Cell)
    requires Placed(r, sectors) && r.address % PAGE == 0
    requires Aligned(sectors) && Increasing(sectors)
    requires k <= last < |sectors| == |keep| && forall m :: k <= m <= last ==> keep[m]
    requires sectors[k] + SECTOR > r.address && sectors[last] < End(r)
    requires OnlyHits(r, base, sectors, keep, before, mid)
    requires
      var lo, hi := PieceLo(r, sectors[k]), PieceHi(r, sectors[last] + SECTOR);
      lo <= hi && OutsideKept(base + (lo - r.address), PadUp(hi - lo), mid, after)
    ensures OnlyHits(r, base, sectors, keep, before, after)
  {
    forall a: nat | !Hit(r, base, sectors, keep, |sectors|, a) ensures after(a) == before(a) {
      RunStep(r, base, sectors, keep, k, last, a);
    }
  }

  /** One programmed run takes the region's state from sector k to sector last + 1. */
  lemma RunProgrammed(r: Region, base: nat, sectors: seq<nat>, keep: seq<bool>, k: nat, last: nat,
                      before: nat -> Cell, mid: nat -> Cell, after: nat -> Cell)
    requires Placed(r, sectors) && r.address % PAGE == 0
    requires Aligned(sectors) && Increasing(sectors)
    requires k <= last < |sectors| == |keep| && forall m :: k <= m <= last ==> keep[m]
    requires sectors[k] + SECTOR > r.address && sectors[last] < End(r)
    requires KeptTo(r, base, sectors, keep, k, before, mid)
    requires
      var lo, hi := PieceLo(r, sectors[k]), PieceHi(r, sectors[last] + SECTOR);
      && r.address <= lo <= hi <= End(r)
      && ProgrammedTo(r.data[lo - r.address..hi - r.address], base + (lo - r.address), PadUp(hi - lo), mid, after)
    ensures KeptTo(r, base, sectors, keep, last + 1, before, after)
  {
    assert sectors[k] <= sectors[last];
    PieceLands(r, base, sectors[k], sectors[last], mid, after);
    forall a: nat
      ensures after(a) == if Hit(r, base, sectors, keep, last + 1, a) then Data(PaddedByte(r.data, a - base))
                          else before(a)
    {
      RunStep(r, base, sectors, keep, k, last, a);
    }
  }

  /** The last of the consecutive kept sectors from k on. */
  method KeptRun(sectors: seq<nat>, keep: seq<bool>, k: nat, end: nat) returns (last: nat)
    requires k < |sectors| == |keep| && keep[k] && sectors[k] < end
    ensures k <= last < |sectors| && sectors[last] < end
    ensures forall m :: k <= m <= last ==> keep[m]
    ensures forall m :: k <= m < last ==> sectors[m + 1] == sectors[m] + SECTOR
    ensures last + 1 < |sectors| && keep[last + 1] && sectors[last + 1] < end ==>
              sectors[last + 1] != sectors[last] + SECTOR
  {
    last := k;
    while last + 1 < |sectors| && keep[last + 1] && sectors[last + 1] == sectors[last] + SECTOR
          && sectors[last + 1] < end
      invariant k <= last < |sectors| && sectors[last] < end
      invariant forall m :: k <= m <= last ==> keep[m]
      invariant forall m :: k <= m < last ==> sectors[m + 1] == sectors[m] + SECTOR
    {
      last := last + 1;
    }
  }

  /** Where programming a region stands after k sectors; if no error went unseen, what could be
      programmed is. */
  ghost predicate KeptSoFar(r: Region, base: nat, sectors: seq<nat>, keep: seq<bool>, k: nat,
                            before: nat -> Cell, cells: nat -> Cell, quiet: bool)
  {
    && OnlyHits(r, base, sectors, keep, before, cells)
    && (quiet && HitsBlank(r, base, sectors, keep, before) ==> KeptTo(r, base, sectors, keep, k, before, cells))
  }

  lemma RunSoFar(r: Region, base: nat, sectors: seq<nat>, keep: seq<bool>, k: nat, last: nat,
                 piece: seq<Byte>, at: nat, before: nat -> Cell, mid: nat -> Cell, after: nat -> Cell, quiet: bool)
    requires Placed(r, sectors) && r.address % PAGE == 0
    requires Aligned(sectors) && Increasing(sectors)
    requires k <= last < |sectors| == |keep| && forall m :: k <= m <= last ==> keep[m]
    requires sectors[k] + SECTOR > r.address && sectors[last] < End(r)
    requires KeptSoFar(r, base, sectors, keep, k, before, mid, quiet)
    requires
      var lo, hi := PieceLo(r, sectors[k]), PieceHi(r, sectors[last] + SECTOR);
      && r.address <= lo <= hi <= End(r)
      && piece == r.data[lo - r.address..hi - r.address] && at == base + (lo - r.address)
    requires PieceDone(piece, at, mid, after, quiet)
    ensures KeptSoFar(r, base, sectors, keep, last + 1, before, after, quiet)
  {
    RunInsideHits(r, base, sectors, keep, k, last, before, mid, after);
    if quiet && HitsBlank(r, base, sectors, keep, before) {
      RunBlank(r, base, sectors, keep, k, last, before, mid);
      RunProgrammed(r, base, sectors, keep, k, last, before, mid, after);
    }
  }

  /** Whatever the device does, only the region's bytes in sectors to be rewritten change; if
      those were blank, no error went unseen and this ends well, each holds its value. */
  method ProgramKept(d: Device, r: Region, sectors: seq<nat>, keep: seq<bool>) returns (res: Outcome)
    requires |keep| == |sectors| && Laid(d.g, r, Cmd(d.g, r.address), sectors)
    modifies d
    ensures d.erases == old(d.erases) && d.sqer == old(d.sqer) && d.unseen >= old(d.unseen)
    ensures d.faults >= old(d.faults) && (res == Done <==> d.faults == old(d.faults))
    ensures
      var base := Cmd(d.g, r.address);
      && OnlyHits(r, base, sectors, keep, old(d.cells), d.cells)
      && (res == Done && d.unseen == old(d.unseen) && HitsBlank(r, base, sectors, keep, old(d.cells)) ==>
            KeptTo(r, base, sectors, keep, |sectors|, old(d.cells), d.cells))
  {
    ghost var base := Cmd(d.g, r.address);
    var end := r.address + |r.data|;
    var k := 0;
    while k < |sectors|
      invariant k <= |sectors|
      invariant KeptSoFar(r, base, sectors, keep, k, old(d.cells), d.cells, d.unseen == old(d.unseen))
      invariant d.erases == old(d.erases) && d.sqer == old(d.sqer) && d.faults == old(d.faults)
      invariant d.unseen >= old(d.unseen)
    {
      if !keep[k] || sectors[k] + SECTOR <= r.address || sectors[k] >= end {
        forall a: nat ensures Hit(r, base, sectors, keep, k + 1, a) <==> Hit(r, base, sectors, keep, k, a) {
          SkipStep(r, base, sectors, keep, k, a);
        }
        k := k + 1;
      } else {
        var last := KeptRun(sectors, keep, k, end);
        res := ProgramRun(d, r, sectors, keep, base, k, last, old(d.cells), old(d.unseen));
        if res == Failed {
          return;
        }
        k := last + 1;
      }
    }
    res := Done;
  }

  method ProgramRun(d: Device, r: Region, sectors: seq<nat>, ghost keep: seq<bool>,
                    ghost base: nat, k: nat, last: nat, ghost before: nat -> Cell, ghost unseen0: nat)
    returns (res: Outcome)
    requires |keep| == |sectors| && Laid(d.g, r, base, sectors) && d.unseen >= unseen0
    requires k <= last < |sectors| && forall m :: k <= m <= last ==> keep[m]
    requires sectors[k] + SECTOR > r.address && sectors[last] < End(r)
    requires KeptSoFar(r, base, sectors, keep, k, before, d.cells, d.unseen == unseen0)
    modifies d
    ensures d.erases == old(d.erases) && d.sqer == old(d.sqer) && d.unseen >= old(d.unseen)
    ensures d.faults >= old(d.faults) && (res == Done <==> d.faults == old(d.faults))
    ensures KeptSoFar(r, base, sectors, keep, last + 1, before, d.cells, res == Done && d.unseen == unseen0)
  {
    ghost var mid := d.cells;
    assert sectors[k] <= sectors[last];
    var lo := if sectors[k] > r.address then sectors[k] else r.address;
    var top := sectors[last] + SECTOR;
    var hi := if top < End(r) then top else End(r);
    var piece := r.data[lo - r.address..hi - r.address];
    RunReady(d.g, r, base, sectors, k, last);
    res := ProgramPiece(d, lo, piece);
    RunSoFar(r, base, sectors, keep, k, last, piece, Cmd(d.g, lo), before, mid, d.cells,
             res == Done && d.unseen == unseen0);
  }

  /** The piece to program is permitted throughout and translates with the region. */
  lemma RunReady(g: Geometry, r: Region, base: nat, sectors: seq<nat>, k: nat, last: nat)
    requires Laid(g, r, base, sectors) && k <= last < |sectors|
    requires sectors[k] + SECTOR > r.address && sectors[last] < End(r)
    ensures
      var lo, hi := PieceLo(r, sectors[k]), PieceHi(r, sectors[last] + SECTOR);
      lo <= hi && AllPermitted(g, lo, hi) && Cmd(g, lo) == base + (lo - r.address) && lo % PAGE == 0
  {
    var lo := PieceLo(r, sectors[k]);
    assert sectors[k] <= sectors[last];
    WholePages(sectors[k]);
    if lo > r.address {
      RangeTranslates(g, r.address, End(r), lo);
    }
  }

  /** It is still blank. */
  lemma RunBlank(r: Region, base: nat, sectors: seq<nat>, keep: seq<bool>, k: nat, last: nat,
                 before: nat -> Cell, cells: nat -> Cell)
    requires Placed(r, sectors) && r.address % PAGE == 0
    requires Aligned(sectors) && Increasing(sectors)
    requires k <= last < |sectors| == |keep| && forall m :: k <= m <= last ==> keep[m]
    requires sectors[k] + SECTOR > r.address && sectors[last] < End(r)
    requires HitsBlank(r, base, sectors, keep, before) && KeptTo(r, base, sectors, keep, k, before, cells)
    ensures
      var lo, hi := PieceLo(r, sectors[k]), PieceHi(r, sectors[last] + SECTOR);
      lo <= hi && AllBlank(base + (lo - r.address), PadUp(hi - lo), cells)
  {
    var lo, hi := PieceLo(r, sectors[k]), PieceHi(r, sectors[last] + SECTOR);
    assert sectors[k] <= sectors[last];
    forall a: nat | Within(a, base + (lo - r.address), PadUp(hi - lo)) ensures cells(a) == Blank {
      RunStep(r, base, sectors, keep, k, last, a);
      NotYet(r, base, sectors, keep, k, last, a);
    }
  }

  lemma NotYet(r: Region, base: nat, sectors: seq<nat>, keep: seq<bool>, k: nat, last: nat, a: nat)
    requires Placed(r, sectors) && r.address % PAGE == 0
    requires Aligned(sectors) && Increasing(sectors)
    requires k <= last < |sectors| == |keep| && sectors[k] + SECTOR > r.address && sectors[last] < End(r)
    requires
      var lo, hi := PieceLo(r, sectors[k]), PieceHi(r, sectors[last] + SECTOR);
      Within(a, base + (lo - r.address), PadUp(hi - lo))
    ensures !Hit(r, base, sectors, keep, k, a)
  {
    Piece(r, base, sectors, k, last, a);
    var m :| k <= m <= last && m < |sectors| && sectors[m] == SectorHere(r, base, a);
  }
}
