/** Which sectors an image touches, and what comparing one with the target asks. */
module FlashCollect {
  import opened Common
  import opened FlashMap
  import opened FlashDevice
  import opened FlashErase
  import opened FlashImage

  const MAX_SECTORS: nat := 768

  // --------------------------------------------------------------- collecting

  predicate Touched(regions: seq<Region>, s: nat) { exists r :: r in regions && Touches(r, s) }

  /** Exactly the sectors of the first n regions. */
  ghost predicate Collected(regions: seq<Region>, n: nat, sectors: seq<nat>)
    requires n <= |regions|
  {
    && (forall s: nat :: s in sectors <==> Touched(regions[..n], s))
    && Distinct(sectors)
  }

  predicate TooManyAre(regions: seq<Region>, ss: seq<nat>) {
    |ss| > MAX_SECTORS && Distinct(ss) && forall s :: s in ss ==> Touched(regions, s)
  }

  ghost predicate TooMany(regions: seq<Region>) { exists ss: seq<nat> :: TooManyAre(regions, ss) }

  lemma {:induction false} NoMoreThan(ss: seq<nat>, ts: seq<nat>)
    requires Distinct(ss) && forall s :: s in ss ==> s in ts
    ensures |ss| <= |ts|
  {
    if ss != [] {
      var x, n := ss[|ss| - 1], |ss| - 1;
      assert x in ss;
      var i :| 0 <= i < |ts| && ts[i] == x;
      var rest := ts[..i] + ts[i + 1..];
      forall s | s in ss[..n] ensures s in rest {
        assert s in ss && s != x;
        var j :| 0 <= j < |ts| && ts[j] == s;
        assert s == if j < i then rest[j] else rest[j - 1];
      }
      NoMoreThan(ss[..n], rest);
    }
  }

  lemma NotTooMany(regions: seq<Region>, sectors: seq<nat>)
    requires Collected(regions, |regions|, sectors) && |sectors| <= MAX_SECTORS
    ensures !TooMany(regions)
  {
    assert regions[..|regions|] == regions;
    forall ss: seq<nat> | TooManyAre(regions, ss) ensures false {
      NoMoreThan(ss, sectors);
    }
  }

  /** Region by region, sector by sector, each sector once; too many of them is an error. */
  method Collect(regions: seq<Region>) returns (ok: bool, sectors: seq<nat>)
    ensures ok ==> Collected(regions, |regions|, sectors) && |sectors| <= MAX_SECTORS
    ensures !ok <==> TooMany(regions)
  {
    sectors := [];
    for i := 0 to |regions|
      invariant Collected(regions, i, sectors) && |sectors| <= MAX_SECTORS
    {
      var r := regions[i];
      ghost var before := sectors;
      var at := Base(r.address);
      while at < End(r)
        invariant at % SECTOR == 0 && at >= Base(r.address) && |sectors| <= MAX_SECTORS && Distinct(sectors)
        invariant forall s: nat :: s in sectors <==> s in before || (Touches(r, s) && s < at)
        decreases End(r) - at
      {
        if at !in sectors {
          if |sectors| == MAX_SECTORS {
            ok := false;
            TouchedSome(regions, i, before, sectors, at);
            assert TooManyAre(regions, sectors + [at]);
            return;
          }
          sectors := sectors + [at];
        }
        at := at + SECTOR;
      }
      TouchedMore(regions, i, before, sectors);
    }
    assert regions[..|regions|] == regions;
    NotTooMany(regions, sectors);
    ok := true;
  }

  lemma TouchedSome(regions: seq<Region>, i: nat, before: seq<nat>, sectors: seq<nat>, at: nat)
    requires i < |regions| && Collected(regions, i, before) && Touches(regions[i], at)
    requires forall s :: s in sectors ==> s in before || Touches(regions[i], s)
    ensures Touched(regions, at) && forall s :: s in sectors ==> Touched(regions, s)
  {
    forall s | s in sectors ensures Touched(regions, s) {
      if s in before {
        assert Touched(regions[..i], s);
      }
    }
  }

  lemma TouchedMore(regions: seq<Region>, i: nat, before: seq<nat>, sectors: seq<nat>)
    requires i < |regions| && Collected(regions, i, before) && Distinct(sectors)
    requires forall s: nat :: s in sectors <==> s in before || Touches(regions[i], s)
    ensures Collected(regions, i + 1, sectors)
  {
    assert regions[..i + 1] == regions[..i] + [regions[i]];
  }

  // ------------------------------------------------------------------ sorting

  function Itself(x: nat): nat { x }

  function Sorted(s: seq<nat>): seq<nat> { SortBy(s, Itself) }

  lemma SortedKeeps(s: seq<nat>)
    requires Distinct(s)
    ensures Increasing(Sorted(s)) && |Sorted(s)| == |s| && forall y :: y in Sorted(s) <==> y in s
  {
    SortKeeps(s, Itself);
    assert forall i :: 0 <= i < |Sorted(s)| ==> Itself(Sorted(s)[i]) == Sorted(s)[i];
  }

  // ---------------------------------------------------------------- comparing

  /** What sector_differs takes for the erased value: not what the programming pads with. */
  const COMPARE_PAD: Byte := 0x00

  function EndPad(hi: nat): (p: nat)
    ensures p < PAGE && (hi + p) % PAGE == 0
  {
    (PAGE - hi % PAGE) % PAGE
  }

  /** The bytes one region should show in a sector, by the comparison's lights. */
  function Expected(r: Region, s: nat): (e: seq<Byte>)
    requires PieceLo(r, s) <= PieceHi(r, s + SECTOR)
  {
    var lo, hi := PieceLo(r, s), PieceHi(r, s + SECTOR);
    r.data[lo - r.address..hi - r.address]
    + if hi == End(r) then seq(EndPad(hi), _ => COMPARE_PAD) else []
  }

  predicate Overlaps(r: Region, s: nat) { PieceLo(r, s) < PieceHi(r, s + SECTOR) }

  predicate Matches(cells: nat -> Cell, g: Geometry, r: Region, s: nat) {
    Overlaps(r, s) ==> Shows(cells, g, ToPhysical(PieceLo(r, s)), Expected(r, s))
  }

  /** False exactly when every region's bytes match, unless a checksum failed to run. */
  method SectorDiffers(d: Device, s: nat, regions: seq<Region>) returns (differs: bool)
    modifies d`faults, d`fates
    ensures d.faults >= old(d.faults)
    ensures !differs ==> forall r :: r in regions ==> Matches(d.cells, d.g, r, s)
    ensures differs && d.faults == old(d.faults) ==> exists r :: r in regions && !Matches(d.cells, d.g, r, s)
  {
    for i := 0 to |regions|
      invariant forall j :: 0 <= j < i ==> Matches(d.cells, d.g, regions[j], s)
      invariant d.faults == old(d.faults)
    {
      var r := regions[i];
      var lo, hi := PieceLo(r, s), PieceHi(r, s + SECTOR);
      if lo < hi {
        var wanted := Expected(r, s);
        var actual := d.Checksum(ToPhysical(lo), |wanted|);
        if actual != Some(wanted) {
          if d.faults == old(d.faults) {
            NotShown(d.cells, d.g, ToPhysical(lo), wanted, actual);
            assert !Matches(d.cells, d.g, regions[i], s);
          }
          return true;
        }
      }
    }
    differs := false;
  }

  lemma NotShown(cells: nat -> Cell, g: Geometry, address: nat, wanted: seq<Byte>, actual: Option<seq<Byte>>)
    requires actual != Some(wanted)
    requires actual.Some? ==> Shows(cells, g, address, actual.value) && |actual.value| == |wanted|
    requires actual.None? ==> exists x: nat :: Within(x, address, |wanted|) && cells(Cmd(g, x)) == Blank
    ensures !Shows(cells, g, address, wanted)
  {
    if actual.Some? {
      var i := FirstDifference(wanted, actual.value);
      Differs(cells, g, address, wanted, i);
    } else {
      var x: nat :| Within(x, address, |wanted|) && cells(Cmd(g, x)) == Blank;
      Differs(cells, g, address, wanted, x - address);
    }
  }

  lemma Differs(cells: nat -> Cell, g: Geometry, address: nat, wanted: seq<Byte>, i: nat)
    requires i < |wanted| && cells(Cmd(g, address + i)) != Data(wanted[i])
    ensures !Shows(cells, g, address, wanted)
  {
  }

  lemma FirstDifference(a: seq<Byte>, b: seq<Byte>) returns (i: nat)
    requires |a| == |b| && a != b
    ensures i < |a| && a[i] != b[i]
  {
    i := 0;
    while i < |a| && a[i] == b[i]
      invariant i <= |a| && a[..i] == b[..i]
    {
      i := i + 1;
    }
    assert a[..|a|] == a && b[..|b|] == b;
  }
}
