/** Program flash addresses: the cached alias, the populated ranges, and the address swap
    that reads see and the command interface does not. */
module FlashMap {

  const PAGE: nat := 32
  const SECTOR: nat := 0x4000
  const PFLASH_BASE: nat := 0xA000_0000
  const PFLASH_CACHED: nat := 0x8000_0000
  const PFLASH_WINDOW: nat := 0x0100_0000
  const SWAP_GROUP_LOW: nat := 0xA000_0000
  const SWAP_GROUP_HIGH: nat := 0xA060_0000
  const SWAP_STRIDE: nat := SWAP_GROUP_HIGH - SWAP_GROUP_LOW
  const PHYSICAL_SECTOR: nat := 0x10_0000

  /** By SCU_CHIPID.FSIZE: ten megabytes in one range, or eight in two. */
  datatype Layout = Contiguous10 | Split8

  datatype Geometry = Geometry(layout: Layout, swap: bool)

  function ToPhysical(a: nat): nat {
    if PFLASH_CACHED <= a < PFLASH_CACHED + PFLASH_WINDOW then a - PFLASH_CACHED + PFLASH_BASE else a
  }

  /** The UCBs and the configuration store. */
  predicate IsNever(a: nat) {
    0xAF40_0000 <= a < 0xAF40_6000 || 0xAF80_0000 <= a < 0xAF81_0000
  }

  predicate InLayout(layout: Layout, a: nat) {
    match layout
    case Contiguous10 => 0xA000_0000 <= a < 0xA0A0_0000
    case Split8 => 0xA000_0000 <= a < 0xA040_0000 || 0xA060_0000 <= a < 0xA0A0_0000
  }

  predicate IsProgramFlash(g: Geometry, a: nat) {
    var p := ToPhysical(a);
    !IsNever(p) && InLayout(g.layout, p)
  }

  /** Where the command interface finds what a read of `a` shows. */
  function Cmd(g: Geometry, a: nat): nat {
    var p := ToPhysical(a);
    if !g.swap then p
    else if SWAP_GROUP_LOW <= p < SWAP_GROUP_HIGH then p + SWAP_STRIDE
    else if SWAP_GROUP_HIGH <= p < SWAP_GROUP_HIGH + SWAP_STRIDE then p - SWAP_STRIDE
    else p
  }

  /** What apply, erase and program check of a sector before touching it. */
  predicate Permitted(g: Geometry, a: nat) { IsProgramFlash(g, Cmd(g, a)) }

  /** The sector an address lies in. */
  function Base(a: nat): nat { a - a % SECTOR }

  /** The next page boundary. */
  function PadUp(n: nat): (r: nat)
    ensures n <= r < n + PAGE && r % PAGE == 0
  {
    (n + PAGE - 1) / PAGE * PAGE
  }

  // ------------------------------------------------------------- the translation

  /** Twice is the physical address: on physical addresses the map is its own inverse, so
      no two of them share a command address. */
  lemma Involution(g: Geometry, a: nat)
    ensures Cmd(g, Cmd(g, a)) == ToPhysical(a)
    ensures ToPhysical(Cmd(g, a)) == Cmd(g, a) == Cmd(g, ToPhysical(a))
  {
  }

  lemma Injective(g: Geometry, a: nat, b: nat)
    ensures Cmd(g, a) == Cmd(g, b) <==> ToPhysical(a) == ToPhysical(b)
  {
    Involution(g, a);
    Involution(g, b);
  }

  /** A sector is permitted or not as a whole, and lands whole on a sector. */
  lemma SectorWhole(g: Geometry, a: nat)
    ensures Cmd(g, a) == Cmd(g, Base(a)) + a % SECTOR && Base(Cmd(g, a)) == Cmd(g, Base(a))
    ensures Permitted(g, a) <==> Permitted(g, Base(a))
  {
  }

  /** The addresses that may be erased and programmed: those populated, or, with the banks
      exchanged, those whose counterpart is. */
  lemma PermittedAddresses(g: Geometry, a: nat)
    ensures
      var p := ToPhysical(a);
      Permitted(g, a) <==>
        || 0xA000_0000 <= p < 0xA040_0000 || 0xA060_0000 <= p < 0xA0A0_0000
        || (g == Geometry(Contiguous10, false) && 0xA040_0000 <= p < 0xA060_0000)
        || (g == Geometry(Contiguous10, true) && 0xA0A0_0000 <= p < 0xA0C0_0000)
  {
  }

  /** Exchanged, each bank's bytes are found where the other's are, in order. */
  lemma BanksExchanged(g: Geometry, i: nat)
    requires i < 0x60_0000
    ensures Cmd(g, 0xA000_0000 + i) == (if g.swap then 0xA060_0000 else 0xA000_0000) + i
    ensures Cmd(g, 0xA060_0000 + i) == (if g.swap then 0xA000_0000 else 0xA060_0000) + i
    ensures Cmd(g, 0x8000_0000 + i) == Cmd(g, 0xA000_0000 + i) && Cmd(g, 0x8060_0000 + i) == Cmd(g, 0xA060_0000 + i)
  {
  }

  /** Permitted neighbours are neighbours to the command interface too: no run of them
      crosses from one bank group to the other. */
  lemma NeighboursStay(g: Geometry, s: nat)
    requires s % SECTOR == 0 && Permitted(g, s) && Permitted(g, s + SECTOR)
    ensures Cmd(g, s + SECTOR) == Cmd(g, s) + SECTOR
  {
  }

  predicate AllPermitted(g: Geometry, lo: nat, hi: nat) {
    forall s :: s % SECTOR == 0 && Base(lo) <= s < hi ==> Permitted(g, s)
  }

  lemma {:induction false} RunTranslates(g: Geometry, first: nat, n: nat)
    requires first % SECTOR == 0
    requires forall j :: 0 <= j <= n ==> Permitted(g, first + j * SECTOR)
    ensures Cmd(g, first + n * SECTOR) == Cmd(g, first) + n * SECTOR
  {
    if n > 0 {
      RunTranslates(g, first, n - 1);
      assert Permitted(g, first + (n - 1) * SECTOR);
      NeighboursStay(g, first + (n - 1) * SECTOR);
    }
  }

  /** Translating the start of a range whose every sector is permitted translates every
      byte of it, up to the end of its last sector. */
  lemma RangeTranslates(g: Geometry, lo: nat, hi: nat, a: nat)
    requires AllPermitted(g, lo, hi) && lo <= a && Base(a) < hi
    ensures Cmd(g, a) == Cmd(g, lo) + (a - lo)
  {
    var first, n := Base(lo), (Base(a) - Base(lo)) / SECTOR;
    assert Base(a) == first + n * SECTOR;
    forall j | 0 <= j <= n ensures Permitted(g, first + j * SECTOR) {
    }
    RunTranslates(g, first, n);
    SectorWhole(g, lo);
    SectorWhole(g, a);
  }

  /** The check is what makes it so: one sector short of it, a range does cross. */
  lemma CrossingNeedsTheCheck()
    ensures
      var g, s := Geometry(Contiguous10, true), SWAP_GROUP_HIGH - SECTOR;
      && Cmd(g, s + SECTOR) != Cmd(g, s) + SECTOR
      && Permitted(g, s + SECTOR) && !Permitted(g, s)
  {
  }
}
