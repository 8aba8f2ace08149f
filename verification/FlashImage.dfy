/** What an image means: which bytes it puts where, in which sectors. */
module FlashImage {
  import opened Common
  import opened FlashMap
  import opened FlashDevice
  import opened FlashErase

  datatype Region = Region(address: nat, data: seq<Byte>)

  function End(r: Region): nat { r.address + |r.data| }

  /** Partial pages stay erased. */
  function PaddedByte(data: seq<Byte>, i: nat): Byte { if i < |data| then data[i] else ERASED }

  function Padded(data: seq<Byte>): (p: seq<Byte>)
    ensures |p| == PadUp(|data|) && forall i :: 0 <= i < |p| ==> p[i] == PaddedByte(data, i)
  {
    seq(PadUp(|data|), i requires 0 <= i => PaddedByte(data, i))
  }

  /** The sectors a region has apply look at. */
  predicate Touches(r: Region, s: nat) { s % SECTOR == 0 && Base(r.address) <= s < End(r) }

  /** Whole pages from `base` on, to the command interface. */
  predicate InSpan(r: Region, base: nat, a: nat) { Within(a, base, PadUp(|r.data|)) }

  predicate Increasing(s: seq<nat>) { forall i, j :: 0 <= i < j < |s| ==> s[i] < s[j] }

  /** Every sector a region touches is listed. */
  ghost predicate Placed(r: Region, sectors: seq<nat>) { forall t: nat :: Touches(r, t) ==> t in sectors }

  /** One of the first k sectors of a list, and to be kept. */
  predicate Kept(list: seq<nat>, keep: seq<bool>, k: nat, b: nat) {
    exists m :: 0 <= m < k && m < |list| == |keep| && keep[m] && list[m] == b
  }

  /** The sector of the region's byte that goes to a, the region itself going to `base`. */
  function SectorHere(r: Region, base: nat, a: nat): nat
    requires base <= a
  {
    Base(r.address + (a - base))
  }

  /** It is one of the listed ones. */
  lemma SectorOf(r: Region, base: nat, sectors: seq<nat>, a: nat) returns (m: nat)
    requires Placed(r, sectors) && r.address % PAGE == 0 && InSpan(r, base, a)
    ensures m < |sectors| && Touches(r, sectors[m]) && sectors[m] == SectorHere(r, base, a)
    ensures sectors[m] <= r.address + (a - base) < sectors[m] + SECTOR
  {
    var x := r.address + (a - base);
    PadStays(r, x);
    m :| 0 <= m < |sectors| && sectors[m] == Base(x);
  }

  lemma BaseOf(x: nat, y: nat)
    requires y <= x
    ensures Base(x) % SECTOR == 0 && Base(x) % PAGE == 0 && Base(y) <= Base(x) <= x
  {
  }

  /** A page boundary short of the padding's end is short of the data's. */
  lemma PadUpLeast(n: nat, m: nat)
    requires m % PAGE == 0 && m < PadUp(n)
    ensures m < n
  {
  }

  lemma PagesApart(a: nat, b: nat)
    requires a % PAGE == 0 && b % PAGE == 0 && a <= b
    ensures (b - a) % PAGE == 0
  {
  }

  /** Padding never leaves the last touched sector. */
  lemma PadStays(r: Region, x: nat)
    requires r.address % PAGE == 0 && r.address <= x < r.address + PadUp(|r.data|)
    ensures Touches(r, Base(x))
  {
    BaseOf(x, r.address);
    if Base(x) >= r.address {
      PagesApart(r.address, Base(x));
      PadUpLeast(|r.data|, Base(x) - r.address);
    }
  }

  function PieceLo(r: Region, from: nat): nat { if from > r.address then from else r.address }

  function PieceHi(r: Region, top: nat): nat { if top < End(r) then top else End(r) }

  predicate InRun(sectors: seq<nat>, k: nat, last: nat, b: nat) {
    exists m :: k <= m <= last && m < |sectors| && sectors[m] == b
  }

  lemma InRunAt(sectors: seq<nat>, k: nat, last: nat, m: nat)
    requires Increasing(sectors) && m < |sectors|
    ensures InRun(sectors, k, last, sectors[m]) <==> k <= m <= last
  {
  }

  /** Where the piece of a region from one sector to the end of another lies. */
  lemma PieceShape(r: Region, from: nat, last: nat)
    requires r.address % PAGE == 0 && from % SECTOR == 0 && last % SECTOR == 0 && from <= last
    requires from + SECTOR > r.address && last < End(r)
    ensures
      var lo, top, end := PieceLo(r, from), last + SECTOR, r.address + PadUp(|r.data|);
      && r.address <= lo <= PieceHi(r, top) && lo < top
      && lo + PadUp(PieceHi(r, top) - lo) == if top < end then top else end
  {
    WholePages(from);
    WholePages(last);
    PieceEnds(r, PieceLo(r, from), last + SECTOR);
  }

  /** Which of its bytes are in that run of sectors. */
  lemma PieceSectors(r: Region, base: nat, sectors: seq<nat>, k: nat, last: nat, a: nat)
    requires Placed(r, sectors) && r.address % PAGE == 0 && InSpan(r, base, a)
    requires Aligned(sectors) && Increasing(sectors) && k <= last < |sectors|
    ensures InRun(sectors, k, last, SectorHere(r, base, a))
            <==> sectors[k] <= r.address + (a - base) < sectors[last] + SECTOR
  {
    var m := SectorOf(r, base, sectors, a);
    PieceIndex(sectors, k, last, m, r.address + (a - base));
    InRunAt(sectors, k, last, m);
  }

  /** A region's bytes in sectors k .. last, which are consecutive: one piece, padded to a
      page exactly where the region is. */
  lemma Piece(r: Region, base: nat, sectors: seq<nat>, k: nat, last: nat, a: nat)
    requires Placed(r, sectors) && r.address % PAGE == 0
    requires Aligned(sectors) && Increasing(sectors)
    requires k <= last < |sectors| && sectors[k] + SECTOR > r.address && sectors[last] < End(r)
    ensures
      var lo, hi := PieceLo(r, sectors[k]), PieceHi(r, sectors[last] + SECTOR);
      lo <= hi && (InSpan(r, base, a) && InRun(sectors, k, last, SectorHere(r, base, a)) <==>
                    Within(a, base + (lo - r.address), PadUp(hi - lo)))
  {
    var lo, top := PieceLo(r, sectors[k]), sectors[last] + SECTOR;
    assert sectors[k] <= sectors[last];
    PieceShape(r, sectors[k], sectors[last]);
    var n, p := PadUp(|r.data|), PadUp(PieceHi(r, top) - lo);
    if Within(a, base, n) {
      PieceSectors(r, base, sectors, k, last, a);
      PieceCut(base, r.address, lo, sectors[k], top, n, p, a);
    } else {
      PieceOut(base, r.address, lo, n, p, a);
    }
  }

  lemma PieceCut(base: nat, address: nat, lo: nat, from: nat, top: nat, n: nat, p: nat, a: nat)
    requires Within(a, base, n) && lo == (if from > address then from else address)
    requires lo + p == if top < address + n then top else address + n
    ensures from <= address + (a - base) < top <==> Within(a, base + (lo - address), p)
  {
  }

  lemma PieceOut(base: nat, address: nat, lo: nat, n: nat, p: nat, a: nat)
    requires !Within(a, base, n) && address <= lo && lo + p <= address + n
    ensures !Within(a, base + (lo - address), p)
  {
  }

  lemma PieceIndex(sectors: seq<nat>, k: nat, last: nat, m: nat, x: nat)
    requires Aligned(sectors) && Increasing(sectors) && k <= last < |sectors| && m < |sectors|
    requires sectors[m] <= x < sectors[m] + SECTOR
    ensures k <= m <= last <==> sectors[k] <= x < sectors[last] + SECTOR
  {
    if k <= m <= last {
      assert sectors[k] <= sectors[m] <= sectors[last];
    } else if m < k {
      assert sectors[m] < sectors[k];
    } else {
      assert sectors[last] < sectors[m];
    }
  }

  lemma WholePages(s: nat)
    requires s % SECTOR == 0
    ensures s % PAGE == 0 && (s + SECTOR) % PAGE == 0
  {
  }

  lemma PieceByte(r: Region, base: nat, lo: nat, top: nat, a: nat)
    requires r.address % PAGE == 0 && lo % PAGE == 0 && top % PAGE == 0
    requires r.address <= lo <= PieceHi(r, top) && lo < top
    requires Within(a, base + (lo - r.address), PadUp(PieceHi(r, top) - lo))
    ensures
      PaddedByte(r.data[lo - r.address..PieceHi(r, top) - r.address], a - (base + (lo - r.address)))
      == PaddedByte(r.data, a - base)
  {
    PieceEnds(r, lo, top);
  }

  lemma PieceEnds(r: Region, lo: nat, top: nat)
    requires r.address % PAGE == 0 && lo % PAGE == 0 && top % PAGE == 0
    requires r.address <= lo < top && lo <= End(r)
    ensures
      var end := r.address + PadUp(|r.data|);
      lo + PadUp(PieceHi(r, top) - lo) == if top < end then top else end
  {
    var n := lo - r.address;
    assert n % PAGE == 0;
    PadUpShift(|r.data|, n);
    PadUpExact(top - lo);
  }

  lemma PadUpShift(len: nat, n: nat)
    requires n % PAGE == 0 && n <= len
    ensures PadUp(len) == n + PadUp(len - n)
  {
  }

  lemma PadUpExact(n: nat)
    requires n % PAGE == 0
    ensures PadUp(n) == n
  {
  }
}
