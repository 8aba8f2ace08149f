/** GDB's `load`: erase and write requests collected sector by sector, then one plan. */
module GdbLoad {
  import opened Common
  import opened FlashMap
  import opened FlashDevice
  import opened FlashImage
  import opened FlashCollect
  import opened FlashApply

  const LOAD_MAX: nat := 768

  /** A sector asked for: what to write there, or only to erase it. */
  datatype Entry = Entry(address: nat, data: Option<seq<Byte>>)

  function BlankSector(): (s: seq<Byte>)
    ensures |s| == SECTOR
  {
    seq(SECTOR, _ => ERASED)
  }

  predicate EntryOk(e: Entry) {
    && e.address % SECTOR == 0 && ToPhysical(e.address) == e.address
    && (e.data.Some? ==> |e.data.value| == SECTOR)
  }

  predicate Tidy(load: seq<Entry>) {
    && |load| <= LOAD_MAX && (forall i :: 0 <= i < |load| ==> EntryOk(load[i]))
    && (forall i, j :: 0 <= i < j < |load| ==> load[i].address != load[j].address)
  }

  /** The collection as a map from sectors. */
  function AsMap(load: seq<Entry>): map<nat, Option<seq<Byte>>> {
    if load == [] then map[] else AsMap(load[..|load| - 1])[load[|load| - 1].address := load[|load| - 1].data]
  }

  lemma {:induction false} AsMapIs(load: seq<Entry>)
    requires forall i, j :: 0 <= i < j < |load| ==> load[i].address != load[j].address
    ensures forall i :: 0 <= i < |load| ==>
              load[i].address in AsMap(load) && AsMap(load)[load[i].address] == load[i].data
    ensures forall a :: a in AsMap(load) ==> exists i :: 0 <= i < |load| && load[i].address == a
  {
    if load != [] {
      AsMapIs(load[..|load| - 1]);
      forall a | a in AsMap(load) ensures exists i :: 0 <= i < |load| && load[i].address == a {
        if a in AsMap(load[..|load| - 1]) {
          var i :| 0 <= i < |load| - 1 && load[..|load| - 1][i].address == a;
          assert load[i].address == a;
        } else {
          assert load[|load| - 1].address == a;
        }
      }
    }
  }

  /** Two collections of the same sectors with the same contents, in whatever order. */
  lemma {:induction false} SameEntriesSameMap(a: seq<Entry>, b: seq<Entry>)
    requires forall i, j :: 0 <= i < j < |a| ==> a[i].address != a[j].address
    requires forall i, j :: 0 <= i < j < |b| ==> b[i].address != b[j].address
    requires forall e :: e in a <==> e in b
    ensures AsMap(a) == AsMap(b)
  {
    AsMapIs(a);
    AsMapIs(b);
    forall x ensures x in AsMap(a) <==> x in AsMap(b) {
      if x in AsMap(a) {
        var i :| 0 <= i < |a| && a[i].address == x;
        assert a[i] in b;
      }
      if x in AsMap(b) {
        var i :| 0 <= i < |b| && b[i].address == x;
        assert b[i] in a;
      }
    }
    forall x | x in AsMap(a) ensures AsMap(a)[x] == AsMap(b)[x] {
      var i :| 0 <= i < |a| && a[i].address == x;
      assert a[i] in b;
    }
  }

  lemma {:induction false} MapUpdated(load: seq<Entry>, i: nat, data: Option<seq<Byte>>)
    requires i < |load| && forall i, j :: 0 <= i < j < |load| ==> load[i].address != load[j].address
    ensures AsMap(load[i := Entry(load[i].address, data)]) == AsMap(load)[load[i].address := data]
    decreases |load|
  {
    var n, b := |load| - 1, load[i := Entry(load[i].address, data)];
    if i == n {
      assert b[..n] == load[..n];
    } else {
      MapUpdated(load[..n], i, data);
      assert b[..n] == load[..n][i := Entry(load[i].address, data)];
    }
  }

  // ---------------------------------------------------------------- what is asked

  function SectorAt(address: nat): nat { Base(ToPhysical(address)) }

  /** Bytes from a sector's start over what it held, or over the erased value. */
  function Overlaid(was: Option<seq<Byte>>, bytes: seq<Byte>): (s: seq<Byte>)
    requires |bytes| <= SECTOR && (was.Some? ==> |was.value| == SECTOR)
    ensures |s| == SECTOR
  {
    bytes + (if was.Some? then was.value else BlankSector())[|bytes|..]
  }

  /** An erase request adds its sectors, and takes nothing from one already written. */
  function ErasedIn(m: map<nat, Option<seq<Byte>>>, a: nat): map<nat, Option<seq<Byte>>> {
    if a in m then m else m[a := None]
  }

  predicate MapOk(m: map<nat, Option<seq<Byte>>>) {
    forall a :: a in m && m[a].Some? ==> |m[a].value| == SECTOR
  }

  function WrittenIn(m: map<nat, Option<seq<Byte>>>, a: nat, bytes: seq<Byte>): (r: map<nat, Option<seq<Byte>>>)
    requires |bytes| <= SECTOR && MapOk(m)
    ensures MapOk(r)
  {
    m[a := Some(Overlaid(if a in m then m[a] else None, bytes))]
  }

  /** n sectors from `address` on, in order. */
  function ErasedRange(m: map<nat, Option<seq<Byte>>>, address: nat, n: nat): map<nat, Option<seq<Byte>>> {
    if n == 0 then m else ErasedIn(ErasedRange(m, address, n - 1), SectorAt(address + (n - 1) * SECTOR))
  }

  /** The bytes up to `upTo`, a sector at a time, in order: later bytes win. */
  function WrittenRange(m: map<nat, Option<seq<Byte>>>, dest: nat, src: seq<Byte>, n: nat)
    : (r: map<nat, Option<seq<Byte>>>)
    requires MapOk(m) && (n > 0 ==> (n - 1) * SECTOR < |src|)
    ensures MapOk(r)
  {
    if n == 0 then m
    else
      var off := (n - 1) * SECTOR;
      WrittenIn(WrittenRange(m, dest, src, n - 1), SectorAt(dest + off), Chunk(src, off))
  }

  function Chunk(src: seq<Byte>, off: nat): (c: seq<Byte>)
    requires off <= |src|
    ensures |c| <= SECTOR
  {
    if |src| - off < SECTOR then src[off..] else src[off..off + SECTOR]
  }

  /** How many sectors that many bytes take. */
  function Sectors(len: nat): (n: nat)
    ensures n == 0 || (n - 1) * SECTOR < len
  {
    (len + SECTOR - 1) / SECTOR
  }

  lemma SectorsIs(len: nat, n: nat)
    requires len <= n * SECTOR && (n > 0 ==> (n - 1) * SECTOR < len)
    ensures Sectors(len) == n
  {
  }

  lemma AtMostAll(len: nat, n: nat)
    requires n > 0 ==> (n - 1) * SECTOR < len
    ensures n <= Sectors(len)
  {
  }

  /** As many entries as sectors. */
  lemma {:induction false} SizeOf(load: seq<Entry>)
    requires forall i, j :: 0 <= i < j < |load| ==> load[i].address != load[j].address
    ensures |AsMap(load)| == |load|
  {
    if load != [] {
      var n := |load| - 1;
      SizeOf(load[..n]);
      AsMapIs(load[..n]);
      assert load[n].address !in AsMap(load[..n]);
    }
  }

  lemma {:induction false} ErasedGrows(m: map<nat, Option<seq<Byte>>>, address: nat, n: nat, k: nat)
    requires n <= k
    ensures |ErasedRange(m, address, n)| <= |ErasedRange(m, address, k)|
    decreases k
  {
    if n < k {
      ErasedGrows(m, address, n, k - 1);
    }
  }

  /** A full load that an erase request would add to comes to too many sectors. */
  lemma {:induction false} EraseFits(load: seq<Entry>, m: map<nat, Option<seq<Byte>>>, address: nat, n: nat, k: nat)
    requires Tidy(load) && n < k && AsMap(load) == ErasedRange(m, address, n)
    ensures |load| == LOAD_MAX && SectorAt(address + n * SECTOR) !in AsMap(load)
            ==> |ErasedRange(m, address, k)| > LOAD_MAX
  {
    SizeOf(load);
    ErasedGrows(m, address, n + 1, k);
  }

  lemma {:induction false} WrittenGrows(m: map<nat, Option<seq<Byte>>>, dest: nat, src: seq<Byte>, n: nat, k: nat)
    requires MapOk(m) && n <= k && (k > 0 ==> (k - 1) * SECTOR < |src|)
    ensures |WrittenRange(m, dest, src, n)| <= |WrittenRange(m, dest, src, k)|
    decreases k
  {
    if n < k {
      WrittenGrows(m, dest, src, n, k - 1);
    }
  }

  class Loader {
    var load: seq<Entry>
    var table: bool                 // room for the entries has been allocated
    ghost var starved: nat          // allocations that failed

    ghost predicate Valid()
      reads this
    {
      Tidy(load) && (load != [] ==> table)
    }

    constructor ()
      ensures Valid() && load == []
    {
      load, table, starved := [], false, 0;
    }

    method Allocate() returns (ok: bool)
      modifies this`starved
      ensures starved == old(starved) + if ok then 0 else 1
    {
      ok := *;
      starved := starved + if ok then 0 else 1;
    }

    /** The sector's entry, made if there was none; -1 when there is no room for it. */
    method LoadSector(address: nat) returns (r: int)
      requires Valid()
      modifies this
      ensures Valid() && -1 <= r < |load|
      ensures r < 0 ==> load == old(load) && SectorAt(address) !in AsMap(load)
      ensures r < 0 ==> starved > old(starved) || (starved == old(starved) && |load| == LOAD_MAX)
      ensures r >= 0 ==>
              && starved == old(starved) && load[r].address == SectorAt(address)
              && AsMap(load) == ErasedIn(old(AsMap(load)), SectorAt(address))
    {
      var a := SectorAt(address);
      AsMapIs(load);
      for i := 0 to |load|
        invariant forall j :: 0 <= j < i ==> load[j].address != a
      {
        if load[i].address == a {
          return i;
        }
      }
      if !table {
        table := Allocate();
      }
      if !table || |load| == LOAD_MAX {
        return -1;
      }
      Appended(load, address);
      load := load + [Entry(a, None)];
      r := |load| - 1;
    }

    /** One sector of a write request; memory may run out. */
    method WriteSector(address: nat, bytes: seq<Byte>) returns (ok: bool)
      requires Valid() && |bytes| <= SECTOR
      modifies this
      ensures Valid() && MapOk(AsMap(load)) && starved >= old(starved)
      ensures !ok ==> starved > old(starved) || (|old(load)| == LOAD_MAX && SectorAt(address) !in old(AsMap(load)))
      ensures ok ==> starved == old(starved) && MapOk(old(AsMap(load)))
                     && AsMap(load) == WrittenIn(old(AsMap(load)), SectorAt(address), bytes)
    {
      ghost var was := AsMap(load);
      ValidMap(load);
      var i := LoadSector(address);
      ValidMap(load);
      if i < 0 {
        return false;
      }
      ok := load[i].data.Some?;
      if !ok {
        ok := Allocate();
        if !ok {
          return;
        }
      }
      OverlayKeeps(load, i, bytes);
      WrittenAfterErased(was, SectorAt(address), bytes);
      load := load[i := Entry(load[i].address, Some(Overlaid(load[i].data, bytes)))];
    }

    /** Everything collected is dropped: at the end of a load, or when one fails. */
    method Drop()
      modifies this
      ensures Valid() && load == [] && starved == old(starved)
    {
      load, table := [], false;
    }

    method EraseNext(at: nat, ghost address: nat, ghost n: nat, ghost k: nat,
                     ghost before: map<nat, Option<seq<Byte>>>)
      returns (ok: bool)
      requires Valid() && n < k && at == address + n * SECTOR && AsMap(load) == ErasedRange(before, address, n)
      modifies this
      ensures Valid() && starved >= old(starved)
      ensures !ok ==> starved > old(starved) || |ErasedRange(before, address, k)| > LOAD_MAX
      ensures ok ==> starved == old(starved) && AsMap(load) == ErasedRange(before, address, n + 1)
    {
      EraseFits(load, before, address, n, k);
      var i := LoadSector(at);
      ok := i >= 0;
    }

    method EraseAll(address: nat, len: nat, ghost before: map<nat, Option<seq<Byte>>>) returns (ok: bool)
      requires Valid() && AsMap(load) == before
      modifies this
      ensures Valid() && starved >= old(starved)
      ensures !ok ==> starved > old(starved) || |ErasedRange(before, address, Sectors(len))| > LOAD_MAX
      ensures ok ==> starved == old(starved) && AsMap(load) == ErasedRange(before, address, Sectors(len))
    {
      var at, n := address, 0;
      while at < address + len
        invariant Valid() && n <= Sectors(len) && at == address + n * SECTOR
        invariant AsMap(load) == ErasedRange(before, address, n) && starved == old(starved)
        decreases address + len - at
      {
        ok := EraseNext(at, address, n, Sectors(len), before);
        if !ok {
          return;
        }
        at, n := at + SECTOR, n + 1;
      }
      ok := true;
    }

    /** Fails only for want of memory or if the load would come to more than 768 sectors. */
    method Erase(address: nat, len: nat) returns (ok: bool)
      requires Valid()
      modifies this
      ensures Valid() && (!ok ==> load == []) && starved >= old(starved)
      ensures ok <==> starved == old(starved)
                      && |ErasedRange(old(AsMap(load)), address, Sectors(len))| <= LOAD_MAX
      ensures ok ==> AsMap(load) == ErasedRange(old(AsMap(load)), address, Sectors(len))
    {
      ok := EraseAll(address, len, AsMap(load));
      if ok {
        SizeOf(load);
      } else {
        Drop();
      }
    }

    method WriteNext(dest: nat, src: seq<Byte>, off: nat, ghost n: nat, ghost before: map<nat, Option<seq<Byte>>>)
      returns (ok: bool)
      requires Valid() && MapOk(before) && off == n * SECTOR && off < |src|
      requires n > 0 ==> (n - 1) * SECTOR < |src|
      requires AsMap(load) == WrittenRange(before, dest, src, n)
      modifies this
      ensures Valid() && starved >= old(starved)
      ensures !ok ==> starved > old(starved) || |WrittenRange(before, dest, src, n + 1)| > LOAD_MAX
      ensures ok ==> starved == old(starved) && AsMap(load) == WrittenRange(before, dest, src, n + 1)
    {
      OneMoreSector(before, dest, src, n, off);
      SizeOf(load);
      ok := WriteSector(dest + off, Chunk(src, off));
    }

    method WriteAll(dest: nat, src: seq<Byte>, ghost before: map<nat, Option<seq<Byte>>>)
      returns (ok: bool, ghost n: nat)
      requires Valid() && MapOk(before) && AsMap(load) == before
      modifies this
      ensures Valid() && (ok ==> |src| <= n * SECTOR) && starved >= old(starved)
      ensures n > 0 ==> (n - 1) * SECTOR < |src|
      ensures if ok then starved == old(starved) && |WrittenRange(before, dest, src, n)| <= LOAD_MAX
              else starved > old(starved) || (n > 0 && |WrittenRange(before, dest, src, n)| > LOAD_MAX)
      ensures ok ==> AsMap(load) == WrittenRange(before, dest, src, n)
    {
      var off := 0;
      n := 0;
      while off < |src|
        invariant Valid() && off == n * SECTOR && (n > 0 ==> (n - 1) * SECTOR < |src|)
        invariant AsMap(load) == WrittenRange(before, dest, src, n) && starved == old(starved)
        decreases |src| - off
      {
        ok := WriteNext(dest, src, off, n, before);
        n := n + 1;
        if !ok {
          return;
        }
        off := off + SECTOR;
      }
      SizeOf(load);
      ok := true;
    }

    method Write(dest: nat, src: seq<Byte>) returns (ok: bool)
      requires Valid() && dest % SECTOR == 0
      modifies this
      ensures Valid() && MapOk(old(AsMap(load))) && (!ok ==> load == []) && starved >= old(starved)
      ensures ok <==> starved == old(starved)
                      && |WrittenRange(old(AsMap(load)), dest, src, Sectors(|src|))| <= LOAD_MAX
      ensures ok ==> AsMap(load) == WrittenRange(old(AsMap(load)), dest, src, Sectors(|src|))
    {
      ValidMap(load);
      ghost var n;
      ok, n := WriteAll(dest, src, AsMap(load));
      if ok {
        SectorsIs(|src|, n);
      } else {
        AtMostAll(|src|, n);
        WrittenGrows(old(AsMap(load)), dest, src, n, Sectors(|src|));
        Drop();
      }
    }
  }

  lemma OneMoreSector(m: map<nat, Option<seq<Byte>>>, dest: nat, src: seq<Byte>, n: nat, off: nat)
    requires MapOk(m) && off == n * SECTOR && off < |src|
    ensures WrittenRange(m, dest, src, n + 1)
            == WrittenIn(WrittenRange(m, dest, src, n), SectorAt(dest + off), Chunk(src, off))
  {
  }

  lemma {:induction false} ValidMap(load: seq<Entry>)
    requires Tidy(load)
    ensures MapOk(AsMap(load))
  {
    AsMapIs(load);
  }

  /** A new entry at the end. */
  lemma {:induction false} Appended(load: seq<Entry>, address: nat)
    requires Tidy(load) && |load| < LOAD_MAX && forall j :: 0 <= j < |load| ==> load[j].address != SectorAt(address)
    ensures
      var es := load + [Entry(SectorAt(address), None)];
      Tidy(es) && AsMap(es) == ErasedIn(AsMap(load), SectorAt(address))
  {
    PhysicalSector(address);
    AsMapIs(load);
    var es := load + [Entry(SectorAt(address), None)];
    assert es[..|load|] == load;
  }

  /** Bytes laid over what the i-th entry held. */
  lemma OverlayKeeps(load: seq<Entry>, i: nat, bytes: seq<Byte>)
    requires Tidy(load) && i < |load| && |bytes| <= SECTOR
    ensures
      var es := load[i := Entry(load[i].address, Some(Overlaid(load[i].data, bytes)))];
      && Tidy(es) && MapOk(AsMap(load)) && MapOk(AsMap(es))
      && AsMap(es) == WrittenIn(AsMap(load), load[i].address, bytes)
  {
    ValidMap(load);
    AsMapIs(load);
    MapUpdated(load, i, Some(Overlaid(load[i].data, bytes)));
  }

  lemma WrittenAfterErased(m: map<nat, Option<seq<Byte>>>, a: nat, bytes: seq<Byte>)
    requires MapOk(m) && MapOk(ErasedIn(m, a)) && |bytes| <= SECTOR
    ensures WrittenIn(ErasedIn(m, a), a, bytes) == WrittenIn(m, a, bytes)
  {
  }

  lemma PhysicalSector(address: nat)
    ensures EntryOk(Entry(SectorAt(address), None))
  {
  }
}
