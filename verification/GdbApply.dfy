/** The end of a `load`: the collected sectors as erases and as regions for the flasher. */
module GdbApply {
  import opened Common
  import opened FlashMap
  import opened FlashDevice
  import opened FlashImage
  import opened FlashErase
  import opened FlashApply
  import opened FlashWrite
  import opened FlashSame
  import opened FlashCollect
  import opened GdbErase
  import opened GdbLoad

  // ------------------------------------------------------------------- sorting

  predicate Ascending(es: seq<Entry>) { forall i, j :: 0 <= i < j < |es| ==> es[i].address < es[j].address }

  function AddressOf(e: Entry): nat { e.address }

  function SortEntries(es: seq<Entry>): seq<Entry> { SortBy(es, AddressOf) }

  /** The same entries, each once, by address. */
  lemma SortEntriesKeeps(es: seq<Entry>)
    requires forall i, j :: 0 <= i < j < |es| ==> es[i].address != es[j].address
    ensures Ascending(SortEntries(es)) && |SortEntries(es)| == |es|
    ensures forall x :: x in SortEntries(es) <==> x in es
  {
    assert KeysApart(es, AddressOf);
    SortKeeps(es, AddressOf);
    assert forall i :: 0 <= i < |SortEntries(es)| ==> AddressOf(SortEntries(es)[i]) == SortEntries(es)[i].address;
  }

  // ------------------------------------------------------------------- regions

  function Written(es: seq<Entry>): seq<Entry> {
    if es == [] then []
    else
      var w := Written(es[..|es| - 1]);
      if es[|es| - 1].data.Some? then w + [es[|es| - 1]] else w
  }

  function EraseOnly(es: seq<Entry>): seq<nat> {
    if es == [] then []
    else
      var w := EraseOnly(es[..|es| - 1]);
      if es[|es| - 1].data.None? then w + [es[|es| - 1].address] else w
  }

  /** A region is these sectors, one after the other. */
  predicate Carries(r: Region, es: seq<Entry>) {
    && |r.data| == |es| * SECTOR
    && forall k :: 0 <= k < |es| ==>
         && es[k].address == r.address + k * SECTOR
         && es[k].data == Some(r.data[k * SECTOR..k * SECTOR + SECTOR])
  }

  /** The regions are the written sectors, in order, each region ending short of the next. */
  predicate AreRuns(regions: seq<Region>, ws: seq<Entry>) {
    if regions == [] then ws == []
    else
      var k := |regions| - 1;
      var n := |regions[k].data| / SECTOR;
      && 0 < n <= |ws| && Carries(regions[k], ws[|ws| - n..])
      && (k > 0 ==> End(regions[k - 1]) < regions[k].address)
      && AreRuns(regions[..k], ws[..|ws| - n])
  }

  lemma {:induction false} RunAdded(regions: seq<Region>, ws: seq<Entry>, r: Region, es: seq<Entry>)
    requires AreRuns(regions, ws) && Carries(r, es) && es != []
    requires regions != [] ==> End(regions[|regions| - 1]) < r.address
    ensures AreRuns(regions + [r], ws + es)
  {
    var rs, wes := regions + [r], ws + es;
    assert rs[..|regions|] == regions && |r.data| / SECTOR == |es|;
    assert wes[|wes| - |es|..] == es && wes[..|wes| - |es|] == ws;
  }

  /** A run of consecutive written sectors from i on, and its bytes. */
  method TakeRun(es: seq<Entry>, i: nat) returns (j: nat, r: Region)
    requires i < |es| && es[i].data.Some? && forall k :: 0 <= k < |es| ==> EntryOk(es[k])
    ensures i < j <= |es| && Carries(r, es[i..j]) && r.address == es[i].address
    ensures forall k :: i <= k < j ==> es[k].data.Some?
    ensures j < |es| && es[j].data.Some? ==> es[j].address != es[j - 1].address + SECTOR
  {
    j := i + 1;
    r := Region(es[i].address, es[i].data.value);
    assert es[i..j][0] == es[i] && r.data[0..SECTOR] == r.data;
    while j < |es| && es[j].data.Some? && es[j].address == es[j - 1].address + SECTOR
      invariant i < j <= |es| && Carries(r, es[i..j]) && r.address == es[i].address
      invariant forall k :: i <= k < j ==> es[k].data.Some?
    {
      assert es[i..j][j - 1 - i] == es[j - 1];
      Longer(r, es[i..j], es[j]);
      assert es[i..j + 1] == es[i..j] + [es[j]];
      r := Region(r.address, r.data + es[j].data.value);
      j := j + 1;
    }
  }

  lemma Longer(r: Region, es: seq<Entry>, e: Entry)
    requires Carries(r, es) && e.data.Some? && |e.data.value| == SECTOR
    requires e.address == r.address + |es| * SECTOR
    ensures Carries(Region(r.address, r.data + e.data.value), es + [e])
  {
    var d := r.data + e.data.value;
    forall k | 0 <= k < |es| ensures d[k * SECTOR..k * SECTOR + SECTOR] == r.data[k * SECTOR..k * SECTOR + SECTOR] {
      assert k * SECTOR + SECTOR <= |r.data|;
    }
    assert d[|es| * SECTOR..|es| * SECTOR + SECTOR] == e.data.value;
  }

  lemma {:induction false} WrittenRun(es: seq<Entry>, i: nat, j: nat)
    requires i <= j <= |es| && forall k :: i <= k < j ==> es[k].data.Some?
    ensures Written(es[..j]) == Written(es[..i]) + es[i..j] && EraseOnly(es[..j]) == EraseOnly(es[..i])
    decreases j
  {
    if i < j {
      WrittenRun(es, i, j - 1);
      assert es[..j][..j - 1] == es[..j - 1];
      assert es[i..j] == es[i..j - 1] + [es[j - 1]];
    }
  }

  /** Where a region ends, by its last sector. */
  lemma RunEnds(r: Region, es: seq<Entry>)
    requires Carries(r, es) && es != []
    ensures End(r) == es[|es| - 1].address + SECTOR
  {
  }

  /** Neighbours in the list are at least a sector apart. */
  lemma Spaced(es: seq<Entry>, i: nat)
    requires Ascending(es) && i < |es| && forall k :: 0 <= k < |es| ==> EntryOk(es[k])
    ensures i + 1 < |es| ==> es[i].address + SECTOR <= es[i + 1].address
    ensures i > 0 ==> es[i - 1].address + SECTOR <= es[i].address
  {
    assert EntryOk(es[i]);
    if i + 1 < |es| {
      assert EntryOk(es[i + 1]);
    }
    if i > 0 {
      assert EntryOk(es[i - 1]);
    }
  }

  /** The last region is done with before the i-th sector, and short of it if that is to be
      written. */
  predicate EndsBefore(regions: seq<Region>, es: seq<Entry>, i: nat)
    requires i <= |es|
  {
    regions != [] ==>
      var end := End(regions[|regions| - 1]);
      && i > 0 && end <= es[i - 1].address + SECTOR
      && (i < |es| && es[i].data.Some? ==> end < es[i].address)
  }

  lemma EraseLeavesGap(regions: seq<Region>, es: seq<Entry>, i: nat)
    requires Ascending(es) && forall k :: 0 <= k < |es| ==> EntryOk(es[k])
    requires i < |es| && EndsBefore(regions, es, i)
    ensures EndsBefore(regions, es, i + 1)
  {
    Spaced(es, i);
  }

  lemma RunLeavesGap(regions: seq<Region>, es: seq<Entry>, i: nat, j: nat, r: Region)
    requires Ascending(es) && forall k :: 0 <= k < |es| ==> EntryOk(es[k])
    requires i < j <= |es| && Carries(r, es[i..j])
    requires j < |es| && es[j].data.Some? ==> es[j].address != es[j - 1].address + SECTOR
    ensures EndsBefore(regions + [r], es, j)
  {
    RunEnds(r, es[i..j]);
    assert es[i..j][j - i - 1] == es[j - 1];
    Spaced(es, j - 1);
  }

  /** One pass over the sorted sectors; there may be no memory for a run. */
  method Plan(l: Loader, es: seq<Entry>) returns (ok: bool, erases: seq<nat>, regions: seq<Region>)
    requires Ascending(es) && forall k :: 0 <= k < |es| ==> EntryOk(es[k])
    modifies l`starved
    ensures l.starved >= old(l.starved) && (ok <==> l.starved == old(l.starved))
    ensures ok ==> erases == EraseOnly(es) && AreRuns(regions, Written(es))
  {
    erases, regions := [], [];
    var i := 0;
    while i < |es|
      invariant i <= |es| && erases == EraseOnly(es[..i]) && AreRuns(regions, Written(es[..i]))
      invariant EndsBefore(regions, es, i) && l.starved == old(l.starved)
    {
      if es[i].data.None? {
        assert es[..i + 1][..i] == es[..i];
        erases := erases + [es[i].address];
        EraseLeavesGap(regions, es, i);
        i := i + 1;
      } else {
        ok := l.Allocate();
        if !ok {
          return;
        }
        var j, r := TakeRun(es, i);
        WrittenRun(es, i, j);
        RunAdded(regions, Written(es[..i]), r, es[i..j]);
        RunLeavesGap(regions, es, i, j, r);
        regions := regions + [r];
        i := j;
      }
    }
    assert es[..|es|] == es;
    ok := true;
  }

  // ------------------------------------------------ an image the flasher can take

  /** The sectors of the i-th region, from the list. */
  lemma {:induction false} SectorsOf(regions: seq<Region>, ws: seq<Entry>, i: nat) returns (es: seq<Entry>)
    requires AreRuns(regions, ws) && i < |regions| && forall e :: e in ws ==> EntryOk(e)
    ensures es != [] && Carries(regions[i], es) && forall e :: e in es ==> EntryOk(e) && e in ws
    decreases |regions|
  {
    var k := |regions| - 1;
    var n := |regions[k].data| / SECTOR;
    if i == k {
      es := ws[|ws| - n..];
    } else {
      es := SectorsOf(regions[..k], ws[..|ws| - n], i);
    }
  }

  lemma {:induction false} InTurn(regions: seq<Region>, ws: seq<Entry>, i: nat, j: nat)
    requires AreRuns(regions, ws) && i < j < |regions| && forall e :: e in ws ==> EntryOk(e)
    ensures End(regions[i]) < regions[j].address
    decreases |regions|
  {
    var k := |regions| - 1;
    var n := |regions[k].data| / SECTOR;
    if j < k {
      InTurn(regions[..k], ws[..|ws| - n], i, j);
    } else if i < k - 1 {
      InTurn(regions[..k], ws[..|ws| - n], i, k - 1);
    }
  }

  lemma Uncached(r: Region, es: seq<Entry>, x: nat)
    requires Carries(r, es) && (forall e :: e in es ==> EntryOk(e)) && r.address <= x < End(r)
    ensures ToPhysical(x) == x
  {
    var k := (x - r.address) / SECTOR;
    assert es[k] in es && es[k].address <= x < es[k].address + SECTOR;
  }

  lemma WholeSectors(r: Region, es: seq<Entry>)
    requires Carries(r, es) && es != [] && forall e :: e in es ==> EntryOk(e)
    ensures r.address % SECTOR == 0 && r.address % PAGE == 0 && PadUp(|r.data|) == |r.data| > 0
  {
    assert es[0] in es && es[0].address == r.address;
    WholePages(r.address);
    PagesIn(|es|);
    PadUpExact(|r.data|);
  }

  lemma PagesIn(sectors: nat)
    ensures sectors * SECTOR % PAGE == 0
  {
  }

  lemma TouchedInside(regions: seq<Region>, ws: seq<Entry>, s: nat) returns (e: Entry)
    requires AreRuns(regions, ws) && (forall e :: e in ws ==> EntryOk(e)) && Touched(regions, s)
    ensures ToPhysical(s) == s && e in ws && e.address == s
  {
    var r :| r in regions && Touches(r, s);
    var i :| 0 <= i < |regions| && regions[i] == r;
    var es := SectorsOf(regions, ws, i);
    WholeSectors(r, es);
    var k := IndexIn(r, es, s);
    e := es[k];
    assert e in es && EntryOk(e);
  }

  lemma IndexIn(r: Region, es: seq<Entry>, s: nat) returns (k: nat)
    requires Carries(r, es) && r.address % SECTOR == 0 && Touches(r, s)
    ensures k < |es| && es[k].address == s
  {
    k := (s - r.address) / SECTOR;
    assert s == r.address + k * SECTOR;
  }

  lemma {:induction false} RunsApart(regions: seq<Region>, ws: seq<Entry>, i: nat, j: nat)
    requires AreRuns(regions, ws) && (forall e :: e in ws ==> EntryOk(e)) && i < j < |regions|
    ensures Apart(regions[i], regions[j])
  {
    var es := SectorsOf(regions, ws, i);
    var fs := SectorsOf(regions, ws, j);
    WholeSectors(regions[i], es);
    WholeSectors(regions[j], fs);
    InTurn(regions, ws, i, j);
    forall x: nat, y: nat | InSpan(regions[i], regions[i].address, x) && InSpan(regions[j], regions[j].address, y)
      ensures ToPhysical(x) != ToPhysical(y)
    {
      Uncached(regions[i], es, x);
      Uncached(regions[j], fs, y);
    }
  }

  /** What a load hands to the flasher is always an image the flasher's guarantees are for. */
  lemma {:induction false} RunsAreGood(regions: seq<Region>, ws: seq<Entry>)
    requires AreRuns(regions, ws) && forall e :: e in ws ==> EntryOk(e)
    ensures GoodImage(regions)
  {
    forall r | r in regions ensures r.address % PAGE == 0 {
      var i :| 0 <= i < |regions| && regions[i] == r;
      var es := SectorsOf(regions, ws, i);
      WholeSectors(r, es);
    }
    forall i, j | 0 <= i < j < |regions| ensures Apart(regions[i], regions[j]) {
      RunsApart(regions, ws, i, j);
    }
  }

  /** Every written sector is in some region, byte for byte. */
  lemma {:induction false} Carried(regions: seq<Region>, ws: seq<Entry>, e: Entry) returns (i: nat, k: nat)
    requires AreRuns(regions, ws) && e in ws
    ensures i < |regions| && k * SECTOR + SECTOR <= |regions[i].data|
    ensures e.address == regions[i].address + k * SECTOR
    ensures e.data == Some(regions[i].data[k * SECTOR..k * SECTOR + SECTOR])
    decreases |regions|
  {
    var l := |regions| - 1;
    var n := |regions[l].data| / SECTOR;
    var tail := ws[|ws| - n..];
    if e in tail {
      i := l;
      k :| 0 <= k < |tail| && tail[k] == e;
      assert k * SECTOR + SECTOR <= |regions[l].data|;
    } else {
      assert ws == ws[..|ws| - n] + tail;
      i, k := Carried(regions[..l], ws[..|ws| - n], e);
    }
  }

  lemma {:induction false} WrittenIs(es: seq<Entry>)
    ensures forall e :: e in Written(es) <==> e in es && e.data.Some?
    ensures forall a :: a in EraseOnly(es) <==> exists i :: 0 <= i < |es| && es[i].address == a && es[i].data.None?
  {
    if es != [] {
      var n := |es| - 1;
      WrittenIs(es[..n]);
      assert es == es[..n] + [es[n]];
      forall a ensures a in EraseOnly(es) <==> exists i :: 0 <= i < |es| && es[i].address == a && es[i].data.None? {
        if a in EraseOnly(es[..n]) {
          var i :| 0 <= i < n && es[..n][i].address == a && es[..n][i].data.None?;
          assert es[i].address == a;
        }
        if i :| 0 <= i < |es| && es[i].address == a && es[i].data.None? {
          assert i < n ==> es[..n][i].address == a;
        }
      }
    }
  }

  /** load_apply up to the call of the flasher: each sector only asked to be erased is
      erased once, in order; each written one is in exactly one place of the image. */
  method LoadApply(l: Loader) returns (ok: bool, erases: seq<nat>, regions: seq<Region>)
    requires l.Valid()
    modifies l`starved
    ensures l.starved >= old(l.starved) && (ok <==> l.starved == old(l.starved))
    ensures ok ==> GoodImage(regions)
    ensures ok ==> AreRuns(regions, Written(SortEntries(l.load))) && erases == EraseOrder(l.load)
    ensures AsMap(SortEntries(l.load)) == AsMap(l.load) && Ascending(SortEntries(l.load))
  {
    SortEntriesKeeps(l.load);
    var es := SortEntries(l.load);
    SameEntriesSameMap(es, l.load);
    forall k | 0 <= k < |es| ensures EntryOk(es[k]) {
      assert es[k] in l.load;
    }
    ok, erases, regions := Plan(l, es);
    if ok {
      WrittenIs(es);
      RunsAreGood(regions, Written(es));
    }
  }

  /** The sectors of a load, to the command interface. */
  ghost predicate InLoad(g: Geometry, load: seq<Entry>, written: bool, b: nat) {
    exists e :: e in load && e.data.Some? == written && Cmd(g, e.address) == b
  }

  /** A sector that is not program flash. */
  ghost predicate Forbidden(g: Geometry, load: seq<Entry>) {
    exists e :: e in load && !Permitted(g, e.address)
  }

  ghost predicate OnlyLoad(g: Geometry, load: seq<Entry>, before: nat -> Cell, after: nat -> Cell) {
    forall a: nat :: !InLoad(g, load, true, Base(a)) && !InLoad(g, load, false, Base(a)) ==> after(a) == before(a)
  }

  /** The sectors of a load that nothing was written to, in the order of their addresses. */
  function EraseOrder(load: seq<Entry>): seq<nat> { EraseOnly(SortEntries(load)) }

  /** Each of them is as its erase command left it. */
  ghost predicate AsFated(g: Geometry, order: seq<nat>, fates: seq<Fate>, before: nat -> Cell, after: nat -> Cell) {
    forall i: nat, a: nat ::
      i < |order| && Base(a) == Cmd(g, order[i]) ==> after(a) == Erased(Nth(fates, i), before(a), a)
  }

  /** Among the sectors erased are just those of them whose command was carried out. */
  ghost predicate LoggedAsFated(g: Geometry, order: seq<nat>, fates: seq<Fate>, erased: seq<nat>) {
    forall i: nat :: i < |order| ==> (Cmd(g, order[i]) in erased <==> Nth(fates, i).Carried?)
  }

  /** A written entry's bytes are read at its own address. */
  ghost predicate EntriesShown(g: Geometry, load: seq<Entry>, cells: nat -> Cell) {
    forall e :: e in load && e.data.Some? ==> Shows(cells, g, e.address, e.data.value)
  }

  /** These erase commands took no sector twice, and only the load's. */
  ghost predicate ErasedAtMostOnce(g: Geometry, load: seq<Entry>, erased: seq<nat>) {
    Distinct(erased) && forall c :: c in erased ==> InLoad(g, load, true, c) || InLoad(g, load, false, c)
  }

  /** The whole of load_apply: nothing but the load's sectors changes, and none of them is
      erased twice.  On success each written sector reads back at its own address; a sector
      only asked to be erased is as its one command left it, and nobody has looked: it was
      erased exactly if that was carried out, which it was unless an error went unseen.  A load
      without written sectors succeeds exactly if there is memory, each sector is program flash
      and no error is seen; another may also fail for an error that went unseen. */
  method FinishLoad(l: Loader, e: Eraser) returns (ok: bool)
    requires l.Valid() && !e.d.sqer
    modifies l`starved, e, e.d
    ensures e.d.faults >= old(e.d.faults) && e.d.unseen >= old(e.d.unseen) && l.starved >= old(l.starved)
    ensures OnlyLoad(e.d.g, l.load, old(e.d.cells), e.d.cells) && old(e.d.erases) <= e.d.erases
    ensures ErasedAtMostOnce(e.d.g, l.load, Each(e.d.erases[|old(e.d.erases)|..]))
    ensures
      var order, fates := EraseOrder(l.load), old(e.d.fates);
      ok ==>
        && l.starved == old(l.starved) && EntriesShown(e.d.g, l.load, e.d.cells)
        && AllErasable(e.d.g, order, |order|) && AllQuiet(fates, |order|)
        && AsFated(e.d.g, order, fates, old(e.d.cells), e.d.cells)
        && (e.d.unseen == old(e.d.unseen) ==> AllCarried(fates, |order|))
    ensures
      var order, fates := EraseOrder(l.load), old(e.d.fates);
      ok ==> LoggedAsFated(e.d.g, order, fates, Each(e.d.erases[|old(e.d.erases)|..]))
    ensures !ok ==> || l.starved > old(l.starved) || e.d.faults > old(e.d.faults) || e.d.unseen > old(e.d.unseen)
                    || Forbidden(e.d.g, l.load)
    ensures
      var order, fates := EraseOrder(l.load), old(e.d.fates);
      (forall x :: x in l.load ==> x.data.None?) ==>
        (ok <==> l.starved == old(l.starved) && AllErasable(e.d.g, order, |order|) && AllQuiet(fates, |order|))
  {
    var d := e.d;
    var erases, regions;
    ok, erases, regions := LoadApply(l);
    if !ok {
      return;
    }
    ErasesOnce(d.g, l.load);
    ok := EraseEach(d, erases);
    ghost var log, mid, fates, seen := d.erases, d.cells, old(d.fates), Each(d.erases[|old(d.erases)|..]);
    AfterErases(d.g, l.load, fates, old(d.cells), mid, seen, ok);
    if !ok {
      return;
    }
    if regions == [] {
      EntriesRead(d.g, l.load, regions, d.cells);
    } else {
      ok := ApplyLoad(e, l.load, regions);
      BothLogs(old(d.erases), log, d.erases);
      Together(d.g, l.load, seen, Each(d.erases[|log|..]));
      OrderKept(d.g, l.load, fates, old(d.cells), mid, d.cells);
      StillErased(d.g, l.load, fates, seen, Each(d.erases[|log|..]));
      SomeWritten(l.load, regions);
    }
  }

  /** What the erase-only sectors' commands come to, for the load. */
  lemma {:induction false} AfterErases(g: Geometry, load: seq<Entry>, fates: seq<Fate>, before: nat -> Cell,
                                       after: nat -> Cell, erased: seq<nat>, ok: bool)
    requires Tidy(load) && Distinct(Commands(g, EraseOrder(load)))
    requires
      var cs := Commands(g, EraseOrder(load));
      && Among(cs, |cs|, erased) && OnlyIn(cs, before, after)
      && (ok ==> FatedTo(cs, |cs|, fates, before, after) && erased == CarriedOf(cs, fates))
    ensures OnlyLoad(g, load, before, after)
    ensures Distinct(erased) && forall c :: c in erased ==> InLoad(g, load, false, c)
    ensures !AllErasable(g, EraseOrder(load), |EraseOrder(load)|) ==> Forbidden(g, load)
    ensures ok ==> AsFated(g, EraseOrder(load), fates, before, after)
    ensures ok ==> LoggedAsFated(g, EraseOrder(load), fates, erased)
  {
    var order := EraseOrder(load);
    var cs := Commands(g, order);
    ErasesAre(g, load);
    assert cs[..|cs|] == cs;
    forall i: nat | i < |order| && ok ensures Cmd(g, order[i]) in erased <==> Nth(fates, i).Carried? {
      CarriedOfIff(cs, fates, i);
    }
    forall i: nat | i < |order| && !Permitted(g, order[i]) ensures Forbidden(g, load) {
      assert order[i] in order;
      var e := FromLoad(load, order[i]);
    }
  }

  /** What the flasher does to the rest changes nothing of it. */
  lemma OrderKept(g: Geometry, load: seq<Entry>, fates: seq<Fate>, before: nat -> Cell, mid: nat -> Cell,
                  after: nat -> Cell)
    requires Tidy(load) && EraseOnlyKept(g, load, mid, after)
    requires AsFated(g, EraseOrder(load), fates, before, mid)
    ensures AsFated(g, EraseOrder(load), fates, before, after)
  {
    var order := EraseOrder(load);
    ErasesAre(g, load);
    forall i: nat, a: nat | i < |order| && Base(a) == Cmd(g, order[i])
      ensures after(a) == Erased(Nth(fates, i), before(a), a)
    {
      assert Commands(g, order)[i] == Base(a);
    }
  }

  lemma StillErased(g: Geometry, load: seq<Entry>, fates: seq<Fate>, erased: seq<nat>, rewritten: seq<nat>)
    requires Tidy(load) && RewrittenOnly(g, load, rewritten)
    requires LoggedAsFated(g, EraseOrder(load), fates, erased)
    ensures LoggedAsFated(g, EraseOrder(load), fates, erased + rewritten)
  {
    var order := EraseOrder(load);
    ErasesAre(g, load);
    forall i: nat | i < |order| ensures Cmd(g, order[i]) !in rewritten {
      assert Commands(g, order)[i] == Cmd(g, order[i]);
    }
  }

  lemma {:induction false} SomeWritten(load: seq<Entry>, regions: seq<Region>)
    requires Tidy(load) && AreRuns(regions, Written(SortEntries(load))) && regions != []
    ensures exists e :: e in load && e.data.Some?
  {
    SortEntriesKeeps(load);
    WrittenIs(SortEntries(load));
    var ws := Written(SortEntries(load));
    assert ws[0] in ws;
  }

  /** The written sectors, compared and where they differ rewritten. */
  method ApplyLoad(e: Eraser, ghost load: seq<Entry>, regions: seq<Region>) returns (ok: bool)
    requires Tidy(load) && AreRuns(regions, Written(SortEntries(load))) && regions != []
    requires GoodImage(regions) && !e.d.sqer
    modifies e, e.d
    ensures e.d.faults >= old(e.d.faults) && e.d.unseen >= old(e.d.unseen)
    ensures OnlyLoad(e.d.g, load, old(e.d.cells), e.d.cells)
    ensures EraseOnlyKept(e.d.g, load, old(e.d.cells), e.d.cells)
    ensures ok ==> EntriesShown(e.d.g, load, e.d.cells)
    ensures !ok ==> e.d.faults > old(e.d.faults) || e.d.unseen > old(e.d.unseen) || Forbidden(e.d.g, load)
    ensures old(e.d.erases) <= e.d.erases && RewrittenOnly(e.d.g, load, Each(e.d.erases[|old(e.d.erases)|..]))
  {
    var d := e.d;
    ghost var start := |d.erases|;
    var res, sectors, keep := Apply(e, regions, true);
    ok := res == Applied;
    NotRefused(d.g, load, regions);
    if res !in {InvalidArg, Rejected} {
      ImageLeaves(d.g, load, regions, sectors, keep, old(d.cells), d.cells);
      RewrittenOnce(d.g, load, regions, sectors, keep, Each(d.erases[start..]));
    } else {
      assert d.erases[start..] == [];
    }
    if ok {
      EntriesRead(d.g, load, regions, d.cells);
    }
  }

  ghost predicate EraseOnlyKept(g: Geometry, load: seq<Entry>, before: nat -> Cell, after: nat -> Cell) {
    forall a: nat :: InLoad(g, load, false, Base(a)) ==> after(a) == before(a)
  }

  lemma BothLogs(a: seq<Erase>, b: seq<Erase>, c: seq<Erase>)
    requires a <= b <= c
    ensures Each(c[|a|..]) == Each(b[|a|..]) + Each(c[|b|..])
  {
    assert c[|a|..] == b[|a|..] + c[|b|..];
    EachConcat(b[|a|..], c[|b|..]);
  }

  /** Erased once each, all of them written sectors. */
  ghost predicate RewrittenOnly(g: Geometry, load: seq<Entry>, erased: seq<nat>) {
    Distinct(erased) && forall c :: c in erased ==> InLoad(g, load, true, c) && !InLoad(g, load, false, c)
  }

  lemma Together(g: Geometry, load: seq<Entry>, a: seq<nat>, b: seq<nat>)
    requires Distinct(a) && (forall c :: c in a ==> InLoad(g, load, false, c)) && RewrittenOnly(g, load, b)
    ensures ErasedAtMostOnce(g, load, a + b)
  {
    forall i, j | 0 <= i < |a| && 0 <= j < |b| ensures a[i] != b[j] {
      assert a[i] in a && b[j] in b;
    }
  }

  lemma PhysicalDistinct(g: Geometry, list: seq<nat>)
    requires Increasing(list) && forall s :: s in list ==> ToPhysical(s) == s
    ensures Distinct(Commands(g, list))
  {
    forall i, j | 0 <= i < j < |list| ensures Cmd(g, list[i]) != Cmd(g, list[j]) {
      assert list[i] in list && list[j] in list;
      Injective(g, list[i], list[j]);
    }
  }

  lemma {:induction false} EraseOnlyIncreasing(es: seq<Entry>)
    requires Ascending(es)
    ensures Increasing(EraseOnly(es))
  {
    if es != [] {
      var n := |es| - 1;
      EraseOnlyIncreasing(es[..n]);
      WrittenIs(es[..n]);
      forall a | a in EraseOnly(es[..n]) ensures a < es[n].address {
        var i :| 0 <= i < n && es[..n][i].address == a && es[..n][i].data.None?;
        assert es[i].address < es[n].address;
      }
      forall i | 0 <= i < |EraseOnly(es[..n])| ensures EraseOnly(es[..n])[i] < es[n].address {
        assert EraseOnly(es[..n])[i] in EraseOnly(es[..n]);
      }
    }
  }

  /** No two of the erase-only sectors are one to the command interface. */
  lemma ErasesOnce(g: Geometry, load: seq<Entry>)
    requires Tidy(load)
    ensures Aligned(EraseOrder(load)) && Distinct(Commands(g, EraseOrder(load)))
  {
    var erases := EraseOrder(load);
    ErasesAre(g, load);
    SortEntriesKeeps(load);
    EraseOnlyIncreasing(SortEntries(load));
    forall s | s in erases ensures ToPhysical(s) == s {
      var e := FromLoad(load, s);
      assert EntryOk(e);
    }
    PhysicalDistinct(g, erases);
  }

  lemma {:induction false} ChosenIs(sectors: seq<nat>, keep: seq<bool>)
    requires Increasing(sectors) && |keep| == |sectors|
    ensures Increasing(Chosen(sectors, keep)) && forall s :: s in Chosen(sectors, keep) ==> s in sectors
  {
    if sectors != [] {
      var n := |sectors| - 1;
      var c := Chosen(sectors[..n], keep[..n]);
      ChosenIs(sectors[..n], keep[..n]);
      forall i | 0 <= i < |c| ensures c[i] < sectors[n] {
        assert c[i] in c;
      }
    }
  }

  /** What the flasher erases of a load, it erases once, and no sector by two names. */
  lemma {:induction false} RewrittenOnce(g: Geometry, load: seq<Entry>, regions: seq<Region>, sectors: seq<nat>,
                                         keep: seq<bool>, erased: seq<nat>)
    requires Tidy(load) && AreRuns(regions, Written(SortEntries(load)))
    requires (forall s: nat :: s in sectors <==> Touched(regions, s)) && Increasing(sectors) && |keep| == |sectors|
    requires Among(Commands(g, Chosen(sectors, keep)), |Commands(g, Chosen(sectors, keep))|, erased)
    ensures RewrittenOnly(g, load, erased) && Consistent(Commands(g, sectors), keep)
  {
    var chosen := Chosen(sectors, keep);
    var cs := Commands(g, chosen);
    ChosenIs(sectors, keep);
    forall s | s in sectors
      ensures ToPhysical(s) == s && InLoad(g, load, true, Cmd(g, s)) && !InLoad(g, load, false, Cmd(g, s))
    {
      var e := TouchedEntry(load, regions, s);
      RewrittenIsWritten(g, load, regions, s);
    }
    PhysicalDistinct(g, sectors);
    PhysicalDistinct(g, chosen);
    assert cs[..|cs|] == cs;
    forall c | c in erased ensures InLoad(g, load, true, c) && !InLoad(g, load, false, c) {
      var i :| 0 <= i < |cs| && cs[i] == c;
      assert chosen[i] in chosen;
    }
  }

  lemma {:induction false} EntriesRead(g: Geometry, load: seq<Entry>, regions: seq<Region>, cells: nat -> Cell)
    requires Tidy(load) && AreRuns(regions, Written(SortEntries(load)))
    requires AllShown(regions, |regions|, cells, g)
    ensures EntriesShown(g, load, cells)
  {
    SortEntriesKeeps(load);
    WrittenIs(SortEntries(load));
    forall e | e in load && e.data.Some? ensures Shows(cells, g, e.address, e.data.value) {
      assert e in Written(SortEntries(load));
      var i, k := Carried(regions, Written(SortEntries(load)), e);
      PartShown(g, regions[i], k, cells, e);
    }
  }

  lemma PartShown(g: Geometry, r: Region, k: nat, cells: nat -> Cell, e: Entry)
    requires k * SECTOR + SECTOR <= |r.data| && Shows(cells, g, r.address, r.data)
    requires e.address == r.address + k * SECTOR && e.data == Some(r.data[k * SECTOR..k * SECTOR + SECTOR])
    ensures Shows(cells, g, e.address, e.data.value)
  {
    forall o | 0 <= o < SECTOR ensures cells(Cmd(g, e.address + o)) == Data(e.data.value[o]) {
      assert r.data[k * SECTOR + o] == e.data.value[o] && r.address + (k * SECTOR + o) == e.address + o;
    }
  }

  lemma FromLoad(load: seq<Entry>, a: nat) returns (e: Entry)
    requires Tidy(load) && a in EraseOrder(load)
    ensures e in load && e.address == a
  {
    SortEntriesKeeps(load);
    var es := SortEntries(load);
    WrittenIs(es);
    var i :| 0 <= i < |es| && es[i].address == a && es[i].data.None?;
    e := es[i];
  }

  function Addresses(load: seq<Entry>): (r: seq<nat>)
    ensures |r| == |load| && forall i :: 0 <= i < |r| ==> r[i] == load[i].address
  {
    seq(|load|, i requires 0 <= i < |load| => load[i].address)
  }

  /** The flasher's limit on sectors is never what stops a load. */
  lemma {:induction false} NotRefused(g: Geometry, load: seq<Entry>, regions: seq<Region>)
    requires Tidy(load) && AreRuns(regions, Written(SortEntries(load)))
    ensures TurnedDown(g, regions) ==> Forbidden(g, load)
  {
    forall ss: seq<nat> | TooManyAre(regions, ss) ensures false {
      forall s | s in ss ensures s in Addresses(load) {
        var e := TouchedEntry(load, regions, s);
        var i :| 0 <= i < |load| && load[i] == e;
        assert Addresses(load)[i] == s;
      }
      NoMoreThan(ss, Addresses(load));
    }
    forall s: nat | Touched(regions, s) && !Permitted(g, s) ensures Forbidden(g, load) {
      var e := TouchedEntry(load, regions, s);
    }
  }

  lemma TouchedEntry(load: seq<Entry>, regions: seq<Region>, s: nat) returns (e: Entry)
    requires Tidy(load) && AreRuns(regions, Written(SortEntries(load))) && Touched(regions, s)
    ensures e in load && e.data.Some? && e.address == s && ToPhysical(s) == s
  {
    SortEntriesKeeps(load);
    var es := SortEntries(load);
    WrittenIs(es);
    forall w | w in Written(es) ensures EntryOk(w) {
      assert w in load;
    }
    e := TouchedInside(regions, Written(es), s);
  }

  lemma ErasesAre(g: Geometry, load: seq<Entry>)
    requires Tidy(load)
    ensures
      var erases := EraseOrder(load);
      && Aligned(erases) && Aligned(Commands(g, erases))
      && forall b :: b in Commands(g, erases) <==> InLoad(g, load, false, b)
  {
    SortEntriesKeeps(load);
    var es := SortEntries(load);
    var erases := EraseOnly(es);
    WrittenIs(es);
    forall i | 0 <= i < |erases| ensures erases[i] % SECTOR == 0 {
      assert erases[i] in erases;
      AlignedErase(load, erases[i]);
    }
    AlignedCommands(g, erases);
    forall b ensures b in Commands(g, erases) <==> InLoad(g, load, false, b) {
      EraseIff(g, load, es, b);
    }
  }

  lemma {:induction false} EraseIff(g: Geometry, load: seq<Entry>, es: seq<Entry>, b: nat)
    requires forall e :: e in es <==> e in load
    ensures b in Commands(g, EraseOnly(es)) <==> InLoad(g, load, false, b)
  {
    WrittenIs(es);
    var erases := EraseOnly(es);
    if b in Commands(g, erases) {
      var i :| 0 <= i < |erases| && Cmd(g, erases[i]) == b;
      assert erases[i] in erases;
      var k :| 0 <= k < |es| && es[k].address == erases[i] && es[k].data.None?;
      assert es[k] in load;
    }
    if InLoad(g, load, false, b) {
      var e :| e in load && e.data.None? && Cmd(g, e.address) == b;
      assert e in es && e.address in erases;
    }
  }

  /** A sector the flasher rewrites is one of the load's written ones, never one it only erases. */
  lemma {:induction false} RewrittenIsWritten(g: Geometry, load: seq<Entry>, regions: seq<Region>, s: nat)
    requires Tidy(load) && AreRuns(regions, Written(SortEntries(load))) && Touched(regions, s)
    ensures InLoad(g, load, true, Cmd(g, s)) && !InLoad(g, load, false, Cmd(g, s))
  {
    var w := TouchedEntry(load, regions, s);
    forall e | e in load && e.data.None? ensures Cmd(g, e.address) != Cmd(g, s) {
      Injective(g, e.address, s);
      assert EntryOk(e) && EntryOk(w);
    }
  }

  lemma {:induction false} ImageLeaves(g: Geometry, load: seq<Entry>, regions: seq<Region>, sectors: seq<nat>,
                                       keep: seq<bool>, before: nat -> Cell, after: nat -> Cell)
    requires Tidy(load) && AreRuns(regions, Written(SortEntries(load)))
    requires forall s: nat :: s in sectors <==> Touched(regions, s)
    requires OnlyKept(Commands(g, sectors), keep, before, after)
    ensures OnlyLoad(g, load, before, after) && EraseOnlyKept(g, load, before, after)
  {
    var cs := Commands(g, sectors);
    forall a: nat | Kept(cs, keep, |cs|, Base(a))
      ensures InLoad(g, load, true, Base(a)) && !InLoad(g, load, false, Base(a))
    {
      var m :| 0 <= m < |cs| == |keep| && keep[m] && cs[m] == Base(a);
      assert sectors[m] in sectors;
      RewrittenIsWritten(g, load, regions, sectors[m]);
    }
  }

  lemma AlignedErase(load: seq<Entry>, a: nat)
    requires Tidy(load) && a in EraseOrder(load)
    ensures a % SECTOR == 0
  {
    var e := FromLoad(load, a);
    var i :| 0 <= i < |load| && load[i] == e;
    assert EntryOk(load[i]);
  }
}
