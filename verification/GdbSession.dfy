/** A whole `load`: any sequence of erase and write requests, and what the flash holds after. */
module GdbSession {
  import opened Common
  import opened FlashMap
  import opened FlashDevice
  import opened FlashErase
  import opened FlashImage
  import opened GdbErase
  import opened GdbLoad
  import opened GdbApply
  import opened GdbRequests

  /** What a physical address is to hold: the last byte written to it, or the erased value if
      only its sector was written to; nothing if its sector was only asked to be erased; what
      it held if nobody asked. */
  function Wanted(reqs: seq<Request>, x: nat, was: Cell): Cell {
    if WrittenTo(reqs, Base(x)) then Data(OrErased(LastByte(reqs, x)))
    else if Asked(reqs, Base(x)) then Blank
    else was
  }

  lemma EntryFor(load: seq<Entry>, s: nat) returns (e: Entry)
    requires Tidy(load) && s in AsMap(load)
    ensures e in load && e.address == s && e.data == AsMap(load)[s]
  {
    AsMapIs(load);
    var i :| 0 <= i < |load| && load[i].address == s;
    e := load[i];
  }

  lemma {:induction false} EntryAsked(load: seq<Entry>, e: Entry)
    requires Tidy(load) && e in load
    ensures e.address in AsMap(load) && AsMap(load)[e.address] == e.data && ToPhysical(e.address) == e.address
  {
    AsMapIs(load);
    var i :| 0 <= i < |load| && load[i] == e;
    assert EntryOk(load[i]);
  }

  lemma BaseIsPhysical(g: Geometry, x: nat)
    requires ToPhysical(x) == x
    ensures ToPhysical(Base(x)) == Base(x) && Base(Cmd(g, x)) == Cmd(g, Base(x))
    ensures Base(x) % SECTOR == 0 && x - Base(x) < SECTOR
  {
    SectorWhole(g, x);
  }

  /** A sector nobody asked for is not in the load under any name. */
  lemma {:induction false} NotInLoad(g: Geometry, load: seq<Entry>, s: nat, written: bool)
    requires Tidy(load) && ToPhysical(s) == s && s !in AsMap(load)
    ensures !InLoad(g, load, written, Cmd(g, s))
  {
    forall e | e in load ensures Cmd(g, e.address) != Cmd(g, s) {
      EntryAsked(load, e);
      Injective(g, e.address, s);
    }
  }

  lemma {:induction false} WrittenAtEnd(g: Geometry, load: seq<Entry>, reqs: seq<Request>, cells: nat -> Cell, x: nat)
    requires Tidy(load) && AsMap(load) == AfterAll(reqs) && AlignedAll(reqs) && ToPhysical(x) == x
    requires EntriesShown(g, load, cells) && WrittenTo(reqs, Base(x))
    ensures cells(Cmd(g, x)) == Data(OrErased(LastByte(reqs, x)))
  {
    BaseIsPhysical(g, x);
    RequestsLaw(reqs, Base(x), x - Base(x));
    WrittenIsAsked(reqs, Base(x));
    EntryShown(g, load, cells, x);
  }

  lemma WrittenIsAsked(reqs: seq<Request>, s: nat)
    requires WrittenTo(reqs, s)
    ensures Asked(reqs, s)
  {
  }

  /** The sectors only asked to be erased, in the order of their addresses. */
  ghost predicate ErasesAsked(reqs: seq<Request>, order: seq<nat>) {
    Increasing(order) && forall s: nat :: s in order <==> Asked(reqs, s) && !WrittenTo(reqs, s)
  }

  lemma {:induction false} OrderAtEnd(load: seq<Entry>, reqs: seq<Request>)
    requires Tidy(load) && AsMap(load) == AfterAll(reqs) && AlignedAll(reqs)
    ensures ErasesAsked(reqs, EraseOrder(load))
  {
    var es := SortEntries(load);
    SortEntriesKeeps(load);
    EraseOnlyIncreasing(es);
    WrittenIs(es);
    forall s: nat ensures s in EraseOrder(load) <==> Asked(reqs, s) && !WrittenTo(reqs, s) {
      if s in EraseOrder(load) {
        var i :| 0 <= i < |es| && es[i].address == s && es[i].data.None?;
        assert es[i] in load;
        EntryIsAsked(load, reqs, es[i]);
      }
      if Asked(reqs, s) && !WrittenTo(reqs, s) {
        AskedIsSector(reqs, s);
        RequestsLaw(reqs, s, 0);
        var e := EntryFor(load, s);
      }
    }
  }

  /** What an address in such a sector holds. */
  ghost predicate OrderHolds(g: Geometry, order: seq<nat>, fates: seq<Fate>, before: nat -> Cell, after: nat -> Cell) {
    forall i: nat, x: nat :: i < |order| && ToPhysical(x) == x && Base(x) == order[i] ==>
      after(Cmd(g, x)) == Erased(Nth(fates, i), before(Cmd(g, x)), Cmd(g, x))
  }

  lemma FatedAtEnd(g: Geometry, order: seq<nat>, fates: seq<Fate>, before: nat -> Cell, after: nat -> Cell)
    requires AsFated(g, order, fates, before, after)
    ensures OrderHolds(g, order, fates, before, after)
  {
    forall i: nat, x: nat | i < |order| && ToPhysical(x) == x && Base(x) == order[i]
      ensures after(Cmd(g, x)) == Erased(Nth(fates, i), before(Cmd(g, x)), Cmd(g, x))
    {
      BaseIsPhysical(g, x);
    }
  }

  /** If every command was carried out, they are blank. */
  lemma CarriedAtEnd(g: Geometry, reqs: seq<Request>, order: seq<nat>, fates: seq<Fate>,
                     before: nat -> Cell, after: nat -> Cell, x: nat)
    requires OrderHolds(g, order, fates, before, after) && AllCarried(fates, |order|) && ErasesAsked(reqs, order)
    requires ToPhysical(x) == x && Asked(reqs, Base(x)) && !WrittenTo(reqs, Base(x))
    ensures after(Cmd(g, x)) == Blank
  {
    var i :| 0 <= i < |order| && order[i] == Base(x);
  }

  lemma {:induction false} EntryShown(g: Geometry, load: seq<Entry>, cells: nat -> Cell, x: nat)
    requires Tidy(load) && EntriesShown(g, load, cells) && MapOk(AsMap(load))
    requires Base(x) in AsMap(load) && AsMap(load)[Base(x)].Some? && x - Base(x) < SECTOR
    ensures cells(Cmd(g, x)) == Data(Held(AsMap(load), Base(x), x - Base(x)))
  {
    var e := EntryFor(load, Base(x));
    assert cells(Cmd(g, e.address + (x - Base(x)))) == Data(e.data.value[x - Base(x)]);
  }

  lemma {:induction false} NotAsked(g: Geometry, load: seq<Entry>, reqs: seq<Request>,
                                    before: nat -> Cell, after: nat -> Cell, x: nat)
    requires Tidy(load) && AsMap(load) == AfterAll(reqs) && AlignedAll(reqs) && ToPhysical(x) == x
    requires OnlyLoad(g, load, before, after) && !Asked(reqs, Base(x))
    ensures after(Cmd(g, x)) == before(Cmd(g, x)) && !WrittenTo(reqs, Base(x))
  {
    BaseIsPhysical(g, x);
    RequestsLaw(reqs, Base(x), x - Base(x));
    NotInLoad(g, load, Base(x), true);
    NotInLoad(g, load, Base(x), false);
  }

  lemma {:induction false} AllGrows(reqs: seq<Request>, n: nat)
    requires n <= |reqs|
    ensures |AfterAll(reqs[..n])| <= |AfterAll(reqs)|
    decreases |reqs|
  {
    if n == |reqs| {
      assert reqs[..n] == reqs;
    } else {
      var l := |reqs| - 1;
      assert reqs[..l][..n] == reqs[..n];
      AllGrows(reqs[..l], n);
      OneGrows(AfterAll(reqs[..l]), reqs[l]);
    }
  }

  lemma OneGrows(m: map<nat, Option<seq<Byte>>>, q: Request)
    requires MapOk(m)
    ensures |m| <= |After(m, q)|
  {
    match q
    case EraseAt(address, len) => ErasedGrows(m, address, 0, Sectors(len));
    case WriteAt(address, src) => WrittenGrows(m, address, src, 0, Sectors(|src|));
  }

  /** The requests, one after the other, up to the first that fails. */
  method Ask(l: Loader, reqs: seq<Request>) returns (ok: bool)
    requires l.Valid() && l.load == [] && AlignedAll(reqs)
    modifies l
    ensures l.Valid() && l.starved >= old(l.starved)
    ensures ok ==> AsMap(l.load) == AfterAll(reqs) && l.starved == old(l.starved)
    ensures !ok ==> l.load == [] && (l.starved > old(l.starved) || |AfterAll(reqs)| > LOAD_MAX)
  {
    for i := 0 to |reqs|
      invariant l.Valid() && AsMap(l.load) == AfterAll(reqs[..i]) && l.starved == old(l.starved)
    {
      ValidMap(l.load);
      assert reqs[..i + 1][..i] == reqs[..i] && reqs[i] in reqs;
      match reqs[i] {
        case EraseAt(address, len) => ok := l.Erase(address, len);
        case WriteAt(address, src) => ok := l.Write(address, src);
      }
      if !ok {
        AllGrows(reqs, i + 1);
        return;
      }
    }
    assert reqs[..|reqs|] == reqs;
    ok := true;
  }

  ghost predicate WrittenHeld(g: Geometry, reqs: seq<Request>, cells: nat -> Cell) {
    forall x: nat :: ToPhysical(x) == x && WrittenTo(reqs, Base(x)) ==>
      cells(Cmd(g, x)) == Data(OrErased(LastByte(reqs, x)))
  }

  ghost predicate OthersKept(g: Geometry, reqs: seq<Request>, before: nat -> Cell, after: nat -> Cell) {
    forall x: nat :: ToPhysical(x) == x && !Asked(reqs, Base(x)) ==> after(Cmd(g, x)) == before(Cmd(g, x))
  }

  ghost predicate AllAsWanted(g: Geometry, reqs: seq<Request>, before: nat -> Cell, after: nat -> Cell) {
    forall x: nat :: ToPhysical(x) == x ==> after(Cmd(g, x)) == Wanted(reqs, x, before(Cmd(g, x)))
  }

  lemma {:induction false} HeldAtEnd(g: Geometry, load: seq<Entry>, reqs: seq<Request>, cells: nat -> Cell)
    requires Tidy(load) && AsMap(load) == AfterAll(reqs) && AlignedAll(reqs) && EntriesShown(g, load, cells)
    ensures WrittenHeld(g, reqs, cells)
  {
    forall x: nat | ToPhysical(x) == x && WrittenTo(reqs, Base(x))
      ensures cells(Cmd(g, x)) == Data(OrErased(LastByte(reqs, x)))
    {
      WrittenAtEnd(g, load, reqs, cells, x);
    }
  }

  lemma {:induction false} KeptAtEnd(g: Geometry, load: seq<Entry>, reqs: seq<Request>, before: nat -> Cell,
                                     after: nat -> Cell)
    requires Tidy(load) && AsMap(load) == AfterAll(reqs) && AlignedAll(reqs) && OnlyLoad(g, load, before, after)
    ensures OthersKept(g, reqs, before, after)
  {
    forall x: nat | ToPhysical(x) == x && !Asked(reqs, Base(x)) ensures after(Cmd(g, x)) == before(Cmd(g, x)) {
      NotAsked(g, load, reqs, before, after, x);
    }
  }

  /** A whole load.  On success each address written to holds its last byte, or the erased value
      if only its sector was written to; a sector only asked to be erased is as its one erase
      command left it.  So unless an error went unseen every address holds what the requests
      want of it, and of the sectors asked for just those never written to are blank.  Whatever
      happens, addresses nobody asked for keep what they held, and no sector is erased twice. */
  method Load(l: Loader, e: Eraser, reqs: seq<Request>) returns (ok: bool, ghost order: seq<nat>)
    requires l.Valid() && l.load == [] && AlignedAll(reqs) && !e.d.sqer
    modifies l, e, e.d
    ensures l.Valid() && l.load == []
    ensures l.starved >= old(l.starved) && e.d.faults >= old(e.d.faults) && e.d.unseen >= old(e.d.unseen)
    ensures ok ==> WrittenHeld(e.d.g, reqs, e.d.cells)
    ensures ok ==> && ErasesAsked(reqs, order) && AllQuiet(old(e.d.fates), |order|)
                   && OrderHolds(e.d.g, order, old(e.d.fates), old(e.d.cells), e.d.cells)
    ensures ok && e.d.unseen == old(e.d.unseen) ==>
              && AllAsWanted(e.d.g, reqs, old(e.d.cells), e.d.cells)
              && forall x: nat :: ToPhysical(x) == x && Asked(reqs, Base(x)) ==>
                   (e.d.cells(Cmd(e.d.g, x)) == Blank <==> !WrittenTo(reqs, Base(x)))
    ensures OthersKept(e.d.g, reqs, old(e.d.cells), e.d.cells)
    ensures old(e.d.erases) <= e.d.erases
    ensures
      var erased := Each(e.d.erases[|old(e.d.erases)|..]);
      && Distinct(erased) && OnlyAsked(e.d.g, reqs, erased)
      && (ok ==> LoggedAsFated(e.d.g, order, old(e.d.fates), erased))
    ensures !ok ==> || l.starved > old(l.starved) || e.d.faults > old(e.d.faults) || e.d.unseen > old(e.d.unseen)
                    || exists s: nat :: Asked(reqs, s) && !Permitted(e.d.g, s)
    ensures NothingWritten(reqs) ==>
              (ok <==> && l.starved == old(l.starved)
                       && (forall s: nat :: Asked(reqs, s) ==> Permitted(e.d.g, s))
                       && AllQuiet(old(e.d.fates), |AfterAll(reqs)|))
  {
    var d := e.d;
    order := [];
    ok := Ask(l, reqs);
    TooManyForbidden(d.g, reqs);
    if !ok {
      return;
    }
    ok := FinishLoad(l, e);
    order := EraseOrder(l.load);
    OrderAtEnd(l.load, reqs);
    SizeOf(l.load);
    ErasedAreAsked(d.g, l.load, reqs, Each(d.erases[|old(d.erases)|..]));
    KeptAtEnd(d.g, l.load, reqs, old(d.cells), d.cells);
    if ok {
      FatedAtEnd(d.g, order, old(d.fates), old(d.cells), d.cells);
      HeldAtEnd(d.g, l.load, reqs, d.cells);
      if d.unseen == old(d.unseen) {
        AllAtEnd(d.g, reqs, order, old(d.fates), old(d.cells), d.cells);
      }
    } else if Forbidden(d.g, l.load) {
      ForbiddenAsked(d.g, l.load, reqs);
    }
    if NothingWritten(reqs) {
      EraseOnlyLoad(d.g, l.load, reqs);
    }
    l.Drop();
  }

  ghost predicate OnlyAsked(g: Geometry, reqs: seq<Request>, erased: seq<nat>) {
    forall c :: c in erased ==> exists s: nat :: Asked(reqs, s) && Cmd(g, s) == c
  }

  lemma {:induction false} ErasedAreAsked(g: Geometry, load: seq<Entry>, reqs: seq<Request>, erased: seq<nat>)
    requires Tidy(load) && AsMap(load) == AfterAll(reqs) && AlignedAll(reqs) && ErasedAtMostOnce(g, load, erased)
    ensures OnlyAsked(g, reqs, erased)
  {
    forall c | c in erased ensures exists s: nat :: Asked(reqs, s) && Cmd(g, s) == c {
      var e :| e in load && Cmd(g, e.address) == c;
      EntryIsAsked(load, reqs, e);
    }
  }

  lemma {:induction false} EntryIsAsked(load: seq<Entry>, reqs: seq<Request>, e: Entry)
    requires Tidy(load) && AsMap(load) == AfterAll(reqs) && AlignedAll(reqs) && e in load
    ensures Asked(reqs, e.address) && (e.data.Some? <==> WrittenTo(reqs, e.address))
  {
    EntryAsked(load, e);
    var i :| 0 <= i < |load| && load[i] == e;
    assert EntryOk(load[i]);
    RequestsLaw(reqs, e.address, 0);
  }

  ghost predicate NothingWritten(reqs: seq<Request>) { forall s: nat :: !WrittenTo(reqs, s) }

  lemma AllAtEnd(g: Geometry, reqs: seq<Request>, order: seq<nat>, fates: seq<Fate>,
                 before: nat -> Cell, after: nat -> Cell)
    requires OrderHolds(g, order, fates, before, after) && AllCarried(fates, |order|) && ErasesAsked(reqs, order)
    requires WrittenHeld(g, reqs, after) && OthersKept(g, reqs, before, after)
    ensures AllAsWanted(g, reqs, before, after)
    ensures forall x: nat :: ToPhysical(x) == x && Asked(reqs, Base(x)) ==>
              (after(Cmd(g, x)) == Blank <==> !WrittenTo(reqs, Base(x)))
  {
    forall x: nat | ToPhysical(x) == x && !WrittenTo(reqs, Base(x)) && Asked(reqs, Base(x))
      ensures after(Cmd(g, x)) == Blank
    {
      CarriedAtEnd(g, reqs, order, fates, before, after, x);
    }
    forall s: nat | WrittenTo(reqs, s) ensures Asked(reqs, s) {
      WrittenIsAsked(reqs, s);
    }
  }

  /** With nothing written, all entries are in the order. */
  lemma {:induction false} EraseOnlyLoad(g: Geometry, load: seq<Entry>, reqs: seq<Request>)
    requires Tidy(load) && AsMap(load) == AfterAll(reqs) && AlignedAll(reqs) && NothingWritten(reqs)
    ensures forall e :: e in load ==> e.data.None?
    ensures |EraseOrder(load)| == |load| == |AfterAll(reqs)| <= LOAD_MAX
    ensures AllErasable(g, EraseOrder(load), |EraseOrder(load)|) <==>
              forall s: nat :: Asked(reqs, s) ==> Permitted(g, s)
  {
    SizeOf(load);
    forall e | e in load ensures e.data.None? {
      EntryIsAsked(load, reqs, e);
    }
    SortEntriesKeeps(load);
    AllEraseOnly(SortEntries(load));
    OrderAtEnd(load, reqs);
    var order := EraseOrder(load);
    forall i: nat | i < |order| ensures Asked(reqs, order[i]) {
      assert order[i] in order;
    }
    forall s: nat | Asked(reqs, s) && AllErasable(g, order, |order|) ensures Permitted(g, s) {
      var i :| 0 <= i < |order| && order[i] == s;
    }
  }

  lemma {:induction false} AllEraseOnly(es: seq<Entry>)
    requires forall e :: e in es ==> e.data.None?
    ensures |EraseOnly(es)| == |es|
  {
    if es != [] {
      assert es[|es| - 1] in es;
      AllEraseOnly(es[..|es| - 1]);
    }
  }

  /** One byte written, then its whole sector asked to be erased: if the load succeeds the byte
      is there. */
  method EraseAfterWrite(l: Loader, e: Eraser) returns (ok: bool)
    requires l.Valid() && l.load == [] && !e.d.sqer
    modifies l, e, e.d
    ensures ok ==> e.d.cells(Cmd(e.d.g, PFLASH_BASE)) == Data(1)
  {
    var reqs := [WriteAt(PFLASH_BASE, [1]), EraseAt(PFLASH_BASE, SECTOR)];
    OneByteAsked(reqs[0], reqs[1]);
    ghost var order;
    ok, order := Load(l, e, reqs);
  }

  lemma OneByteAsked(q: Request, r: Request)
    requires q == WriteAt(PFLASH_BASE, [1]) && r == EraseAt(PFLASH_BASE, SECTOR)
    ensures WrittenTo([q, r], PFLASH_BASE) && LastByte([q, r], PFLASH_BASE) == Some(1)
  {
    assert q in [q, r] && Lands(PFLASH_BASE, 0, PFLASH_BASE);
    assert AsksFor(q, PFLASH_BASE);
    assert [q, r][..1] == [q];
    assert LastHit(PFLASH_BASE, 1, PFLASH_BASE) == Some(0);
  }

  /** One sector asked to be erased, the device refusing and its error register unreadable just
      then: the load succeeds all the same, and the sector holds what it held. */
  method EraseNeverMade(l: Loader, g: Geometry, initial: nat -> Cell) returns (ok: bool, d: Device)
    requires l.Valid() && l.load == []
    modifies l
    ensures fresh(d) && d.g == g && (ok <==> l.starved == old(l.starved))
    ensures ok ==> Each(d.erases) == []
    ensures ok ==> forall x: nat :: ToPhysical(x) == x && Base(x) == PFLASH_BASE ==>
              d.cells(Cmd(g, x)) == initial(Cmd(g, x))
  {
    d := new Device(g, initial, [Refused(false)]);
    var e := new Eraser(d);
    var reqs := [EraseAt(PFLASH_BASE, SECTOR)];
    OneSectorAsked(reqs[0]);
    ghost var order;
    ok, order := Load(l, e, reqs);
    if ok {
      assert order[0] == PFLASH_BASE by {
        assert PFLASH_BASE in order && order[0] in order;
      }
      assert d.erases[0..] == d.erases && Nth([Refused(false)], 0) == Refused(false);
      NoneErased(g, reqs, Each(d.erases), PFLASH_BASE);
    }
  }

  lemma NoneErased(g: Geometry, reqs: seq<Request>, erased: seq<nat>, s: nat)
    requires OnlyAsked(g, reqs, erased) && Cmd(g, s) !in erased && forall t: nat :: Asked(reqs, t) ==> t == s
    ensures erased == []
  {
    if erased != [] {
      var c := First(erased);
      assert false;
    }
  }

  lemma First(s: seq<nat>) returns (c: nat)
    requires s != []
    ensures c in s
  {
    c := s[0];
  }

  lemma OneSectorAsked(q: Request)
    requires q == EraseAt(PFLASH_BASE, SECTOR)
    ensures NothingWritten([q]) && |AfterAll([q])| <= LOAD_MAX
    ensures forall s: nat :: Asked([q], s) <==> s == PFLASH_BASE
    ensures forall g :: Permitted(g, PFLASH_BASE)
  {
    assert q in [q] && Lands(PFLASH_BASE, 0, PFLASH_BASE);
    forall s: nat ensures Asked([q], s) <==> s == PFLASH_BASE {
      assert AsksFor(q, s) <==> s == PFLASH_BASE;
    }
    OneSectorMap(q);
  }

  lemma OneSectorMap(q: Request)
    requires q == EraseAt(PFLASH_BASE, SECTOR)
    ensures |AfterAll([q])| <= 1
  {
    var m: map<nat, Option<seq<Byte>>> := map[];
    assert AfterAll([q][..0]) == m;
    assert AfterAll([q]) == ErasedRange(m, PFLASH_BASE, 1);
    assert ErasedRange(m, PFLASH_BASE, 1) == ErasedIn(ErasedRange(m, PFLASH_BASE, 0), SectorAt(PFLASH_BASE));
    assert ErasedRange(m, PFLASH_BASE, 0) == m;
  }

  lemma AskedIsSector(reqs: seq<Request>, s: nat)
    requires Asked(reqs, s)
    ensures s % SECTOR == 0
  {
    var q :| q in reqs && AsksFor(q, s);
    var i :| 0 <= i < Length(q) && Lands(q.address, i, s);
  }

  lemma {:induction false} ForbiddenAsked(g: Geometry, load: seq<Entry>, reqs: seq<Request>)
    requires Tidy(load) && AsMap(load) == AfterAll(reqs) && AlignedAll(reqs) && Forbidden(g, load)
    ensures exists s: nat :: Asked(reqs, s) && !Permitted(g, s)
  {
    var e :| e in load && !Permitted(g, e.address);
    EntryIsAsked(load, reqs, e);
  }
}
