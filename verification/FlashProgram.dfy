/** Programming a range through the loader's buffer, and a region's kept sectors. */
module FlashProgram {
  import opened Common
  import opened FlashMap
  import opened FlashDevice
  import opened FlashErase
  import opened FlashImage

  /** The first n bytes of a padded range hold their values, and nothing else has changed. */
  ghost predicate ProgrammedTo(data: seq<Byte>, base: nat, n: nat, before: nat -> Cell, after: nat -> Cell) {
    forall a: nat ::
      after(a) == if Within(a, base, n) then Data(PaddedByte(data, a - base))
                  else before(a)
  }

  ghost predicate OutsideKept(base: nat, n: nat, before: nat -> Cell, after: nat -> Cell) {
    forall a: nat :: !Within(a, base, n) ==> after(a) == before(a)
  }

  /** Nothing else has changed; and if no error was seen or went unseen, and the range was blank,
      it holds the padded data. */
  ghost predicate PieceDone(data: seq<Byte>, base: nat, before: nat -> Cell, after: nat -> Cell, quiet: bool) {
    && OutsideKept(base, PadUp(|data|), before, after)
    && (quiet && AllBlank(base, PadUp(|data|), before) ==> ProgrammedTo(data, base, PadUp(|data|), before, after))
  }

  predicate StartsPermitted(g: Geometry, address: nat, len: nat) {
    forall off: nat :: off < len ==> StartPermitted(g, address, off)
  }

  predicate StartPermitted(g: Geometry, address: nat, off: nat) {
    off % LOADER_BUFFER == 0 ==> Permitted(g, address + off)
  }

  // ------------------------------------------------------- where a range's bytes go

  /** Each bufferful is translated by its start. */
  function Place(g: Geometry, address: nat, off: nat): nat {
    Cmd(g, address + (off - off % LOADER_BUFFER)) + off % LOADER_BUFFER
  }

  /** One of the first n bytes goes there. */
  ghost predicate IsPlace(g: Geometry, address: nat, n: nat, a: nat) {
    exists off: nat :: off < n && Place(g, address, off) == a
  }

  ghost predicate PlacesApart(g: Geometry, address: nat, n: nat) {
    forall o: nat, p: nat :: o < n && p < n && Place(g, address, o) == Place(g, address, p) ==> o == p
  }

  ghost predicate PlacesBlank(g: Geometry, address: nat, n: nat, cells: nat -> Cell) {
    forall off: nat :: off < n ==> cells(Place(g, address, off)) == Blank
  }

  /** All a program may count on: no byte lands on another, and none on data. */
  ghost predicate Clear(g: Geometry, address: nat, n: nat, cells: nat -> Cell) {
    PlacesApart(g, address, n) && PlacesBlank(g, address, n, cells)
  }

  ghost predicate OnlyPlaces(g: Geometry, address: nat, n: nat, before: nat -> Cell, after: nat -> Cell) {
    forall a: nat :: !IsPlace(g, address, n, a) ==> after(a) == before(a)
  }

  ghost predicate PlacedTo(g: Geometry, address: nat, data: seq<Byte>, n: nat, cells: nat -> Cell) {
    forall off: nat :: off < n ==> cells(Place(g, address, off)) == Data(PaddedByte(data, off))
  }

  /** Where programming a range stands after n bytes; if no error went unseen, what could be
      programmed is. */
  ghost predicate PlacedSoFar(g: Geometry, address: nat, data: seq<Byte>, n: nat,
                              before: nat -> Cell, cells: nat -> Cell, quiet: bool)
  {
    && OnlyPlaces(g, address, n, before, cells)
    && (quiet && Clear(g, address, PadUp(|data|), before) ==> PlacedTo(g, address, data, n, cells))
  }

  /** In chunks of the loader's buffer, of which only the start is checked and translated. */
  method Program(d: Device, address: nat, data: seq<Byte>) returns (r: Outcome)
    modifies d
    ensures d.erases == old(d.erases) && d.sqer == old(d.sqer)
    ensures d.faults >= old(d.faults) && d.unseen >= old(d.unseen)
    ensures r == Done <==> d.faults == old(d.faults) && address % PAGE == 0 && StartsPermitted(d.g, address, |data|)
    ensures OnlyPlaces(d.g, address, PadUp(|data|), old(d.cells), d.cells)
    ensures r == Done && d.unseen == old(d.unseen) && Clear(d.g, address, PadUp(|data|), old(d.cells)) ==>
              PlacedTo(d.g, address, data, PadUp(|data|), d.cells)
  {
    if address % PAGE != 0 {
      return Failed;
    }
    var off := 0;
    while off < |data|
      invariant off <= |data| && (off < |data| ==> off % LOADER_BUFFER == 0)
      invariant d.erases == old(d.erases) && d.sqer == old(d.sqer) && d.faults == old(d.faults)
      invariant d.unseen >= old(d.unseen) && StartsPermitted(d.g, address, off)
      invariant PlacedSoFar(d.g, address, data, PadUp(off), old(d.cells), d.cells, d.unseen == old(d.unseen))
    {
      r, off := ProgramNext(d, address, data, off, old(d.cells), old(d.unseen));
      if r == Failed {
        return;
      }
    }
    r := Done;
  }

  /** The next bufferful, if its start is program flash. */
  method ProgramNext(d: Device, address: nat, data: seq<Byte>, off: nat, ghost before: nat -> Cell,
                     ghost unseen0: nat)
    returns (r: Outcome, next: nat)
    requires address % PAGE == 0 && off < |data| && off % LOADER_BUFFER == 0 && d.unseen >= unseen0
    requires StartsPermitted(d.g, address, off)
    requires PlacedSoFar(d.g, address, data, PadUp(off), before, d.cells, d.unseen == unseen0)
    modifies d
    ensures d.erases == old(d.erases) && d.sqer == old(d.sqer)
    ensures d.faults >= old(d.faults) && d.unseen >= old(d.unseen)
    ensures off < next <= |data| && (next < |data| ==> next % LOADER_BUFFER == 0)
    ensures r == Done <==> d.faults == old(d.faults) && StartsPermitted(d.g, address, next)
    ensures OnlyPlaces(d.g, address, PadUp(|data|), before, d.cells)
    ensures r == Done ==> PlacedSoFar(d.g, address, data, PadUp(next), before, d.cells, d.unseen == unseen0)
  {
    var chunk := if |data| - off > LOADER_BUFFER then LOADER_BUFFER else |data| - off;
    next := off + chunk;
    ChunkEnds(|data|, off, chunk);
    StartsOfChunk(d.g, address, off, chunk);
    if !Permitted(d.g, address + off) {
      FewerPlaces(d.g, address, PadUp(off), PadUp(|data|), before, d.cells);
      return Failed, next;
    }
    ghost var mid := d.cells;
    PageAligned(d.g, address + off);
    r := ProgramChunk(d, Cmd(d.g, address + off), data[off..next]);
    NextSoFar(d.g, address, data, off, chunk, before, mid, d.cells, r == Done && d.unseen == unseen0);
    FewerPlaces(d.g, address, PadUp(next), PadUp(|data|), before, d.cells);
  }

  method ProgramChunk(d: Device, at: nat, data: seq<Byte>) returns (r: Outcome)
    requires at % PAGE == 0 && PadUp(|data|) <= LOADER_BUFFER
    modifies d
    ensures d.erases == old(d.erases) && d.sqer == old(d.sqer) && d.unseen >= old(d.unseen)
    ensures d.faults >= old(d.faults) && (r == Done <==> d.faults == old(d.faults))
    ensures PieceDone(data, at, old(d.cells), d.cells, r == Done && d.unseen == old(d.unseen))
  {
    r := d.ProgramPages(at, Padded(data));
  }

  lemma NextSoFar(g: Geometry, address: nat, data: seq<Byte>, off: nat, chunk: nat, before: nat -> Cell,
                  mid: nat -> Cell, after: nat -> Cell, quiet: bool)
    requires off < |data| && off % LOADER_BUFFER == 0
    requires chunk == if |data| - off > LOADER_BUFFER then LOADER_BUFFER else |data| - off
    requires PlacedSoFar(g, address, data, PadUp(off), before, mid, quiet)
    requires PieceDone(data[off..off + chunk], Cmd(g, address + off), mid, after, quiet)
    ensures PlacedSoFar(g, address, data, PadUp(off + chunk), before, after, quiet)
  {
    ChunkEnds(|data|, off, chunk);
    NextPlaces(g, address, off, PadUp(chunk), before, mid, after);
    if quiet && Clear(g, address, PadUp(|data|), before) {
      NextClear(g, address, off, PadUp(chunk), PadUp(|data|), before, mid);
      if off + chunk < |data| {
        PadUpExact(chunk);
      }
      NextPlaced(g, address, data, off, chunk, mid, after);
    }
  }

  lemma FewerPlaces(g: Geometry, address: nat, m: nat, n: nat, before: nat -> Cell, after: nat -> Cell)
    requires m <= n && OnlyPlaces(g, address, m, before, after)
    ensures OnlyPlaces(g, address, n, before, after)
  {
    forall a: nat | IsPlace(g, address, m, a) ensures IsPlace(g, address, n, a) {
      var off: nat :| off < m && Place(g, address, off) == a;
    }
  }

  /** In a chunk, places follow one another. */
  lemma ChunkPlaces(g: Geometry, address: nat, off: nat, j: nat)
    requires off % LOADER_BUFFER == 0 && j < LOADER_BUFFER
    ensures Place(g, address, off + j) == Cmd(g, address + off) + j
  {
    InChunk(off, j);
  }

  lemma NextPlaces(g: Geometry, address: nat, off: nat, n: nat, before: nat -> Cell, mid: nat -> Cell,
                   after: nat -> Cell)
    requires off % LOADER_BUFFER == 0 && n <= LOADER_BUFFER && OnlyPlaces(g, address, off, before, mid)
    requires OutsideKept(Cmd(g, address + off), n, mid, after)
    ensures OnlyPlaces(g, address, off + n, before, after)
  {
    var at, m := Cmd(g, address + off), off + n;
    FewerPlaces(g, address, off, m, before, mid);
    forall a: nat | Within(a, at, n) ensures IsPlace(g, address, m, a) {
      ChunkPlaces(g, address, off, a - at);
      assert Place(g, address, off + (a - at)) == a;
    }
  }

  /** Where the next chunk goes none before it went. */
  lemma NotYetPlaced(g: Geometry, address: nat, off: nat, n: nat, all: nat, a: nat)
    requires off % LOADER_BUFFER == 0 && n <= LOADER_BUFFER && off + n <= all
    requires PlacesApart(g, address, all) && Within(a, Cmd(g, address + off), n)
    ensures IsPlace(g, address, all, a) && !IsPlace(g, address, off, a)
  {
    var o := off + (a - Cmd(g, address + off));
    ChunkPlaces(g, address, off, o - off);
    assert Place(g, address, o) == a;
  }

  lemma NextClear(g: Geometry, address: nat, off: nat, n: nat, all: nat, before: nat -> Cell, mid: nat -> Cell)
    requires off % LOADER_BUFFER == 0 && n <= LOADER_BUFFER && off + n <= all
    requires Clear(g, address, all, before) && OnlyPlaces(g, address, off, before, mid)
    ensures AllBlank(Cmd(g, address + off), n, mid)
    ensures forall o: nat :: o < off ==> !Within(Place(g, address, o), Cmd(g, address + off), n)
  {
    var at := Cmd(g, address + off);
    forall a: nat | Within(a, at, n) ensures mid(a) == Blank && !IsPlace(g, address, off, a) {
      NotYetPlaced(g, address, off, n, all, a);
    }
    forall o: nat | o < off ensures !Within(Place(g, address, o), at, n) {
      assert IsPlace(g, address, off, Place(g, address, o));
    }
  }

  lemma NextPlaced(g: Geometry, address: nat, data: seq<Byte>, off: nat, chunk: nat, mid: nat -> Cell,
                   after: nat -> Cell)
    requires off + chunk <= |data| && off % LOADER_BUFFER == 0 && PadUp(chunk) <= LOADER_BUFFER
    requires off + chunk < |data| ==> PadUp(chunk) == chunk
    requires PlacedTo(g, address, data, off, mid)
    requires forall o: nat :: o < off ==> !Within(Place(g, address, o), Cmd(g, address + off), PadUp(chunk))
    requires ProgrammedTo(data[off..off + chunk], Cmd(g, address + off), PadUp(chunk), mid, after)
    ensures PlacedTo(g, address, data, off + PadUp(chunk), after)
  {
    forall o: nat | o < off + PadUp(chunk) ensures after(Place(g, address, o)) == Data(PaddedByte(data, o)) {
      if o >= off {
        ChunkPlaces(g, address, off, o - off);
        assert PaddedByte(data[off..off + chunk], o - off) == PaddedByte(data, o);
      }
    }
  }

  lemma StartsOfChunk(g: Geometry, address: nat, off: nat, chunk: nat)
    requires off % LOADER_BUFFER == 0 && 0 < chunk <= LOADER_BUFFER && StartsPermitted(g, address, off)
    ensures Permitted(g, address + off) <==> StartsPermitted(g, address, off + chunk)
  {
    forall o: nat | off < o < off + chunk ensures o % LOADER_BUFFER != 0 {
      InChunk(off, o - off);
    }
    assert StartPermitted(g, address, off) <==> Permitted(g, address + off);
    if Permitted(g, address + off) {
      forall o: nat | o < off + chunk ensures StartPermitted(g, address, o) {
      }
    }
  }

  lemma InChunk(off: nat, j: nat)
    requires off % LOADER_BUFFER == 0 && j < LOADER_BUFFER
    ensures (off + j) % LOADER_BUFFER == j
  {
  }

  /** Where every sector of a range is permitted, so is every chunk's start, and the chunks go
      one behind the other. */
  lemma InOnePiece(g: Geometry, address: nat, len: nat)
    requires AllPermitted(g, address, address + len) && address % PAGE == 0
    ensures StartsPermitted(g, address, len)
    ensures forall off: nat :: off < PadUp(len) ==> Place(g, address, off) == Cmd(g, address) + off
  {
    forall off: nat | off < len ensures StartPermitted(g, address, off) {
      BaseOf(address + off, address);
      SectorWhole(g, address + off);
    }
    forall off: nat | off < PadUp(len) ensures Place(g, address, off) == Cmd(g, address) + off {
      var start := off - off % LOADER_BUFFER;
      WholeChunks(start);
      PadUpLeast(len, start);
      BaseOf(address + start, address);
      RangeTranslates(g, address, address + len, address + start);
    }
  }

  /** So a range of program flash is programmed in one piece. */
  lemma PieceProgrammed(g: Geometry, address: nat, data: seq<Byte>, before: nat -> Cell, after: nat -> Cell)
    requires AllPermitted(g, address, address + |data|) && address % PAGE == 0
    requires OnlyPlaces(g, address, PadUp(|data|), before, after)
    ensures OutsideKept(Cmd(g, address), PadUp(|data|), before, after)
    ensures AllBlank(Cmd(g, address), PadUp(|data|), before) ==> Clear(g, address, PadUp(|data|), before)
    ensures PlacedTo(g, address, data, PadUp(|data|), after) ==>
              ProgrammedTo(data, Cmd(g, address), PadUp(|data|), before, after)
  {
    InOnePiece(g, address, |data|);
    forall a: nat
      ensures IsPlace(g, address, PadUp(|data|), a) <==> Within(a, Cmd(g, address), PadUp(|data|))
      ensures Within(a, Cmd(g, address), PadUp(|data|)) ==> a == Place(g, address, a - Cmd(g, address))
    {
      if Within(a, Cmd(g, address), PadUp(|data|)) {
        assert Place(g, address, a - Cmd(g, address)) == a;
      }
    }
  }

  method ProgramPiece(d: Device, address: nat, data: seq<Byte>) returns (r: Outcome)
    requires AllPermitted(d.g, address, address + |data|) && address % PAGE == 0
    modifies d
    ensures d.erases == old(d.erases) && d.sqer == old(d.sqer) && d.unseen >= old(d.unseen)
    ensures d.faults >= old(d.faults) && (r == Done <==> d.faults == old(d.faults))
    ensures PieceDone(data, Cmd(d.g, address), old(d.cells), d.cells, r == Done && d.unseen == old(d.unseen))
  {
    InOnePiece(d.g, address, |data|);
    r := Program(d, address, data);
    PieceProgrammed(d.g, address, data, old(d.cells), d.cells);
  }

  lemma PageAligned(g: Geometry, address: nat)
    requires address % PAGE == 0
    ensures Cmd(g, address) % PAGE == 0
  {
    SectorWhole(g, address);
  }

  lemma WholeChunks(off: nat)
    requires off % LOADER_BUFFER == 0
    ensures off % PAGE == 0 && (off + LOADER_BUFFER) % LOADER_BUFFER == 0
  {
    var k := off / LOADER_BUFFER;
    assert off == PAGE * (1024 * k);
  }

  lemma ChunkEnds(len: nat, off: nat, chunk: nat)
    requires off < len && off % LOADER_BUFFER == 0
    requires chunk == if len - off > LOADER_BUFFER then LOADER_BUFFER else len - off
    ensures PadUp(off) == off && PadUp(off + chunk) == off + PadUp(chunk) <= PadUp(len)
    ensures off + chunk < len ==> (off + chunk) % LOADER_BUFFER == 0
    ensures off % PAGE == 0 && PadUp(chunk) <= LOADER_BUFFER
  {
    WholeChunks(off);
    PadUpExact(off);
    PadUpShift(off + chunk, off);
    PadUpShift(len, off);
    if chunk == LOADER_BUFFER {
      PadUpExact(chunk);
      WholeChunks(LOADER_BUFFER);
      assert PadUp(len - off) >= chunk;
    }
  }
}
