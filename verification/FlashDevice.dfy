/** The target's flash as the flasher meets it: the DMU's erase command, the RAM loader's
    program and checksum commands.  Any of them may fail. */
module FlashDevice {
  import opened Common
  import opened FlashMap

  /** An erased cell has no valid ECC: reading it traps. */
  datatype Cell = Blank | Data(value: Byte)

  const ERASE_RUN_MAX: nat := 32
  const LOADER_BUFFER: nat := 0x8000
  const ERASED: Byte := 0xFF

  datatype Outcome = Done | Failed

  /** An erase command carried out. */
  datatype Erase = Erase(first: nat, count: nat)

  /** What one erase command may cover. */
  predicate EraseAllowed(first: nat, count: nat) {
    && first % SECTOR == 0 && 1 <= count <= ERASE_RUN_MAX
    && first / PHYSICAL_SECTOR == (first + (count - 1) * SECTOR) / PHYSICAL_SECTOR
  }

  /** What becomes of a command: carried out; refused (a sequence error), which changes nothing;
      or failed, its range left as `left` has it.  `read` says whether the flasher gets to see
      the error: it takes a command for done when the error register cannot be read. */
  datatype Fate = Carried | Refused(read: bool) | Botched(left: nat -> Cell, read: bool)

  /** Taken for done? */
  predicate Quiet(f: Fate) { f.Carried? || !f.read }

  /** An error nobody saw. */
  predicate Unseen(f: Fate) { !f.Carried? && !f.read }

  /** The i-th command's fate, and those after n of them. */
  function Nth(fates: seq<Fate>, i: nat): Fate { if i < |fates| then fates[i] else Carried }

  function Rest(fates: seq<Fate>, n: nat): seq<Fate> { if n <= |fates| then fates[n..] else [] }

  lemma FatesOn(fates: seq<Fate>, i: nat, n: nat)
    ensures Nth(Rest(fates, i), 0) == Nth(fates, i) && Rest(Rest(fates, i), n) == Rest(fates, i + n)
  {
  }

  /** What an erase with this fate leaves of a cell in its range. */
  function Erased(f: Fate, was: Cell, a: nat): Cell {
    match f
    case Carried => Blank
    case Refused(_) => was
    case Botched(left, _) => left(a)
  }

  class Device {
    const g: Geometry
    var cells: nat -> Cell          // by command address
    var sqer: bool                  // a sequence error stands in the status
    var erases: seq<Erase>          // erase commands carried out, oldest first
    var fates: seq<Fate>            // what is to become of the commands still to come
    var burns: nat                  // program commands carried out
    ghost var faults: nat           // errors seen, a refused run of several sectors not among them
    ghost var unseen: nat           // errors not seen
    ghost var refusals: nat         // erases refused, the error being seen

    constructor (geometry: Geometry, initial: nat -> Cell, future: seq<Fate>)
      ensures g == geometry && cells == initial && erases == [] && !sqer && fates == future
    {
      g, cells, sqer, erases, fates := geometry, initial, false, [], future;
      burns, faults, unseen, refusals := 0, 0, 0, 0;
    }

    /** What a read of `a` shows. */
    function At(a: nat): Cell
      reads this
    {
      cells(Cmd(g, a))
    }

    method EraseRange(first: nat, count: nat) returns (r: Outcome)
      requires EraseAllowed(first, count)
      modifies this
      ensures
        var f := Nth(old(fates), 0);
        && fates == Rest(old(fates), 1) && (r == Done <==> Quiet(f))
        && (forall a: nat :: cells(a) == if Within(a, first, count * SECTOR) then Erased(f, old(cells)(a), a)
                                         else old(cells)(a))
        && erases == old(erases) + (if f.Carried? then [Erase(first, count)] else [])
        && sqer == (old(sqer) || f == Refused(true))
        && faults == old(faults) + (if Quiet(f) || (f.Refused? && count > 1) then 0 else 1)
        && unseen == old(unseen) + (if Unseen(f) then 1 else 0) && burns == old(burns)
        && refusals == old(refusals) + (if f == Refused(true) then 1 else 0)
    {
      var f, before := Nth(fates, 0), cells;
      fates := Rest(fates, 1);
      cells := (a: nat) => if Within(a, first, count * SECTOR) then Erased(f, before(a), a) else before(a);
      erases := erases + if f.Carried? then [Erase(first, count)] else [];
      sqer := sqer || f == Refused(true);
      faults := faults + if Quiet(f) || (f.Refused? && count > 1) then 0 else 1;
      unseen := unseen + if Unseen(f) then 1 else 0;
      refusals := refusals + if f == Refused(true) then 1 else 0;
      r := if Quiet(f) then Done else Failed;
    }

    /** Whole pages.  What comes of pages that are not blank is anyone's guess. */
    method ProgramPages(address: nat, bytes: seq<Byte>) returns (r: Outcome)
      requires address % PAGE == 0 && |bytes| % PAGE == 0 && |bytes| <= LOADER_BUFFER
      modifies this
      ensures erases == old(erases) && sqer == old(sqer)
      ensures faults == old(faults) + (if r == Failed then 1 else 0) && unseen >= old(unseen)
      ensures forall a: nat :: !Within(a, address, |bytes|) ==> cells(a) == old(cells(a))
      ensures r == Done && unseen == old(unseen) && AllBlank(address, |bytes|, old(cells)) ==>
                forall a: nat :: Within(a, address, |bytes|) ==> cells(a) == Data(bytes[a - address])
    {
      var f, before := Nth(fates, 0), cells;
      fates := Rest(fates, 1);
      var left: nat -> Cell := *;
      if f.Carried? {
        burns := burns + 1;
        cells := (a: nat) => if Within(a, address, |bytes|)
                             then if before(a) == Blank then Data(bytes[a - address]) else left(a)
                             else before(a);
      } else {
        cells := (a: nat) => if Within(a, address, |bytes|) then left(a) else before(a);
      }
      r := if Quiet(f) then Done else Failed;
      faults := faults + if r == Failed then 1 else 0;
      unseen := unseen + if Unseen(f) then 1 else 0;
    }

    /** The bytes a checksum of [address, address + length) is over; none if the stub traps
        on an erased cell, or the command fails. */
    method Checksum(address: nat, length: nat) returns (sum: Option<seq<Byte>>)
      modifies this`faults, this`fates
      ensures faults >= old(faults)
      ensures sum.Some? ==> Shows(cells, g, address, sum.value) && |sum.value| == length && faults == old(faults)
      ensures sum.None? && faults == old(faults) ==> exists x: nat :: Within(x, address, length) && At(x) == Blank
    {
      var f := Nth(fates, 0);
      fates := Rest(fates, 1);
      if !Quiet(f) {
        faults := faults + 1;
        return None;
      }
      var bytes := [];
      for i := 0 to length
        invariant |bytes| == i && Shows(cells, g, address, bytes) && faults == old(faults)
      {
        if At(address + i) == Blank {
          assert Within(address + i, address, length);
          return None;
        }
        bytes := bytes + [At(address + i).value];
      }
      sum := Some(bytes);
    }
  }

  ghost predicate AllBlank(base: nat, n: nat, cells: nat -> Cell) {
    forall a: nat :: Within(a, base, n) ==> cells(a) == Blank
  }

  /** Reads from `address` on show these bytes. */
  predicate Shows(cells: nat -> Cell, g: Geometry, address: nat, bytes: seq<Byte>) {
    forall i :: 0 <= i < |bytes| ==> cells(Cmd(g, address + i)) == Data(bytes[i])
  }
}
