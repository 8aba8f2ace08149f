/** What a sequence of erase and write requests asks for, and that the collection is it. */
module GdbRequests {
  import opened Common
  import opened FlashMap
  import opened FlashDevice
  import opened GdbLoad

  datatype Request = EraseAt(address: nat, len: nat) | WriteAt(address: nat, src: seq<Byte>)

  // -------------------------------------------------------------- what is asked

  /** How many addresses a request covers, from its first one on. */
  function Length(q: Request): nat { if q.EraseAt? then q.len else |q.src| }

  predicate Lands(start: nat, i: nat, s: nat) { SectorAt(start + i) == s }

  /** One of n addresses from `start` on is in sector s. */
  predicate Covers(start: nat, n: nat, s: nat) { exists i :: 0 <= i < n && Lands(start, i, s) }

  predicate AsksFor(q: Request, s: nat) { Covers(q.address, Length(q), s) }

  predicate Asked(reqs: seq<Request>, s: nat) { exists q :: q in reqs && AsksFor(q, s) }

  predicate WrittenTo(reqs: seq<Request>, s: nat) { exists q :: q in reqs && q.WriteAt? && AsksFor(q, s) }

  /** The last of n addresses from `start` on to be x, by whichever alias. */
  function LastHit(start: nat, n: nat, x: nat): (r: Option<nat>)
    ensures r.Some? ==> r.value < n
  {
    if n == 0 then None
    else if ToPhysical(start + (n - 1)) == x then Some(n - 1)
    else LastHit(start, n - 1, x)
  }

  /** The byte the last write to x put there. */
  function LastByte(reqs: seq<Request>, x: nat): Option<Byte> {
    if reqs == [] then None
    else
      var q := reqs[|reqs| - 1];
      var hit := if q.WriteAt? then LastHit(q.address, |q.src|, x) else None;
      if hit.Some? then Some(q.src[hit.value]) else LastByte(reqs[..|reqs| - 1], x)
  }

  function OrErased(b: Option<Byte>): Byte { if b.Some? then b.value else ERASED }

  // ---------------------------------------------------------- what is collected

  function After(m: map<nat, Option<seq<Byte>>>, q: Request): (r: map<nat, Option<seq<Byte>>>)
    requires MapOk(m)
    ensures MapOk(r)
  {
    match q
    case EraseAt(address, len) =>
      ErasedRangeOk(m, address, Sectors(len));
      ErasedRange(m, address, Sectors(len))
    case WriteAt(address, src) => WrittenRange(m, address, src, Sectors(|src|))
  }

  function AfterAll(reqs: seq<Request>): (r: map<nat, Option<seq<Byte>>>)
    ensures MapOk(r)
  {
    if reqs == [] then map[] else After(AfterAll(reqs[..|reqs| - 1]), reqs[|reqs| - 1])
  }

  lemma {:induction false} ErasedRangeOk(m: map<nat, Option<seq<Byte>>>, address: nat, n: nat)
    requires MapOk(m)
    ensures MapOk(ErasedRange(m, address, n))
  {
    if n > 0 {
      ErasedRangeOk(m, address, n - 1);
    }
  }

  // ------------------------------------------------------------- sector by sector

  /** From a sector's start on, an alias is left only at a sector's end. */
  lemma SectorRun(start: nat, k: nat, j: nat)
    requires start % SECTOR == 0 && j < SECTOR
    ensures ToPhysical(start + k * SECTOR + j) == SectorAt(start + k * SECTOR) + j
    ensures SectorAt(start + k * SECTOR + j) == SectorAt(start + k * SECTOR)
    ensures SectorAt(start + k * SECTOR) % SECTOR == 0
  {
  }

  /** A range's addresses are in the sectors its steps reach. */
  lemma CoversBySteps(start: nat, len: nat, s: nat)
    requires start % SECTOR == 0
    ensures Covers(start, len, s) <==> exists k :: 0 <= k < Sectors(len) && Lands(start, k * SECTOR, s)
  {
    if Covers(start, len, s) {
      var i :| 0 <= i < len && Lands(start, i, s);
      var k := i / SECTOR;
      SectorRun(start, k, i % SECTOR);
      assert i == k * SECTOR + i % SECTOR;
      assert 0 <= k < Sectors(len) && Lands(start, k * SECTOR, s);
    }
    if k :| 0 <= k < Sectors(len) && Lands(start, k * SECTOR, s) {
      StepInside(len, k);
    }
  }

  lemma StepInside(len: nat, k: nat)
    requires k < Sectors(len)
    ensures k * SECTOR < len
  {
  }

  /** An erase request: the sectors of its range are there now, as they were if they were. */
  lemma {:induction false} ErasedLaw(m: map<nat, Option<seq<Byte>>>, address: nat, n: nat, s: nat)
    ensures
      var r := ErasedRange(m, address, n);
      && (s in r <==> s in m || exists k :: 0 <= k < n && Lands(address, k * SECTOR, s))
      && (s in r ==> r[s] == if s in m then m[s] else None)
  {
    if n > 0 {
      ErasedLaw(m, address, n - 1, s);
      if SectorAt(address + (n - 1) * SECTOR) == s {
        assert Lands(address, (n - 1) * SECTOR, s);
      }
    }
  }

  /** What o bytes into sector s is to be written, if it is not asked for. */
  function Held(m: map<nat, Option<seq<Byte>>>, s: nat, o: nat): Byte
    requires MapOk(m) && o < SECTOR
  {
    if s in m && m[s].Some? then m[s].value[o] else ERASED
  }

  lemma {:induction false} ChunkHit(start: nat, k: nat, c: nat, x: nat)
    requires start % SECTOR == 0 && c <= SECTOR
    ensures
      var t := SectorAt(start + k * SECTOR);
      LastHit(start, k * SECTOR + c, x)
      == if t <= x < t + c then Some(k * SECTOR + (x - t)) else LastHit(start, k * SECTOR, x)
  {
    if c > 0 {
      ChunkHit(start, k, c - 1, x);
      SectorRun(start, k, c - 1);
      assert start + (k * SECTOR + c - 1) == start + k * SECTOR + (c - 1);
    }
  }

  lemma InSector(s: nat, o: nat, t: nat, c: nat)
    requires s % SECTOR == 0 && t % SECTOR == 0 && o < SECTOR && c <= SECTOR
    ensures t <= s + o < t + c <==> s == t && o < c
  {
  }

  /** One sector's worth of a write request. */
  lemma WrittenOne(m: map<nat, Option<seq<Byte>>>, t: nat, chunk: seq<Byte>, s: nat, o: nat)
    requires MapOk(m) && |chunk| <= SECTOR && o < SECTOR
    ensures
      var r := WrittenIn(m, t, chunk);
      && (s in r <==> s in m || s == t)
      && (if s == t then r[s].Some? && Held(r, s, o) == (if o < |chunk| then chunk[o] else Held(m, s, o))
          else s in r ==> r[s] == m[s])
  {
  }

  /** How many bytes n steps of a write cover. */
  function Upto(n: nat, len: nat): nat { if n * SECTOR < len then n * SECTOR else len }

  predicate Reaches(start: nat, n: nat, s: nat) { exists k :: 0 <= k < n && Lands(start, k * SECTOR, s) }

  /** A write request: a sector it reaches has its last bytes over what was held; no other
      sector changes. */
  predicate WrittenAs(m: map<nat, Option<seq<Byte>>>, r: map<nat, Option<seq<Byte>>>, start: nat, src: seq<Byte>,
                      n: nat, s: nat, o: nat)
    requires MapOk(m) && MapOk(r) && o < SECTOR
  {
    var hit := LastHit(start, Upto(n, |src|), s + o);
    && (s in r <==> s in m || Reaches(start, n, s))
    && (if Reaches(start, n, s)
        then r[s].Some? && Held(r, s, o) == (if hit.Some? then src[hit.value] else Held(m, s, o))
        else hit == None && (s in r ==> r[s] == m[s]))
  }

  lemma ReachesMore(start: nat, n: nat, s: nat)
    ensures Reaches(start, n + 1, s) <==> Reaches(start, n, s) || SectorAt(start + n * SECTOR) == s
  {
    if SectorAt(start + n * SECTOR) == s {
      assert Lands(start, n * SECTOR, s);
    }
  }

  /** The k-th step is the last to hit the bytes it lays down. */
  lemma HitStep(start: nat, len: nat, k: nat, c: nat, s: nat, o: nat)
    requires start % SECTOR == 0 && s % SECTOR == 0 && o < SECTOR && k * SECTOR < len
    requires c == if len - k * SECTOR < SECTOR then len - k * SECTOR else SECTOR
    ensures Upto(k, len) == k * SECTOR && Upto(k + 1, len) == k * SECTOR + c
    ensures LastHit(start, Upto(k + 1, len), s + o)
         == if s == SectorAt(start + k * SECTOR) && o < c then Some(k * SECTOR + o)
            else LastHit(start, Upto(k, len), s + o)
  {
    SectorRun(start, k, 0);
    InSector(s, o, SectorAt(start + k * SECTOR), c);
    ChunkHit(start, k, c, s + o);
  }

  lemma ChunkByte(src: seq<Byte>, off: nat, o: nat)
    requires off < |src|
    ensures |Chunk(src, off)| == if |src| - off < SECTOR then |src| - off else SECTOR
    ensures o < |Chunk(src, off)| ==> off + o < |src| && Chunk(src, off)[o] == src[off + o]
  {
  }

  lemma WrittenStep(m: map<nat, Option<seq<Byte>>>, mid: map<nat, Option<seq<Byte>>>,
                    start: nat, src: seq<Byte>, k: nat, s: nat, o: nat)
    requires MapOk(m) && MapOk(mid) && start % SECTOR == 0 && s % SECTOR == 0 && o < SECTOR
    requires k * SECTOR < |src| && WrittenAs(m, mid, start, src, k, s, o)
    ensures WrittenAs(m, WrittenIn(mid, SectorAt(start + k * SECTOR), Chunk(src, k * SECTOR)), start, src, k + 1, s, o)
  {
    var t, chunk := SectorAt(start + k * SECTOR), Chunk(src, k * SECTOR);
    ChunkByte(src, k * SECTOR, o);
    WrittenOne(mid, t, chunk, s, o);
    HitStep(start, |src|, k, |chunk|, s, o);
    ReachesMore(start, k, s);
  }

  lemma {:induction false} WrittenLaw(m: map<nat, Option<seq<Byte>>>, start: nat, src: seq<Byte>, n: nat, s: nat,
                                      o: nat)
    requires MapOk(m) && start % SECTOR == 0 && s % SECTOR == 0 && o < SECTOR
    requires n > 0 ==> (n - 1) * SECTOR < |src|
    ensures WrittenAs(m, WrittenRange(m, start, src, n), start, src, n, s, o)
  {
    if n == 0 {
      NothingWrittenYet(m, start, src, s, o);
    } else {
      WrittenLaw(m, start, src, n - 1, s, o);
      WrittenNext(m, start, src, n - 1, s, o);
    }
  }

  lemma {:induction false} WrittenNext(m: map<nat, Option<seq<Byte>>>, start: nat, src: seq<Byte>, k: nat, s: nat,
                                       o: nat)
    requires MapOk(m) && start % SECTOR == 0 && s % SECTOR == 0 && o < SECTOR && k * SECTOR < |src|
    requires k > 0 ==> (k - 1) * SECTOR < |src|
    requires WrittenAs(m, WrittenRange(m, start, src, k), start, src, k, s, o)
    ensures WrittenAs(m, WrittenRange(m, start, src, k + 1), start, src, k + 1, s, o)
  {
    WrittenStep(m, WrittenRange(m, start, src, k), start, src, k, s, o);
    OneMoreSector(m, start, src, k, k * SECTOR);
  }

  lemma NothingWrittenYet(m: map<nat, Option<seq<Byte>>>, start: nat, src: seq<Byte>, s: nat, o: nat)
    requires MapOk(m) && start % SECTOR == 0 && s % SECTOR == 0 && o < SECTOR
    ensures WrittenAs(m, m, start, src, 0, s, o)
  {
  }

  // ------------------------------------------------------------ request by request

  predicate AlignedAll(reqs: seq<Request>) { forall q :: q in reqs ==> q.address % SECTOR == 0 }

  /** The collection after any sequence of requests: the sectors asked for, those written to
      with the last byte written at each address, or the erased value. */
  predicate CollectedAs(reqs: seq<Request>, m: map<nat, Option<seq<Byte>>>, s: nat, o: nat)
    requires MapOk(m) && o < SECTOR
  {
    && (s in m <==> Asked(reqs, s))
    && (s in m ==> (m[s].Some? <==> WrittenTo(reqs, s)))
    && (if WrittenTo(reqs, s) then Held(m, s, o) == OrErased(LastByte(reqs, s + o)) else LastByte(reqs, s + o) == None)
  }

  lemma OneMore(reqs: seq<Request>, q: Request, s: nat)
    ensures Asked(reqs + [q], s) <==> Asked(reqs, s) || AsksFor(q, s)
    ensures WrittenTo(reqs + [q], s) <==> WrittenTo(reqs, s) || (q.WriteAt? && AsksFor(q, s))
  {
    var all := reqs + [q];
    assert q in all;
    assert forall p :: p in all <==> p in reqs || p == q;
  }

  lemma {:induction false} RequestsLaw(reqs: seq<Request>, s: nat, o: nat)
    requires AlignedAll(reqs) && s % SECTOR == 0 && o < SECTOR
    ensures CollectedAs(reqs, AfterAll(reqs), s, o)
  {
    if reqs != [] {
      var n := |reqs| - 1;
      var before, q := reqs[..n], reqs[n];
      assert reqs == before + [q];
      RequestsLaw(before, s, o);
      OneMore(before, q, s);
      CoversBySteps(q.address, Length(q), s);
      if q.EraseAt? {
        ErasedLaw(AfterAll(before), q.address, Sectors(q.len), s);
      } else {
        WrittenLaw(AfterAll(before), q.address, q.src, Sectors(|q.src|), s, o);
        assert Upto(Sectors(|q.src|), |q.src|) == |q.src|;
      }
    }
  }

  // -------------------------------------------------------------- the limit on sectors

  lemma {:induction false} ErasedKeys(m: map<nat, Option<seq<Byte>>>, address: nat, n: nat)
    requires forall s :: s in m ==> s % SECTOR == 0 && ToPhysical(s) == s
    ensures forall s :: s in ErasedRange(m, address, n) ==> s % SECTOR == 0 && ToPhysical(s) == s
  {
    if n > 0 {
      ErasedKeys(m, address, n - 1);
      PhysicalSector(address + (n - 1) * SECTOR);
    }
  }

  lemma {:induction false} WrittenKeys(m: map<nat, Option<seq<Byte>>>, dest: nat, src: seq<Byte>, n: nat)
    requires MapOk(m) && (n > 0 ==> (n - 1) * SECTOR < |src|)
    requires forall s :: s in m ==> s % SECTOR == 0 && ToPhysical(s) == s
    ensures forall s :: s in WrittenRange(m, dest, src, n) ==> s % SECTOR == 0 && ToPhysical(s) == s
  {
    if n > 0 {
      WrittenKeys(m, dest, src, n - 1);
      PhysicalSector(dest + (n - 1) * SECTOR);
    }
  }

  lemma {:induction false} KeysAreSectors(reqs: seq<Request>)
    ensures forall s :: s in AfterAll(reqs) ==> s % SECTOR == 0 && ToPhysical(s) == s
    decreases |reqs|
  {
    if reqs != [] {
      var n := |reqs| - 1;
      KeysAreSectors(reqs[..n]);
      match reqs[n]
      case EraseAt(address, len) => ErasedKeys(AfterAll(reqs[..n]), address, Sectors(len));
      case WriteAt(address, src) => WrittenKeys(AfterAll(reqs[..n]), address, src, Sectors(|src|));
    }
  }

  /** So many whole sectors there are from an address on. */
  lemma {:induction false} SectorsIn(keys: set<nat>, from: nat, n: nat)
    requires from % SECTOR == 0
    requires forall s :: s in keys ==> s % SECTOR == 0 && from <= s < from + n * SECTOR
    ensures |keys| <= n
  {
    if n == 0 {
      assert keys == {};
    } else {
      var last := from + (n - 1) * SECTOR;
      forall s | s in keys - {last} ensures from <= s < last {
        LastSector(from, n, s);
      }
      SectorsIn(keys - {last}, from, n - 1);
      assert |keys - {last}| >= |keys| - 1;
    }
  }

  lemma LastSector(from: nat, n: nat, s: nat)
    requires from % SECTOR == 0 && s % SECTOR == 0 && n > 0 && from <= s < from + n * SECTOR
    ensures s <= from + (n - 1) * SECTOR
  {
  }

  lemma {:induction false} TooManyForbidden(g: Geometry, reqs: seq<Request>)
    requires AlignedAll(reqs)
    ensures |AfterAll(reqs)| > LOAD_MAX ==> exists s: nat :: Asked(reqs, s) && !Permitted(g, s)
  {
    if forall s: nat :: Asked(reqs, s) ==> Permitted(g, s) {
      LimitNeverReached(g, reqs);
    }
  }

  /** A load of nothing but program flash has no more sectors than there is room for. */
  lemma {:induction false} LimitNeverReached(g: Geometry, reqs: seq<Request>)
    requires AlignedAll(reqs) && forall s: nat :: Asked(reqs, s) ==> Permitted(g, s)
    ensures |AfterAll(reqs)| <= LOAD_MAX
  {
    var keys := AfterAll(reqs).Keys;
    KeysAreSectors(reqs);
    forall s | s in keys ensures s % SECTOR == 0 && 0xA000_0000 <= s < 0xA000_0000 + 768 * SECTOR {
      RequestsLaw(reqs, s, 0);
      PermittedAddresses(g, s);
    }
    SectorsIn(keys, 0xA000_0000, 768);
  }
}
