/** Erasing a list of sectors in as few commands as the device takes. */
module FlashErase {
  import opened Common
  import opened FlashMap
  import opened FlashDevice

  function Commands(g: Geometry, sectors: seq<nat>): (cs: seq<nat>)
    ensures |cs| == |sectors| && forall i :: 0 <= i < |cs| ==> cs[i] == Cmd(g, sectors[i])
  {
    seq(|sectors|, i requires 0 <= i < |sectors| => Cmd(g, sectors[i]))
  }

  predicate Aligned(cs: seq<nat>) { forall i :: 0 <= i < |cs| ==> cs[i] % SECTOR == 0 }

  /** The sectors a list of commands erases, one by one. */
  function Each(erases: seq<Erase>): seq<nat> {
    if erases == [] then []
    else Each(erases[..|erases| - 1])
         + Run(erases[|erases| - 1].first, erases[|erases| - 1].count)
  }

  function Run(first: nat, count: nat): seq<nat> {
    seq(count, j requires 0 <= j => first + j * SECTOR)
  }

  lemma {:induction false} EachConcat(a: seq<Erase>, b: seq<Erase>)
    ensures Each(a + b) == Each(a) + Each(b)
  {
    if b == [] {
      assert a + b == a;
    } else {
      var n := |b| - 1;
      EachConcat(a, b[..n]);
      assert (a + b)[..|a + b| - 1] == a + b[..n] && (a + b)[|a + b| - 1] == b[n];
      assert Each(a + b) == Each(a + b[..n]) + Run(b[n].first, b[n].count);
    }
  }

  lemma {:induction false} EachGrows(erases: seq<Erase>, cs: seq<nat>, i: nat, n: nat)
    requires i + n <= |cs| && n > 0 && cs[i..i + n] == Run(cs[i], n) && Each(erases) == cs[..i]
    ensures Each(erases + [Erase(cs[i], n)]) == cs[..i + n]
  {
    EachConcat(erases, [Erase(cs[i], n)]);
    assert Each([Erase(cs[i], n)]) == Run(cs[i], n);
    assert cs[..i + n] == cs[..i] + cs[i..i + n];
  }

  lemma AlignedCommands(g: Geometry, sectors: seq<nat>)
    requires Aligned(sectors)
    ensures Aligned(Commands(g, sectors))
  {
    forall i | 0 <= i < |sectors| ensures Commands(g, sectors)[i] % SECTOR == 0 {
      SectorWhole(g, sectors[i]);
    }
  }

  lemma RunExtends(cs: seq<nat>, i: nat, n: nat)
    requires i + n < |cs| && cs[i..i + n] == Run(cs[i], n) && cs[i + n] == cs[i] + n * SECTOR
    ensures cs[i..i + n + 1] == Run(cs[i], n + 1)
  {
    assert cs[i..i + n + 1] == cs[i..i + n] + [cs[i + n]];
  }

  /** A run of consecutive sectors holds exactly the bytes of its sectors. */
  lemma RunHolds(cs: seq<nat>, i: nat, n: nat, a: nat)
    requires i + n <= |cs| && n > 0 && Aligned(cs) && cs[i..i + n] == Run(cs[i], n)
    ensures Within(a, cs[i], n * SECTOR) <==> Base(a) in cs[i..i + n]
  {
    if Within(a, cs[i], n * SECTOR) {
      var j := (a - cs[i]) / SECTOR;
      assert cs[i..i + n][j] == Base(a);
    }
    if Base(a) in cs[i..i + n] {
      var j :| 0 <= j < n && cs[i..i + n][j] == Base(a);
      assert Base(a) == cs[i] + j * SECTOR;
    }
  }

  /** The sectors up to i erased, and nothing else touched. */
  ghost predicate ErasedTo(cs: seq<nat>, i: nat, before: nat -> Cell, after: nat -> Cell)
    requires i <= |cs|
  {
    forall a: nat :: after(a) == if Base(a) in cs[..i] then Blank else before(a)
  }

  ghost predicate OnlyIn(cs: seq<nat>, before: nat -> Cell, after: nat -> Cell) {
    forall a: nat :: Base(a) !in cs ==> after(a) == before(a)
  }

  lemma RunErased(cs: seq<nat>, i: nat, n: nat, before: nat -> Cell, mid: nat -> Cell, after: nat -> Cell)
    requires i + n <= |cs| && n > 0 && Aligned(cs) && cs[i..i + n] == Run(cs[i], n)
    requires ErasedTo(cs, i, before, mid)
    requires forall a: nat :: after(a) == if Within(a, cs[i], n * SECTOR) then Blank else mid(a)
    ensures ErasedTo(cs, i + n, before, after)
  {
    assert cs[..i + n] == cs[..i] + cs[i..i + n];
    forall a: nat ensures Base(a) in cs[..i + n] <==> Base(a) in cs[..i] || Within(a, cs[i], n * SECTOR) {
      RunHolds(cs, i, n, a);
    }
  }

  lemma RunInside(cs: seq<nat>, i: nat, n: nat, before: nat -> Cell, mid: nat -> Cell, after: nat -> Cell)
    requires i + n <= |cs| && n > 0 && Aligned(cs) && cs[i..i + n] == Run(cs[i], n)
    requires OnlyIn(cs, before, mid)
    requires forall a: nat :: !Within(a, cs[i], n * SECTOR) ==> after(a) == mid(a)
    ensures OnlyIn(cs, before, after)
  {
    forall a: nat ensures Within(a, cs[i], n * SECTOR) ==> Base(a) in cs {
      RunHolds(cs, i, n, a);
    }
  }

  /** Erased among the first i sectors, none of them twice. */
  ghost predicate Among(cs: seq<nat>, i: nat, erased: seq<nat>)
    requires i <= |cs|
  {
    (forall c :: c in erased ==> c in cs[..i]) && (Distinct(cs) ==> Distinct(erased))
  }

  lemma AmongLater(cs: seq<nat>, i: nat, j: nat, erased: seq<nat>)
    requires i <= j <= |cs| && Among(cs, i, erased)
    ensures Among(cs, j, erased)
  {
    assert cs[..j] == cs[..i] + cs[i..j];
  }

  lemma StillDistinct(cs: seq<nat>, i: nat, j: nat, erased: seq<nat>)
    requires i <= j <= |cs| && Distinct(cs) && Distinct(erased) && forall c :: c in erased ==> c in cs[..i]
    ensures Distinct(erased + cs[i..j])
  {
    forall p, q | 0 <= p < |erased| && 0 <= q < j - i ensures erased[p] != cs[i..j][q] {
      assert erased[p] in erased;
      var k :| 0 <= k < i && cs[k] == erased[p];
    }
  }

  lemma AmongMore(cs: seq<nat>, i: nat, j: nat, erased: seq<nat>)
    requires i <= j <= |cs| && Among(cs, i, erased)
    ensures Among(cs, j, erased + cs[i..j])
  {
    assert cs[..j] == cs[..i] + cs[i..j];
    if Distinct(cs) {
      StillDistinct(cs, i, j, erased);
    }
  }

  /** The log after a run, erased or not. */
  lemma {:induction false} RunLogged(cs: seq<nat>, i: nat, n: nat, log: seq<Erase>)
    requires i + n <= |cs| && n > 0 && cs[i..i + n] == Run(cs[i], n) && Among(cs, i, Each(log))
    ensures Among(cs, i + n, Each(log)) && Among(cs, i + n, Each(log + [Erase(cs[i], n)]))
  {
    AmongLater(cs, i, i + n, Each(log));
    assert Each(log + [Erase(cs[i], n)]) == Each(log) + cs[i..i + n] by {
      EachConcat(log, [Erase(cs[i], n)]);
      assert Each([Erase(cs[i], n)]) == Run(cs[i], n);
    }
    AmongMore(cs, i, i + n, Each(log));
  }

  /** One command could have covered the sector at `first` too. */
  predicate Mergeable(e: Erase, first: nat) {
    first == e.first + e.count * SECTOR && EraseAllowed(e.first, e.count + 1)
  }

  /** No two commands in a row could have been one longer and one shorter. */
  predicate Greedy(log: seq<Erase>) {
    forall k :: 0 <= k < |log| - 1 ==> !Mergeable(log[k], log[k + 1].first)
  }

  /** That, and the sector at `next` could not have gone with the last of them. */
  predicate GreedyTo(log: seq<Erase>, next: Option<nat>) {
    Greedy(log) && (log != [] && next.Some? ==> !Mergeable(log[|log| - 1], next.value))
  }

  function NextOf(cs: seq<nat>, i: nat): Option<nat> { if i < |cs| then Some(cs[i]) else None }

  /** From the i-th sector on, one command cannot cover more than n. */
  predicate Longest(cs: seq<nat>, i: nat, n: nat) {
    i + n < |cs| ==> !Mergeable(Erase(cs[i], n), cs[i + n])
  }

  lemma GreedyOn(log: seq<Erase>, cs: seq<nat>, i: nat, n: nat)
    requires i < |cs| && GreedyTo(log, NextOf(cs, i)) && Longest(cs, i, n)
    ensures GreedyTo(log + [Erase(cs[i], n)], NextOf(cs, i + n))
  {
  }

  /** Where an erase stands after i sectors: they are all erased exactly if no error went unseen. */
  ghost predicate SoFar(cs: seq<nat>, i: nat, before: nat -> Cell, cells: nat -> Cell, log: seq<Erase>, quiet: bool,
                        multi: bool)
    requires i <= |cs|
  {
    && OnlyIn(cs, before, cells) && Among(cs, i, Each(log))
    && (forall e :: e in log ==> EraseAllowed(e.first, e.count))
    && (quiet ==> ErasedTo(cs, i, before, cells) && Each(log) == cs[..i])
    && (!quiet ==> |Each(log)| < i)
    && (quiet && multi ==> GreedyTo(log, NextOf(cs, i)))
  }

  function Logged(f: Fate, first: nat, count: nat): seq<Erase> {
    if f.Carried? then [Erase(first, count)] else []
  }

  lemma OneIsARun(cs: seq<nat>, i: nat)
    requires i < |cs|
    ensures cs[i..i + 1] == Run(cs[i], 1)
  {
  }

  /** What a command with fate f does to that. */
  lemma Tried(cs: seq<nat>, i: nat, n: nat, before: nat -> Cell, mid: nat -> Cell, after: nat -> Cell,
              log: seq<Erase>, f: Fate, quiet: bool, multi: bool)
    requires i + n <= |cs| && n > 0 && Aligned(cs) && cs[i..i + n] == Run(cs[i], n) && EraseAllowed(cs[i], n)
    requires SoFar(cs, i, before, mid, log, quiet, multi) && (multi ==> Longest(cs, i, n))
    requires forall a: nat :: after(a) == if Within(a, cs[i], n * SECTOR) then Erased(f, mid(a), a) else mid(a)
    ensures SoFar(cs, i + n, before, after, log + Logged(f, cs[i], n), quiet && f.Carried?, multi)
    ensures f.Refused? ==> SoFar(cs, i, before, after, log, quiet, multi)
  {
    RunInside(cs, i, n, before, mid, after);
    RunLogged(cs, i, n, log);
    assert log + [] == log;
    EachConcat(log, Logged(f, cs[i], n));
    assert Each([Erase(cs[i], n)]) == Run(cs[i], n);
    if quiet && f.Carried? {
      RunErased(cs, i, n, before, mid, after);
      EachGrows(log, cs, i, n);
      if multi {
        GreedyOn(log, cs, i, n);
      }
    }
  }

  lemma StillSoFar(cs: seq<nat>, i: nat, before: nat -> Cell, cells: nat -> Cell, log: seq<Erase>, quiet: bool,
                   multi: bool)
    requires i <= |cs| && SoFar(cs, i, before, cells, log, quiet, multi)
    ensures SoFar(cs, i, before, cells, log, quiet, false)
  {
  }

  class Eraser {
    const d: Device
    var multi: bool                 // until a run is refused

    constructor (device: Device)
      ensures d == device && multi
    {
      d, multi := device, true;
    }

    /** The longest run from sectors[i] that one command may cover. */
    method RunFrom(sectors: seq<nat>, i: nat) returns (run: nat)
      requires i < |sectors| && Aligned(sectors)
      ensures 1 <= run <= |sectors| - i
      ensures var cs := Commands(d.g, sectors);
              EraseAllowed(cs[i], run) && cs[i..i + run] == Run(cs[i], run)
      ensures !multi ==> run == 1
      ensures multi ==> Longest(Commands(d.g, sectors), i, run)
    {
      ghost var cs := Commands(d.g, sectors);
      AlignedCommands(d.g, sectors);
      var first := Cmd(d.g, sectors[i]);
      run := 1;
      while multi && i + run < |sectors| && run < ERASE_RUN_MAX
            && Cmd(d.g, sectors[i + run]) == first + run * SECTOR
            && first / PHYSICAL_SECTOR == (first + run * SECTOR) / PHYSICAL_SECTOR
        invariant 1 <= run <= |sectors| - i && EraseAllowed(first, run)
        invariant first == cs[i] && cs[i..i + run] == Run(first, run)
        invariant !multi ==> run == 1
      {
        RunExtends(cs, i, run);
        run := run + 1;
      }
    }

    /** Whatever the device refuses or fails, this ends; it ends well unless an error was seen
        that was not a refused run.  Sectors were erased by commands the device allows, none
        twice, and in order unless an error went unseen; if it ended well all of them were,
        exactly if none did.  Until a run is refused, commands are as long as they can be. */
    method EraseSectors(sectors: seq<nat>) returns (r: Outcome)
      requires Aligned(sectors) && !d.sqer
      modifies this, d
      ensures d.burns == old(d.burns) && d.faults >= old(d.faults) && d.unseen >= old(d.unseen)
      ensures (r == Done <==> d.faults == old(d.faults)) && (r == Done ==> !d.sqer)
      ensures old(d.erases) <= d.erases
      ensures var cs, erased := Commands(d.g, sectors), Each(d.erases[|old(d.erases)|..]);
              && OnlyIn(cs, old(d.cells), d.cells) && Among(cs, |cs|, erased)
              && (forall e :: e in d.erases[|old(d.erases)|..] ==> EraseAllowed(e.first, e.count))
              && (d.unseen == old(d.unseen) ==> erased <= cs)
              && (r == Done ==> (erased == cs <==> d.unseen == old(d.unseen)))
              && (r == Done && d.unseen == old(d.unseen) ==> ErasedTo(cs, |cs|, old(d.cells), d.cells))
      ensures multi ==> old(multi) && (d.unseen == old(d.unseen) ==> Greedy(d.erases[|old(d.erases)|..]))
      ensures old(multi) && !multi ==> d.refusals > old(d.refusals)
    {
      ghost var cs, log, start := Commands(d.g, sectors), [], |d.erases|;
      AlignedCommands(d.g, sectors);
      var i := 0;
      while i < |sectors|
        invariant multi ==> old(multi)
        invariant d.refusals >= old(d.refusals) && (old(multi) && !multi ==> d.refusals > old(d.refusals))
        invariant i <= |cs| && !d.sqer && d.burns == old(d.burns) && d.faults == old(d.faults)
        invariant d.unseen >= old(d.unseen) && d.erases == old(d.erases) + log
        invariant SoFar(cs, i, old(d.cells), d.cells, log, d.unseen == old(d.unseen), multi)
      {
        var run := RunFrom(sectors, i);
        r, run, log := EraseRun(sectors, i, run, log, old(d.cells), old(d.unseen));
        if r == Failed {
          assert d.erases[start..] == log;
          AmongLater(cs, i, |cs|, Each(log));
          return;
        }
        i := i + run;
      }
      assert d.erases[start..] == log && cs[..|cs|] == cs;
      r := Done;
    }

    /** One run, or its first sector if the run is refused. */
    method EraseRun(sectors: seq<nat>, i: nat, n: nat, ghost log: seq<Erase>, ghost before: nat -> Cell,
                    ghost unseen0: nat)
      returns (r: Outcome, run: nat, ghost log': seq<Erase>)
      requires i + n <= |sectors| && n > 0 && Aligned(sectors) && !d.sqer && d.unseen >= unseen0
      requires !multi ==> n == 1
      requires
        var cs := Commands(d.g, sectors);
        && EraseAllowed(cs[i], n) && cs[i..i + n] == Run(cs[i], n)
        && SoFar(cs, i, before, d.cells, log, d.unseen == unseen0, multi) && (multi ==> Longest(cs, i, n))
      modifies this, d
      ensures 0 < run <= n && d.burns == old(d.burns) && d.unseen >= old(d.unseen)
      ensures d.faults >= old(d.faults) && (r == Done <==> d.faults == old(d.faults)) && (r == Done ==> !d.sqer)
      ensures log <= log' && d.erases == old(d.erases) + log'[|log|..] && (r == Failed ==> log' == log)
      ensures
        var cs := Commands(d.g, sectors);
        if r == Done then SoFar(cs, i + run, before, d.cells, log', d.unseen == unseen0, multi)
        else OnlyIn(cs, before, d.cells)
      ensures multi ==> old(multi)
      ensures d.refusals >= old(d.refusals) && (old(multi) && !multi ==> d.refusals > old(d.refusals))
    {
      AlignedCommands(d.g, sectors);
      run := n;
      r, log' := Command(sectors, i, run, log, before, unseen0, multi);
      if r == Failed && run > 1 && d.sqer {
        multi := false;
        d.sqer := false;
        run := 1;
        StillSoFar(Commands(d.g, sectors), i, before, d.cells, log', d.unseen == unseen0, old(multi));
        r, log' := OneSector(sectors, i, log', before, unseen0);
      }
    }

    method OneSector(sectors: seq<nat>, i: nat, ghost log: seq<Erase>, ghost before: nat -> Cell, ghost unseen0: nat)
      returns (r: Outcome, ghost log': seq<Erase>)
      requires i < |sectors| && Aligned(sectors) && !d.sqer && d.unseen >= unseen0
      requires
        var cs := Commands(d.g, sectors);
        && Aligned(cs) && EraseAllowed(cs[i], 1)
        && SoFar(cs, i, before, d.cells, log, d.unseen == unseen0, false)
      modifies d
      ensures d.burns == old(d.burns) && d.unseen >= old(d.unseen) && d.refusals >= old(d.refusals)
      ensures d.faults >= old(d.faults) && (r == Done <==> d.faults == old(d.faults)) && (r == Done ==> !d.sqer)
      ensures log <= log' && d.erases == old(d.erases) + log'[|log|..] && (r == Failed ==> log' == log)
      ensures
        var cs := Commands(d.g, sectors);
        if r == Done then SoFar(cs, i + 1, before, d.cells, log', d.unseen == unseen0, false)
        else OnlyIn(cs, before, d.cells)
    {
      OneIsARun(Commands(d.g, sectors), i);
      r, log' := Command(sectors, i, 1, log, before, unseen0, false);
    }

    /** One command. */
    method Command(sectors: seq<nat>, i: nat, run: nat, ghost log: seq<Erase>, ghost before: nat -> Cell,
                   ghost unseen0: nat, ghost multi': bool)
      returns (r: Outcome, ghost log': seq<Erase>)
      requires i + run <= |sectors| && run > 0 && !d.sqer && d.unseen >= unseen0
      requires
        var cs := Commands(d.g, sectors);
        && Aligned(cs) && EraseAllowed(cs[i], run) && cs[i..i + run] == Run(cs[i], run)
        && SoFar(cs, i, before, d.cells, log, d.unseen == unseen0, multi') && (multi' ==> Longest(cs, i, run))
      modifies d
      ensures d.burns == old(d.burns) && d.unseen >= old(d.unseen) && d.faults >= old(d.faults)
      ensures (r == Done ==> !d.sqer) && (d.sqer ==> d.unseen == old(d.unseen))
      ensures r == Done || (run > 1 && d.sqer) <==> d.faults == old(d.faults)
      ensures log <= log' && d.erases == old(d.erases) + log'[|log|..] && (r == Failed ==> log' == log)
      ensures
        var cs := Commands(d.g, sectors);
        && (r == Done ==> SoFar(cs, i + run, before, d.cells, log', d.unseen == unseen0, multi'))
        && (d.sqer ==> SoFar(cs, i, before, d.cells, log, d.unseen == unseen0, multi'))
        && OnlyIn(cs, before, d.cells)
      ensures d.refusals == old(d.refusals) + if d.sqer then 1 else 0
    {
      ghost var cs, mid, f, quiet := Commands(d.g, sectors), d.cells, Nth(d.fates, 0), d.unseen == unseen0;
      r := d.EraseRange(Cmd(d.g, sectors[i]), run);
      log' := log + Logged(f, cs[i], run);
      Tried(cs, i, run, before, mid, d.cells, log, f, quiet, multi');
    }
  }
}
