/** The sectors a load only erases: one command each, and nobody looks at them again. */
module GdbErase {
  import opened Common
  import opened FlashMap
  import opened FlashDevice
  import opened FlashErase

  /** The sectors whose commands were carried out. */
  function CarriedOf(cs: seq<nat>, fates: seq<Fate>): seq<nat> {
    if cs == [] then []
    else
      var n := |cs| - 1;
      CarriedOf(cs[..n], fates) + if Nth(fates, n).Carried? then [cs[n]] else []
  }

  /** Each of the first n sectors is as its command left it, and nothing else has changed. */
  ghost predicate FatedTo(cs: seq<nat>, n: nat, fates: seq<Fate>, before: nat -> Cell, after: nat -> Cell)
    requires n <= |cs|
  {
    && (forall a: nat :: Base(a) !in cs[..n] ==> after(a) == before(a))
    && (forall i: nat, a: nat :: i < n && Base(a) == cs[i] ==> after(a) == Erased(Nth(fates, i), before(a), a))
  }

  predicate AllQuiet(fates: seq<Fate>, n: nat) { forall i: nat :: i < n ==> Quiet(Nth(fates, i)) }

  predicate AllCarried(fates: seq<Fate>, n: nat) { forall i: nat :: i < n ==> Nth(fates, i).Carried? }

  predicate AllErasable(g: Geometry, sectors: seq<nat>, n: nat)
    requires n <= |sectors|
  {
    forall i: nat :: i < n ==> Permitted(g, sectors[i])
  }

  /** None of them twice, and no others. */
  lemma {:induction false} CarriedOfSome(cs: seq<nat>, fates: seq<Fate>)
    ensures forall c :: c in CarriedOf(cs, fates) ==> c in cs
    ensures Distinct(cs) ==> Distinct(CarriedOf(cs, fates))
  {
    if cs != [] {
      var n := |cs| - 1;
      var c := CarriedOf(cs[..n], fates);
      CarriedOfSome(cs[..n], fates);
      if Distinct(cs) {
        forall i | 0 <= i < |c| ensures c[i] != cs[n] {
          assert c[i] in c && c[i] in cs[..n];
        }
      }
    }
  }

  /** A sector is among them just if its command was carried out. */
  lemma {:induction false} CarriedOfIff(cs: seq<nat>, fates: seq<Fate>, i: nat)
    requires Distinct(cs) && i < |cs|
    ensures cs[i] in CarriedOf(cs, fates) <==> Nth(fates, i).Carried?
  {
    var n := |cs| - 1;
    CarriedOfSome(cs[..n], fates);
    if i < n {
      CarriedOfIff(cs[..n], fates, i);
      assert cs[..n][i] == cs[i] != cs[n];
    }
  }

  lemma {:induction false} CarriedOfAll(cs: seq<nat>, fates: seq<Fate>)
    requires AllCarried(fates, |cs|)
    ensures CarriedOf(cs, fates) == cs
  {
    if cs != [] {
      CarriedOfAll(cs[..|cs| - 1], fates);
    }
  }

  lemma OneFated(cs: seq<nat>, i: nat, fates: seq<Fate>, before: nat -> Cell, mid: nat -> Cell, after: nat -> Cell)
    requires i < |cs| && Aligned(cs) && Distinct(cs) && FatedTo(cs, i, fates, before, mid)
    requires forall a: nat ::
               after(a) == if Within(a, cs[i], SECTOR) then Erased(Nth(fates, i), mid(a), a) else mid(a)
    ensures FatedTo(cs, i + 1, fates, before, after)
  {
    assert cs[i..i + 1] == Run(cs[i], 1) == [cs[i]];
    assert cs[..i + 1] == cs[..i] + [cs[i]];
    assert cs[i] !in cs[..i];
    forall a: nat
      ensures Within(a, cs[i], SECTOR) <==> Base(a) == cs[i]
      ensures Base(a) == cs[i] ==> mid(a) == before(a)
    {
      RunHolds(cs, i, 1, a);
    }
  }

  lemma {:induction false} OneLogged(cs: seq<nat>, i: nat, fates: seq<Fate>, log: seq<Erase>)
    requires i < |cs| && Each(log) == CarriedOf(cs[..i], fates)
    ensures Each(log + Logged(Nth(fates, i), cs[i], 1)) == CarriedOf(cs[..i + 1], fates)
  {
    assert cs[..i + 1][..i] == cs[..i];
    assert log + [] == log;
    if Nth(fates, i).Carried? {
      EachConcat(log, [Erase(cs[i], 1)]);
      assert Each([Erase(cs[i], 1)]) == Run(cs[i], 1) == [cs[i]];
    }
  }

  /** Sector by sector, until one is not program flash or an error is seen.  What becomes of
      each command decides, exactly, what its sector holds and whether it was erased. */
  method EraseEach(d: Device, sectors: seq<nat>) returns (ok: bool)
    requires Aligned(sectors) && Distinct(Commands(d.g, sectors)) && !d.sqer
    modifies d
    ensures d.faults >= old(d.faults) && d.unseen >= old(d.unseen)
    ensures ok <==> AllErasable(d.g, sectors, |sectors|) && AllQuiet(old(d.fates), |sectors|)
    ensures !ok && d.faults == old(d.faults) ==> !AllErasable(d.g, sectors, |sectors|)
    ensures old(d.erases) <= d.erases
    ensures
      var cs, erased := Commands(d.g, sectors), Each(d.erases[|old(d.erases)|..]);
      && Among(cs, |cs|, erased) && OnlyIn(cs, old(d.cells), d.cells)
      && (ok ==> && !d.sqer && FatedTo(cs, |cs|, old(d.fates), old(d.cells), d.cells)
                 && erased == CarriedOf(cs, old(d.fates))
                 && (d.unseen == old(d.unseen) <==> AllCarried(old(d.fates), |cs|)))
  {
    ghost var cs, start, log := Commands(d.g, sectors), |d.erases|, [];
    AlignedCommands(d.g, sectors);
    var i := 0;
    ok := true;
    while i < |sectors| && ok
      invariant i <= |sectors| && d.faults >= old(d.faults) && d.unseen >= old(d.unseen)
      invariant OnlyIn(cs, old(d.cells), d.cells) && d.erases == old(d.erases) + log && Among(cs, |cs|, Each(log))
      invariant ok ==> Standing(d, sectors, i, old(d.fates), old(d.cells), log)
      invariant ok ==> d.faults == old(d.faults) && (d.unseen == old(d.unseen) <==> AllCarried(old(d.fates), i))
      invariant !ok ==> !(AllErasable(d.g, sectors, |sectors|) && AllQuiet(old(d.fates), |sectors|))
      invariant !ok && d.faults == old(d.faults) ==> !AllErasable(d.g, sectors, |sectors|)
    {
      ok, log := EraseOne(d, sectors, i, old(d.fates), old(d.cells), log);
      i := i + 1;
    }
    assert d.erases[start..] == log && cs[..|cs|] == cs;
  }

  /** After i sectors, all of them taken for erased. */
  ghost predicate Standing(d: Device, sectors: seq<nat>, i: nat, fates: seq<Fate>, before: nat -> Cell, log: seq<Erase>)
    requires i <= |sectors|
    reads d
  {
    var cs := Commands(d.g, sectors);
    && !d.sqer && d.fates == Rest(fates, i) && AllErasable(d.g, sectors, i) && AllQuiet(fates, i)
    && FatedTo(cs, i, fates, before, d.cells) && Each(log) == CarriedOf(cs[..i], fates)
  }

  method EraseOne(d: Device, sectors: seq<nat>, i: nat, ghost fates: seq<Fate>, ghost before: nat -> Cell,
                  ghost log: seq<Erase>)
    returns (ok: bool, ghost log': seq<Erase>)
    requires i < |sectors| && Aligned(sectors) && Distinct(Commands(d.g, sectors))
    requires Standing(d, sectors, i, fates, before, log)
    modifies d
    ensures d.faults >= old(d.faults) && d.unseen >= old(d.unseen)
    ensures log <= log' && d.erases == old(d.erases) + log'[|log|..]
    ensures ok <==> Permitted(d.g, sectors[i]) && Quiet(Nth(fates, i))
    ensures !ok && d.faults == old(d.faults) ==> !Permitted(d.g, sectors[i])
    ensures
      var cs := Commands(d.g, sectors);
      && OnlyIn(cs, before, d.cells) && Among(cs, |cs|, Each(log'))
      && (ok ==> && Standing(d, sectors, i + 1, fates, before, log') && d.faults == old(d.faults)
                 && (d.unseen == old(d.unseen) <==> Nth(fates, i).Carried?))
  {
    ghost var cs, mid := Commands(d.g, sectors), d.cells;
    AlignedCommands(d.g, sectors);
    StandingIsAmong(cs, i, fates, log);
    SectorWhole(d.g, sectors[i]);
    ok, log' := Permitted(d.g, sectors[i]), log;
    if !ok {
      return;
    }
    FatesOn(fates, i, 1);
    var r := d.EraseRange(Cmd(d.g, sectors[i]), 1);
    ok, log' := r == Done, log + Logged(Nth(fates, i), cs[i], 1);
    OneFated(cs, i, fates, before, mid, d.cells);
    OneLogged(cs, i, fates, log);
    StandingIsAmong(cs, i + 1, fates, log');
  }

  lemma {:induction false} StandingIsAmong(cs: seq<nat>, i: nat, fates: seq<Fate>, log: seq<Erase>)
    requires i <= |cs| && Distinct(cs) && Each(log) == CarriedOf(cs[..i], fates)
    ensures Among(cs, |cs|, Each(log))
  {
    CarriedOfSome(cs[..i], fates);
    assert cs[..|cs|] == cs;
  }
}
