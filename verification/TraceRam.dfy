/** The trace memory, its writer, and the chained reads the drain makes of it.
    The writer is hardware: it moves between any two bus accesses. */
module TraceRam {
  import opened Common
  import opened Arith

  type Word = w: nat | w < 0x1_0000_0000

  const WORDS_PER_PAR: nat := 256
  const PARAGRAPH: nat := 1024
  const CHAIN_PARS: nat := 8
  const NOW_EVERY: nat := 4
  const TRAM_BYTES: nat := 0x2000

  /** A stretch of one read chain: paragraphs, then the pointer read after them. */
  datatype Group = Group(pars: seq<seq<Word>>, now: Word)

  class Tram {
    const total: nat              // paragraphs in the ring
    const bot: nat                // its first byte offset
    const ram: array<Word>
    const stream: nat -> Word     // what the trace unit emits, word by word
    var written: nat              // words emitted so far
    var sampled: nat              // the writer's paragraph at the last pointer read
    ghost var faults: nat         // bus reads that failed

    ghost predicate Valid()
      reads this, ram
    {
      && total >= 3 && bot % 32 == 0 && bot + total * PARAGRAPH <= TRAM_BYTES
      && ram.Length == total * WORDS_PER_PAR
      && sampled <= written / WORDS_PER_PAR
      && forall i: nat :: i < written <= i + ram.Length ==> ram[i % ram.Length] == stream(i)
    }

    /** Fewer than a whole lap of paragraphs since the last pointer read. */
    ghost predicate Unambiguous()
      reads this
    {
      written / WORDS_PER_PAR < sampled + total
    }

    /** The k-th paragraph ever emitted. */
    function Data(k: nat): seq<Word> {
      seq(WORDS_PER_PAR, j requires 0 <= j => stream(k * WORDS_PER_PAR + j))
    }

    constructor (pars: nat, base: nat, emits: nat -> Word)
      requires pars >= 3 && base % 32 == 0 && base + pars * PARAGRAPH <= TRAM_BYTES
      ensures Valid() && Unambiguous() && fresh(ram) && total == pars && bot == base && stream == emits
    {
      total, bot, stream := pars, base, emits;
      ram := new Word[pars * WORDS_PER_PAR];
      written, sampled, faults := 0, 0, 0;
    }

    /** The writer emits any number of words; while `paced`, not a lap past the last sample. */
    method WriterRuns(paced: bool)
      requires Valid()
      modifies this`written, ram
      ensures Valid() && written >= old(written)
      ensures paced && old(Unambiguous()) ==> Unambiguous()
    {
      var n: nat := *;
      while n > 0
        invariant Valid() && written >= old(written)
        invariant paced && old(Unambiguous()) ==> Unambiguous()
      {
        if paced && (written + 1) / WORDS_PER_PAR >= sampled + total {
          return;
        }
        EmitOne();
        n := n - 1;
      }
    }

    method EmitOne()
      requires Valid()
      modifies this`written, ram
      ensures Valid() && written == old(written) + 1
    {
      forall i: nat | i < written < i + ram.Length
        ensures i % ram.Length != written % ram.Length
      {
        SlotsDiffer(i, written, ram.Length);
      }
      ram[written % ram.Length] := stream(written);
      written := written + 1;
    }

    /** Exactly n words. */
    method Emit(n: nat)
      requires Valid()
      modifies this`written, ram
      ensures Valid() && written == old(written) + n
    {
      for i := 0 to n
        invariant Valid() && written == old(written) + i
      {
        EmitOne();
      }
    }

    /** A bus access may fail. */
    method Bus() returns (ok: bool)
      modifies this`faults
      ensures faults == old(faults) + if ok then 0 else 1
    {
      ok := *;
      faults := faults + if ok then 0 else 1;
    }

    method ReadPointer() returns (now: Word)
      requires Valid()
      modifies this`written, this`sampled, ram
      ensures Valid() && Unambiguous() && written >= old(written)
      ensures sampled == written / WORDS_PER_PAR >= old(sampled)
      ensures old(Unambiguous()) ==> sampled < old(sampled) + total
      ensures now >= bot && ParOf(now) == Mod(sampled, total)
    {
      WriterRuns(true);
      now := Sample();
    }

    /** FIFONOW as it is. */
    method Sample() returns (now: Word)
      requires Valid()
      modifies this`sampled
      ensures Valid() && sampled == written / WORDS_PER_PAR && now >= bot && ParOf(now) == Mod(sampled, total)
    {
      var offset := 4 * written % (total * PARAGRAPH);
      now := bot + offset / 32 * 32;
      sampled := written / WORDS_PER_PAR;
      PointerNamesParagraph(written, total);
    }

    /** The paragraph a pointer value lies in. */
    function ParOf(now: Word): nat
      requires total > 0 && now >= bot
    {
      Mod(now - bot, total * PARAGRAPH) / PARAGRAPH
    }

    /** `words`, read from paragraph k's slot while the count went from `begun` to `ended`,
        are that paragraph if it was complete before and not being replaced after. */
    predicate Intact(k: nat, words: seq<Word>, begun: nat, ended: nat) {
      (k + 1) * WORDS_PER_PAR <= begun && ended <= (k + total) * WORDS_PER_PAR ==> words == Data(k)
    }

    lemma {:induction false} WordOf(k: nat, j: nat)
      requires Valid() && j < WORDS_PER_PAR
      requires (k + 1) * WORDS_PER_PAR <= written <= (k + total) * WORDS_PER_PAR
      ensures Mod(k, total) * WORDS_PER_PAR + j < ram.Length
      ensures ram[Mod(k, total) * WORDS_PER_PAR + j] == Data(k)[j]
    {
      WordSlot(k, j, total);
      var i := k * WORDS_PER_PAR + j;
      assert i < written <= i + ram.Length;
    }

    method ReadParagraph(par: nat, ghost k: nat) returns (words: seq<Word>)
      requires Valid() && par == Mod(k, total)
      modifies this`written, ram
      ensures Valid() && written >= old(written)
      ensures old(Unambiguous()) ==> Unambiguous()
      ensures Intact(k, words, old(written), written)
    {
      words := [];
      for j := 0 to WORDS_PER_PAR
        invariant Valid() && |words| == j && written >= old(written)
        invariant old(Unambiguous()) ==> Unambiguous()
        invariant (k + 1) * WORDS_PER_PAR <= old(written) && written <= (k + total) * WORDS_PER_PAR
                  ==> words == Data(k)[..j]
      {
        WriterRuns(true);
        MulMono(WORDS_PER_PAR, par + 1, total);
        var w := ram[par * WORDS_PER_PAR + j];
        if (k + 1) * WORDS_PER_PAR <= old(written) && written <= (k + total) * WORDS_PER_PAR {
          WordOf(k, j);
        }
        words := words + [w];
      }
    }

    /** Group q of a chain that starts with paragraph `first`: its paragraphs, and the pointer
        read after them with the writer at `at`, the previous one having shown `last`. */
    predicate GroupRead(first: nat, batch: nat, q: nat, group: Group, last: nat, begun: nat, at: nat)
      requires total > 0
    {
      && 4 * q < batch && |group.pars| == Min(batch - 4 * q, NOW_EVERY)
      && group.now >= bot && ParOf(group.now) == Mod(at / WORDS_PER_PAR, total)
      && last <= at / WORDS_PER_PAR < last + total
      && ParsIntact(first + 4 * q, group.pars, begun, at)
    }

    predicate ParsIntact(first: nat, pars: seq<seq<Word>>, begun: nat, at: nat) {
      forall g :: 0 <= g < |pars| ==> Intact(first + g, pars[g], begun, at)
    }

    predicate Grouped(first: nat, batch: nat, groups: seq<Group>, at: seq<nat>, from: nat, begun: nat)
      requires total > 0
    {
      && |groups| == |at|
      && forall q :: 0 <= q < |groups| ==>
           GroupRead(first, batch, q, groups[q], LastSample(at[..q], from), begun, at[q])
    }

    function LastSample(at: seq<nat>, from: nat): nat {
      if at == [] then from else at[|at| - 1] / WORDS_PER_PAR
    }

    lemma GroupedSnoc(first: nat, batch: nat, groups: seq<Group>, at: seq<nat>, from: nat, begun: nat,
                      g': Group, at': nat)
      requires total > 0 && Grouped(first, batch, groups, at, from, begun)
      requires GroupRead(first, batch, |groups|, g', LastSample(at, from), begun, at')
      ensures Grouped(first, batch, groups + [g'], at + [at'], from, begun)
    {
      var at2 := at + [at'];
      assert at2[..|at|] == at;
      forall q | 0 <= q < |groups| ensures at2[..q] == at[..q] {
      }
    }

    /** `batch` paragraphs from `par` on, the pointer after every NOW_EVERY of them and
        after the last; any of the reads may fail.  `at` is how much the writer had
        emitted at each pointer read. */
    method ReadChain(par: nat, batch: nat, ghost first: nat)
      returns (ok: bool, groups: seq<Group>, ghost at: seq<nat>)
      requires Valid() && Unambiguous() && par == Mod(first, total) && 0 < batch <= CHAIN_PARS
      modifies this`written, this`sampled, this`faults, ram
      ensures Valid() && Unambiguous() && written >= old(written) && sampled >= old(sampled)
      ensures faults >= old(faults) && (ok <==> faults == old(faults))
      ensures ok ==> |groups| == (batch + 3) / NOW_EVERY
      ensures ok ==> Grouped(first, batch, groups, at, old(sampled), old(written))
      ensures ok ==> sampled == LastSample(at, old(sampled))
    {
      groups, at := [], [];
      var k, slot := 0, par;
      while k < batch
        invariant 0 <= k <= batch && slot == Mod(first + k, total)
        invariant if k < batch then k == 4 * |groups| else |groups| == (batch + 3) / NOW_EVERY
        invariant Valid() && Unambiguous() && written >= old(written) && sampled >= old(sampled)
        invariant Grouped(first, batch, groups, at, old(sampled), old(written))
        invariant sampled == LastSample(at, old(sampled)) && faults == old(faults)
      {
        var read, group, next := ReadStep(slot, batch, first, |groups|, old(written));
        if !read {
          return false, [], [];
        }
        GroupedSnoc(first, batch, groups, at, old(sampled), old(written), group, written);
        groups, at := groups + [group], at + [written];
        k, slot := k + |group.pars|, next;
      }
      ok := true;
    }

    /** One group and the pointer after it. */
    method ReadStep(slot: nat, batch: nat, ghost first: nat, q: nat, ghost begun: nat)
      returns (ok: bool, group: Group, next: nat)
      requires Valid() && Unambiguous() && begun <= written && 4 * q < batch
      requires slot == Mod(first + 4 * q, total)
      modifies this`written, this`sampled, this`faults, ram
      ensures Valid() && Unambiguous() && written >= old(written) && sampled >= old(sampled)
      ensures faults >= old(faults) && (ok <==> faults == old(faults))
      ensures ok ==> sampled == written / WORDS_PER_PAR && next == Mod(first + 4 * q + |group.pars|, total)
      ensures ok ==> GroupRead(first, batch, q, group, old(sampled), begun, written)
    {
      ghost var before := written;
      var pars;
      ok, pars, next := ReadGroup(slot, Min(batch - 4 * q, NOW_EVERY), first + 4 * q);
      ghost var after := written;
      group := Group(pars, 0);
      if !ok {
        return;
      }
      var now := ReadPointer();
      group := Group(pars, now);
      StillIntact(first + 4 * q, pars, begun, before, after, written);
      assert GroupRead(first, batch, q, group, old(sampled), begun, written);
    }

    method ReadGroup(par: nat, size: nat, ghost first: nat) returns (ok: bool, pars: seq<seq<Word>>, next: nat)
      requires Valid() && Unambiguous() && par == Mod(first, total)
      modifies this`written, this`faults, ram
      ensures Valid() && Unambiguous() && written >= old(written)
      ensures faults >= old(faults) && (ok <==> faults == old(faults))
      ensures ok ==> |pars| == size && next == Mod(first + size, total)
      ensures ok ==> ParsIntact(first, pars, old(written), written)
    {
      pars, next := [], par;
      for g := 0 to size
        invariant |pars| == g && next == Mod(first + g, total) && faults == old(faults)
        invariant Valid() && Unambiguous() && written >= old(written)
        invariant ParsIntact(first, pars, old(written), written)
      {
        ok := Bus();
        if !ok {
          return false, [], next;
        }
        ghost var before := written;
        var words := ReadParagraph(next, first + g);
        OneMoreIntact(first, pars, words, old(written), before, written);
        pars := pars + [words];
        ModSum(first + g, 1, total);
        next := Mod(next + 1, total);
      }
      ok := Bus();
    }

    lemma OneMoreIntact(first: nat, pars: seq<seq<Word>>, words: seq<Word>, earlier: nat, begun: nat, later: nat)
      requires earlier <= begun <= later && ParsIntact(first, pars, earlier, begun)
      requires Intact(first + |pars|, words, begun, later)
      ensures ParsIntact(first, pars + [words], earlier, later)
    {
      forall g | 0 <= g < |pars + [words]| ensures Intact(first + g, (pars + [words])[g], earlier, later) {
        assert g < |pars| ==> Intact(first + g, pars[g], earlier, begun);
      }
    }

    lemma StillIntact(first: nat, pars: seq<seq<Word>>, earlier: nat, begun: nat, at: nat, later: nat)
      requires earlier <= begun && at <= later && ParsIntact(first, pars, begun, at)
      ensures ParsIntact(first, pars, earlier, later)
    {
      forall g | 0 <= g < |pars| ensures Intact(first + g, pars[g], earlier, later) {
        assert Intact(first + g, pars[g], begun, at);
      }
    }
  }

  lemma SlotsDiffer(i: nat, j: nat, m: nat)
    requires m > 0 && i < j < i + m
    ensures i % m != j % m
  {
    var a, b := i / m, j / m;
    if b <= a {
      MulMono(m, b, a);
    } else {
      MulMono(m, a + 1, b);
    }
  }

  lemma {:induction false} WordSlot(k: nat, j: nat, total: nat)
    requires total > 0 && j < WORDS_PER_PAR
    ensures (k * WORDS_PER_PAR + j) % (total * WORDS_PER_PAR) == Mod(k, total) * WORDS_PER_PAR + j
    ensures Mod(k, total) * WORDS_PER_PAR + j < total * WORDS_PER_PAR
    ensures (k + total) * WORDS_PER_PAR <= k * WORDS_PER_PAR + j + total * WORDS_PER_PAR
  {
    ModIsRemainder(k, total);
    var m, q, r := total * WORDS_PER_PAR, k / total, k % total;
    assert k == total * q + r;
    assert k * WORDS_PER_PAR == total * q * WORDS_PER_PAR + r * WORDS_PER_PAR;
    assert total * q * WORDS_PER_PAR == m * q;
    MulMono(WORDS_PER_PAR, r + 1, total);
    DivModUnique(k * WORDS_PER_PAR + j, m, q, r * WORDS_PER_PAR + j);
  }

  /** Where in the ring the writer's next byte goes. */
  lemma OffsetInRing(written: nat, total: nat)
    requires total > 0
    ensures 4 * written % (total * PARAGRAPH)
         == PARAGRAPH * (written / WORDS_PER_PAR % total) + 4 * (written % WORDS_PER_PAR)
    ensures PARAGRAPH * (written / WORDS_PER_PAR % total) + PARAGRAPH <= total * PARAGRAPH
  {
    var k, j := written / WORDS_PER_PAR, written % WORDS_PER_PAR;
    var offset := PARAGRAPH * (k % total) + 4 * j;
    assert k == total * (k / total) + k % total;
    assert PARAGRAPH * k == total * PARAGRAPH * (k / total) + PARAGRAPH * (k % total);
    MulMono(PARAGRAPH, k % total + 1, total);
    DivModUnique(4 * written, total * PARAGRAPH, k / total, offset);
  }

  /** Bits [12:5] of the pointer are enough to name the writer's paragraph. */
  lemma {:induction false} PointerNamesParagraph(written: nat, total: nat)
    requires total > 0
    ensures
      var offset := 4 * written % (total * PARAGRAPH);
      && offset / 32 * 32 < total * PARAGRAPH
      && Mod(offset / 32 * 32, total * PARAGRAPH) / PARAGRAPH == Mod(written / WORDS_PER_PAR, total)
  {
    ModIsRemainder(written / WORDS_PER_PAR, total);
    OffsetInRing(written, total);
    CutOffset(written / WORDS_PER_PAR % total, written % WORDS_PER_PAR, total * PARAGRAPH);
  }

  lemma CutOffset(k: nat, j: nat, m: nat)
    requires j < WORDS_PER_PAR && PARAGRAPH * k + PARAGRAPH <= m
    ensures
      var cut := (PARAGRAPH * k + 4 * j) / 32 * 32;
      cut < m && Mod(cut, m) / PARAGRAPH == k
  {
    var cut := (PARAGRAPH * k + 4 * j) / 32 * 32;
    assert Mod(cut, m) == cut;
  }

  /** A paragraph is intact until the writer is one whole lap past it. */
  lemma StillInTheRing(written: nat, inst: nat, total: nat)
    requires written / WORDS_PER_PAR < inst + total
    ensures written <= (inst + total) * WORDS_PER_PAR
  {
    MulMono(WORDS_PER_PAR, written / WORDS_PER_PAR + 1, inst + total);
  }
}
