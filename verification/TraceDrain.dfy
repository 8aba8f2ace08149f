/** The drain: each pass copies out the paragraphs the writer has finished, judging
    from pointer samples alone which of them it can still trust. */
module TraceDrain {
  import opened Common
  import opened Arith
  import opened TraceLedger
  import opened TraceRam

  /** Paragraphs kept between the writer and the oldest one read. */
  const MARGIN: nat := 3

  datatype Outcome = Drained | NothingWaiting | ReadFailed

  /** A pass's loop variables: paragraphs dealt with, lost ones not yet in a record, and how far
      the writer has come since the pass began, by the last pointer. */
  datatype Progress = Progress(i: nat, lost: nat, moved: nat, prevPar: nat)

  /** Where it began: the books then, the writer's paragraph, and how much there was to read. */
  datatype Start = Start(log: Log, w0: nat, toRead: nat)

  /** A chain of reads as it came in: `batch` paragraphs from `first` on in groups, the writer
      in paragraph `from` at the pointer read before it, `begun` and `at` being how much had
      been emitted when it began and at each pointer. */
  datatype Chain = Chain(groups: seq<Group>, batch: nat, first: nat, from: nat, begun: nat, at: seq<nat>)

  ghost predicate Delivered(t: Tram, c: Chain) {
    && t.total > 0 && |c.groups| == (c.batch + 3) / NOW_EVERY == |c.at|
    && t.Grouped(c.first, c.batch, c.groups, c.at, c.from, c.begun)
  }

  class Drain {
    const tram: Tram
    var nextPar: nat
    var pendingLost: nat
    var lostCount: nat             // the statistic
    var records: seq<Record>       // every record put together, whether or not the ring took it
    ghost var log: Log             // what all of these stand for

    ghost predicate Valid()
      reads this, tram, tram.ram
    {
      tram.Valid() && nextPar == Mod(log.position, tram.total)
      && log.position <= tram.written / WORDS_PER_PAR && Books(pendingLost)
    }

    /** The books are true, `pending` lost paragraphs not being in any record yet. */
    ghost predicate Books(pending: nat)
      reads this
    {
      Good(tram, records, lostCount, log, pending)
    }

    constructor (t: Tram)
      requires t.Valid()
      modifies t`written, t`sampled, t.ram
      ensures Valid() && tram == t && log == Opened(t.sampled) && records == [] && lostCount == pendingLost == 0
      ensures t.sampled == t.written / WORDS_PER_PAR
    {
      tram := t;
      var now := t.ReadPointer();
      nextPar := t.ParOf(now);
      pendingLost, lostCount, records, log := 0, 0, [], Opened(t.sampled);
    }

    method Publish(par: nat, words: seq<Word>, lost: nat)
      requires Books(lost)
      requires par == Mod(log.position, tram.total) && words == tram.Data(log.position)
      modifies this`log, this`records
      ensures Books(0) && log == Published(old(log)) && old(records) <= records
    {
      var rec := Record(|records|, tram.bot + par * PARAGRAPH, lost > 0, lost, words);
      PublishKeeps(tram, records, lostCount, log, rec);
      records := records + [rec];
      log := Published(log);
    }

    /** n paragraphs are written off; the reader goes on at paragraph `to`. */
    method WriteOff(n: nat, lost: nat, ghost to: nat) returns (total: nat)
      requires Books(lost) && log.position + n <= to
      modifies this`log, this`lostCount
      ensures total == lost + n && Books(total) && log == WrittenOff(old(log), n, to)
      ensures lostCount == old(lostCount) + n
    {
      WriteOffKeeps(tram, records, lostCount, log, lost, n, to);
      lostCount := lostCount + n;
      log := WrittenOff(log, n, to);
      total := lost + n;
    }

    /** Any number of polls, the writer running as far as it likes between two of them:
        every record is one whole paragraph of the trace, in order and none twice; its count
        is the gap before it less what escaped; and what escapes in all is what the passes
        let slip. */
    method Run(polls: nat) returns (ghost passes: seq<Pass>, ghost logs: seq<Log>)
      requires Valid() && tram.sampled >= log.position
      modifies this, tram`written, tram`sampled, tram`faults, tram.ram
      ensures Valid() && old(records) <= records && |records| == |log.index| == |log.escaped|
      ensures forall r :: 0 <= r < |records| ==>
                && records[r].seqNo == r && records[r].words == tram.Data(log.index[r])
                && records[r].offset == tram.bot + 1024 * Mod(log.index[r], tram.total)
                && (records[r].gap <==> records[r].lost > 0)
                && Due(log, r) + records[r].lost + log.escaped[r] == log.index[r]
      ensures forall r, s :: 0 <= r < s < |records| ==> log.index[r] < log.index[s]
      ensures SumLost(records) + pendingLost == lostCount
      ensures log.position == log.start + |records| + lostCount + Escaped(log)
      ensures History(logs, passes, tram.total) && logs[0] == old(log) && logs[|passes|] == log
      ensures Escaped(log) == Escaped(old(log)) + Slips(logs, passes, tram.total)
      ensures forall n :: 0 <= n < |passes| ==> MadeBy(logs[n], passes[n], logs[n + 1], tram.total)
      ensures lostCount - old(lostCount) == LostIn(old(log), log)
      ensures |passes| <= polls && polls <= |passes| + tram.faults - old(tram.faults)
    {
      passes, logs := [], [log];
      for n := 0 to polls
        invariant Valid() && tram.sampled >= log.position && old(records) <= records
        invariant History(logs, passes, tram.total) && logs[0] == old(log) && logs[|passes|] == log
        invariant |passes| <= n <= |passes| + tram.faults - old(tram.faults)
      {
        tram.WriterRuns(false);
        var outcome, pass := Poll();
        if pass.Some? {
          HistoryOn(logs, passes, tram.total, pass.value, log);
          passes, logs := passes + [pass.value], logs + [log];
        }
      }
      Told(tram, records, lostCount, log, pendingLost);
      HistorySlips(logs, passes, tram.total);
      AllMade(logs, passes, tram.total);
      CountsMove(tram, old(records), old(lostCount), old(log), old(pendingLost), records, lostCount, log, pendingLost);
    }

    /** Read the pointer, drain up to it. */
    method Poll() returns (outcome: Outcome, ghost pass: Option<Pass>)
      requires Valid() && tram.sampled >= log.position
      modifies this, tram`written, tram`sampled, tram`faults, tram.ram
      ensures Valid() && tram.sampled >= log.position && tram.written >= old(tram.written)
      ensures old(records) <= records && tram.faults >= old(tram.faults)
      ensures outcome == ReadFailed <==> tram.faults > old(tram.faults)
      ensures outcome != ReadFailed ==> log.position >= old(tram.written) / WORDS_PER_PAR
      ensures pass == None ==> outcome == ReadFailed && log == old(log)
      ensures pass.Some? ==>
                && Legal(old(log), pass.value, tram.total) && pass.value.now >= old(tram.written) / WORDS_PER_PAR
                && log == AfterPass(old(log), pass.value, tram.total)
      ensures pass.Some? ==>
                var w0, total := pass.value.now, tram.total;
                var b, published := (w0 - old(log.position)) % total, |records| - old(|records|);
                && PassMakes(b, total, published, lostCount - old(lostCount), log.position < w0, log.position > w0)
                && (log.position > w0 ==> w0 - b + published + total <= tram.sampled)
    {
      var ok := tram.Bus();
      if !ok {
        return ReadFailed, None;
      }
      var now := tram.ReadPointer();
      ghost var p;
      outcome, p := DrainTo(now);
      pass := Some(p);
    }

    /** One pass for a pointer value just read: of b paragraphs the pointer is ahead, b - 1 if
        only two are to spare in the ring and none if only one is, unless a read fails or the
        writer comes a lap past the next of them; what it skips it counts. */
    method DrainTo(now: Word) returns (outcome: Outcome, ghost pass: Pass)
      requires Valid() && tram.Unambiguous() && log.position <= tram.sampled
      requires now >= tram.bot && tram.ParOf(now) == Mod(tram.sampled, tram.total)
      modifies this, tram`written, tram`sampled, tram`faults, tram.ram
      ensures Valid() && tram.sampled >= log.position && tram.written >= old(tram.written)
      ensures old(records) <= records && tram.faults >= old(tram.faults)
      ensures Legal(old(log), pass, tram.total) && pass.now == old(tram.sampled) && pass.to == log.position
      ensures log == AfterPass(old(log), pass, tram.total)
      ensures outcome == ReadFailed <==> tram.faults > old(tram.faults)
      ensures outcome != ReadFailed ==> log.position >= old(tram.sampled)
      ensures outcome == NothingWaiting ==> pass.kept == 0 && log.position == old(tram.sampled)
      ensures
        var w0, total := old(tram.sampled), tram.total;
        var b, published := (w0 - old(log.position)) % total, |records| - old(|records|);
        && PassMakes(b, total, published, lostCount - old(lostCount), log.position < w0, log.position > w0)
        && (log.position > w0 ==> w0 - b + published + total <= tram.sampled)
    {
      outcome, pass := OnePass(now);
      PassCounted(tram, old(records), old(lostCount), old(log), old(pendingLost), records, lostCount, log, pendingLost,
                  pass);
    }

    method OnePass(now: Word) returns (outcome: Outcome, ghost pass: Pass)
      requires Valid() && tram.Unambiguous() && log.position <= tram.sampled
      requires now >= tram.bot && tram.ParOf(now) == Mod(tram.sampled, tram.total)
      modifies this, tram`written, tram`sampled, tram`faults, tram.ram
      ensures Valid() && tram.sampled >= log.position && tram.written >= old(tram.written)
      ensures old(records) <= records && tram.faults >= old(tram.faults)
      ensures Legal(old(log), pass, tram.total) && pass.now == old(tram.sampled) && pass.to == log.position
      ensures log == AfterPass(old(log), pass, tram.total)
      ensures outcome == ReadFailed <==> tram.faults > old(tram.faults)
      ensures outcome != ReadFailed ==> log.position >= old(tram.sampled)
      ensures outcome == NothingWaiting ==> pass.kept == 0 && log.position == old(tram.sampled)
    {
      var nowPar := tram.ParOf(now);
      ghost var w0, before := tram.sampled, log;
      var toRead, lost := CatchUp(nowPar, w0);
      ghost var kept;
      outcome, kept := ReadOut(toRead, lost, nowPar);
      PassMade(before, w0, kept, log, tram.total);
      pass := Pass(w0, kept, log.position);
    }

    /** The pass itself, `toRead` paragraphs short of the pointer. */
    method ReadOut(toRead: nat, lost0: nat, nowPar: nat) returns (outcome: Outcome, ghost kept: nat)
      requires tram.Valid() && tram.Unambiguous() && Books(lost0) && nextPar == Mod(log.position, tram.total)
      requires toRead + MARGIN <= tram.total && log.position + toRead == tram.sampled
      requires nowPar == Mod(tram.sampled, tram.total)
      modifies this, tram`written, tram`sampled, tram`faults, tram.ram
      ensures Valid() && tram.sampled >= log.position && tram.written >= old(tram.written)
      ensures old(records) <= records && tram.faults >= old(tram.faults)
      ensures Reached(old(log), kept, toRead, log, tram.total)
      ensures outcome == ReadFailed <==> tram.faults > old(tram.faults)
      ensures outcome != ReadFailed ==> log.position >= old(tram.sampled)
      ensures outcome == NothingWaiting ==> toRead == 0
    {
      ghost var s := Start(log, tram.sampled, toRead);
      var p := Progress(0, lost0, 0, nowPar);
      kept := 0;
      while p.i < toRead
        invariant tram.Valid() && tram.Unambiguous() && tram.written >= old(tram.written)
        invariant OnTrack(s, p, kept) && log.position <= tram.sampled
        invariant old(records) <= records && tram.faults == old(tram.faults)
        invariant p.i < toRead ==> Sees(s, p, tram.sampled)
        decreases toRead - p.i
      {
        var batch := Min(toRead - p.i, CHAIN_PARS);
        ghost var begun, first := tram.written, log.position;
        var ok, groups, at := tram.ReadChain(nextPar, batch, log.position);
        if !ok {
          pendingLost := p.lost;
          return ReadFailed, kept;
        }
        ghost var c := Chain(groups, batch, first, s.w0 + p.moved, begun, at);
        AllSampled(tram, c);
        p, kept := JudgeChain(groups, batch, p, toRead, s, c);
      }
      pendingLost := p.lost;
      outcome := if toRead > 0 then Drained else NothingWaiting;
    }

    /** How far the writer is ahead, as far as the pointer shows. */
    method Behind(nowPar: nat, ghost w0: nat) returns (behind: nat)
      requires tram.total > 0 && nextPar == Mod(log.position, tram.total)
      requires log.position <= w0 && nowPar == Mod(w0, tram.total)
      ensures behind == Mod(w0 - log.position, tram.total) && behind <= w0 - log.position
      ensures nextPar == Mod(w0 - behind, tram.total)
    {
      Waiting(log.position, w0, tram.total);
      behind := Mod(nowPar + tram.total - nextPar, tram.total);
    }

    /** How much there is to read, after writing off what the writer is about to reach. */
    method CatchUp(nowPar: nat, ghost w0: nat) returns (available: nat, lost: nat)
      requires tram.total >= 3 && Books(pendingLost) && nextPar == Mod(log.position, tram.total)
      requires log.position <= w0 && nowPar == Mod(w0, tram.total)
      modifies this`log, this`lostCount, this`nextPar
      ensures Books(lost) && nextPar == Mod(log.position, tram.total)
      ensures available == Available(Mod(w0 - old(log.position), tram.total), tram.total)
      ensures log == CaughtUp(old(log), w0, tram.total)
      ensures
        var b := (w0 - old(log.position)) % tram.total;
        && available == (if b + 1 == tram.total then 0 else if b + 2 == tram.total then b - 1 else b)
        && log.position == w0 - available && lostCount == old(lostCount) + (b - available) && records == old(records)
    {
      AvailableIs(w0 - log.position, tram.total);
      available, lost := WaitingLess(nowPar, w0);
    }

    method WaitingLess(nowPar: nat, ghost w0: nat) returns (available: nat, lost: nat)
      requires tram.total >= 3 && Books(pendingLost) && nextPar == Mod(log.position, tram.total)
      requires log.position <= w0 && nowPar == Mod(w0, tram.total)
      modifies this`log, this`lostCount, this`nextPar
      ensures Books(lost) && nextPar == Mod(log.position, tram.total)
      ensures available == Available(Mod(w0 - old(log.position), tram.total), tram.total)
      ensures log == CaughtUp(old(log), w0, tram.total)
      ensures lostCount == old(lostCount) + (Mod(w0 - old(log.position), tram.total) - available)
      ensures records == old(records)
    {
      var total := tram.total;
      ghost var before := log;
      var behind := Behind(nowPar, w0);
      lost := WriteOff(0, pendingLost, w0 - behind);
      available, lost := GiveUpStale(behind, lost, nowPar, w0);
      CaughtUpIs(before, w0, total, behind, available);
    }

    /** Of what is waiting, drops all if the writer is there, else what it would reach next. */
    method GiveUpStale(behind: nat, lost0: nat, nowPar: nat, ghost w0: nat) returns (available: nat, lost: nat)
      requires tram.total >= 3 && Books(lost0) && nextPar == Mod(log.position, tram.total)
      requires log.position + behind == w0 && nowPar == Mod(w0, tram.total)
      modifies this`log, this`lostCount, this`nextPar
      ensures Books(lost) && nextPar == Mod(log.position, tram.total)
      ensures available == Available(behind, tram.total)
      ensures log == WrittenOff(old(log), behind - available, w0 - available)
      ensures lostCount == old(lostCount) + (behind - available)
    {
      var total := tram.total;
      available, lost := behind, lost0;
      if available >= total - 1 && available != 0 {
        lost := WriteOff(available, lost, w0);
        nextPar := nowPar;
        available := 0;
      }
      if available + MARGIN > total {
        var n := available + MARGIN - total;
        nextPar := Mod(nextPar + n, total);
        ModSum(log.position, n, total);
        lost := WriteOff(n, lost, log.position + n);
        available := available - n;
      }
    }

    /** One paragraph of a group just read, published: it is not torn. */
    method Keep(words: seq<Word>, lost: nat, ghost k: nat, ghost begun: nat, ghost at: nat)
      requires tram.total > 0 && Books(lost) && nextPar == Mod(log.position, tram.total)
      requires tram.Intact(k, words, begun, at) && log.position == k
      requires k < begun / WORDS_PER_PAR && at / WORDS_PER_PAR < k + tram.total
      modifies this`log, this`records, this`nextPar
      ensures Books(0) && nextPar == Mod(log.position, tram.total)
      ensures log == Published(old(log)) && old(records) <= records
    {
      NotTorn(tram, k, words, begun, at);
      ModSum(k, 1, tram.total);
      Publish(nextPar, words, lost);
      nextPar := Mod(nextPar + 1, tram.total);
    }

    /** A pass that began with s is at p, having published `kept` paragraphs; once it is over
        the reader is at or past the pointer it began with. */
    ghost predicate OnTrack(s: Start, p: Progress, kept: nat)
      reads this
    {
      && s.toRead + MARGIN <= tram.total && s.log.position + s.toRead == s.w0
      && Books(p.lost) && nextPar == Mod(log.position, tram.total)
      && kept <= p.i <= s.toRead && Reached(s.log, kept, s.toRead, log, tram.total)
      && (p.i < s.toRead ==> p.i == kept)
      && (if p.i == kept then log.position == s.log.position + kept else log.position >= s.w0)
    }

    /** It knows the writer's paragraph, from modular samples. */
    ghost predicate Sees(s: Start, p: Progress, here: nat)
      requires tram.total > 0
    {
      s.w0 + p.moved == here && p.prevPar == Mod(here, tram.total)
    }

    /** The writer has come a lap past the pass's k-th paragraph. */
    ghost predicate Lapped(s: Start, k: nat, here: nat) { s.log.position + k + tram.total <= here }

    /** A group of paragraphs, by the pointer read after it: published one by one until the
        writer is found to have reached the next one's slot; what is left of the pass is then
        lost. */
    method JudgeGroup(pars: seq<seq<Word>>, p0: Progress, toRead: nat, ghost s: Start, ghost begun: nat,
                      ghost ended: nat)
      returns (p: Progress, ghost kept: nat)
      requires OnTrack(s, p0, p0.i) && toRead == s.toRead && p0.i + |pars| <= toRead
      requires Sees(s, p0, ended / WORDS_PER_PAR) && s.w0 <= begun / WORDS_PER_PAR
      requires tram.ParsIntact(log.position, pars, begun, ended)
      modifies this`log, this`records, this`nextPar, this`lostCount
      ensures OnTrack(s, p, kept) && old(records) <= records && p.moved == p0.moved && p.prevPar == p0.prevPar
      ensures kept > p0.i ==> !Lapped(s, kept - 1, ended / WORDS_PER_PAR)
      ensures || p.i == kept == p0.i + |pars|
              || (p.i == toRead > kept && kept >= p0.i && log.position == ended / WORDS_PER_PAR
                  && Lapped(s, kept, ended / WORDS_PER_PAR))
    {
      var margin := tram.total - toRead;
      p, kept := p0, p0.i;
      for g := 0 to |pars|
        invariant p == p0.(i := p0.i + g, lost := p.lost) && kept == p.i && OnTrack(s, p, p.i)
        invariant old(records) <= records && log.position == old(log.position) + g
        invariant kept > p0.i ==> !Lapped(s, kept - 1, ended / WORDS_PER_PAR)
      {
        if p.moved >= margin + p.i {
          p := GiveUp(p, toRead, s, ended / WORDS_PER_PAR);
          return;
        }
        assert tram.Intact(old(log.position) + g, pars[g], begun, ended);
        p := KeepNext(pars[g], p, s, begun, ended);
        kept := p.i;
      }
    }

    /** The rest of a pass is lost; on from the writer's paragraph. */
    method GiveUp(p0: Progress, toRead: nat, ghost s: Start, ghost here: nat) returns (p: Progress)
      requires OnTrack(s, p0, p0.i) && toRead == s.toRead > p0.i && Sees(s, p0, here) && Lapped(s, p0.i, here)
      modifies this`log, this`nextPar, this`lostCount
      ensures OnTrack(s, p, p0.i) && log.position == here && p == p0.(i := toRead, lost := p.lost)
    {
      ReachedOver(s.log, p0.i, s.toRead, log, tram.total, here);
      var lost := WriteOff(toRead - p0.i, p0.lost, here);
      nextPar := p0.prevPar;
      p := p0.(i := toRead, lost := lost);
    }

    /** The next paragraph of the pass, read whole. */
    method KeepNext(words: seq<Word>, p0: Progress, ghost s: Start, ghost begun: nat, ghost ended: nat)
      returns (p: Progress)
      requires OnTrack(s, p0, p0.i) && p0.i < s.toRead && s.w0 <= begun / WORDS_PER_PAR
      requires tram.Intact(log.position, words, begun, ended) && !Lapped(s, p0.i, ended / WORDS_PER_PAR)
      modifies this`log, this`records, this`nextPar
      ensures OnTrack(s, p, p.i) && p == p0.(i := p0.i + 1, lost := 0)
      ensures log.position == old(log.position) + 1 && old(records) <= records
    {
      ReachedMore(s.log, p0.i, s.toRead, log, tram.total);
      Keep(words, p0.lost, log.position, begun, ended);
      p := p0.(i := p0.i + 1, lost := 0);
    }

    /** Group q of a chain, by the pointer read after it. */
    method JudgeStep(group: Group, p0: Progress, toRead: nat, ghost s: Start, ghost c: Chain, ghost q: nat)
      returns (p: Progress, ghost kept: nat)
      requires Delivered(tram, c) && q < |c.groups| && 4 * q < c.batch && group == c.groups[q]
      requires OnTrack(s, p0, p0.i) && toRead == s.toRead && p0.i + Min(c.batch - 4 * q, NOW_EVERY) <= toRead
      requires log.position == c.first + 4 * q && s.w0 <= c.begun / WORDS_PER_PAR
      requires Sees(s, p0, Sampled(tram, c, q))
      modifies this`log, this`records, this`nextPar, this`lostCount
      ensures OnTrack(s, p, kept) && old(records) <= records && Sees(s, p, Sampled(tram, c, q + 1))
      ensures log.position <= Sampled(tram, c, |c.groups|)
      ensures || (p.i == kept == p0.i + Min(c.batch - 4 * q, NOW_EVERY)
                  && log.position == c.first + 4 * q + Min(c.batch - 4 * q, NOW_EVERY))
              || p.i == toRead
    {
      NextGroup(tram, c, q);
      var p1 := See(group.now, p0, s, Sampled(tram, c, q), c.at[q] / WORDS_PER_PAR);
      p, kept := JudgeGroup(group.pars, p1, toRead, s, c.begun, c.at[q]);
    }

    /** One more pointer. */
    method See(now: Word, p0: Progress, ghost s: Start, ghost last: nat, ghost here: nat) returns (p: Progress)
      requires tram.total > 0 && Sees(s, p0, last) && last <= here < last + tram.total
      requires now >= tram.bot && tram.ParOf(now) == Mod(here, tram.total)
      ensures Sees(s, p, here) && p.i == p0.i && p.lost == p0.lost
    {
      var wPar := tram.ParOf(now);
      var moved := Advance(p0.moved, p0.prevPar, wPar, s.w0, here);
      p := p0.(moved := moved, prevPar := wPar);
    }

    /** A chain's groups in turn. */
    method JudgeChain(groups: seq<Group>, batch: nat, p0: Progress, toRead: nat, ghost s: Start, ghost c: Chain)
      returns (p: Progress, ghost kept: nat)
      requires Delivered(tram, c) && groups == c.groups && 0 < batch == c.batch
      requires OnTrack(s, p0, p0.i) && toRead == s.toRead && p0.i + batch <= toRead
      requires log.position == c.first && s.w0 <= c.begun / WORDS_PER_PAR && Sees(s, p0, c.from)
      modifies this`log, this`records, this`nextPar, this`lostCount
      ensures OnTrack(s, p, kept) && old(records) <= records && p0.i < p.i
      ensures log.position <= Sampled(tram, c, |groups|)
      ensures p.i < toRead ==> Sees(s, p, Sampled(tram, c, |groups|))
    {
      p, kept := p0, p0.i;
      var k, q := 0, 0;
      while k < batch && p.i < toRead
        invariant q <= |groups| && (if k < batch then k == 4 * q else k == batch && q == |groups|)
        invariant OnTrack(s, p, kept) && old(records) <= records
        invariant p.i < toRead ==> p.i == kept == p0.i + k && log.position == c.first + k
        invariant if k == 0 then p.i == p0.i else p.i > p0.i && log.position <= Sampled(tram, c, |groups|)
        invariant Sees(s, p, Sampled(tram, c, q))
      {
        p, kept := JudgeStep(groups[q], p, toRead, s, c, q);
        k, q := k + Min(batch - k, NOW_EVERY), q + 1;
      }
    }

    /** How far the writer is past w0, from one more pointer: it came less than a lap. */
    method Advance(moved: nat, prevPar: nat, wPar: nat, ghost w0: nat, ghost here: nat) returns (moved': nat)
      requires tram.total > 0 && prevPar == Mod(w0 + moved, tram.total) && wPar == Mod(here, tram.total)
      requires w0 + moved <= here < w0 + moved + tram.total
      ensures w0 + moved' == here
    {
      ModDistance(w0 + moved, here - (w0 + moved), tram.total);
      moved' := moved + Mod(wPar + tram.total - prevPar, tram.total);
    }
  }

  /** What true books say. */
  lemma Told(t: Tram, records: seq<Record>, lostCount: nat, log: Log, pending: nat)
    requires Good(t, records, lostCount, log, pending)
    ensures forall r :: 0 <= r < |records| ==>
              && records[r].seqNo == r && records[r].words == t.Data(log.index[r])
              && records[r].offset == t.bot + 1024 * Mod(log.index[r], t.total)
              && (records[r].gap <==> records[r].lost > 0)
              && Due(log, r) + records[r].lost + log.escaped[r] == log.index[r]
    ensures forall r, s :: 0 <= r < s < |records| ==> log.index[r] < log.index[s]
    ensures log.position == log.start + |records| + lostCount + Escaped(log)
  {
    InOrder(t, records, lostCount, log, pending);
    Conservation(t, records, lostCount, log, pending);
    forall r | 0 <= r < |records|
      ensures records[r].words == t.Data(log.index[r]) && EntryOk(t, records, log, r)
    {
      assert EntryOk(t, records, log, r);
    }
  }

  /** The modular distance is the true one less whole laps. */
  lemma Waiting(position: nat, w0: nat, total: nat)
    requires total > 0 && position <= w0
    ensures
      var available := Mod(Mod(w0, total) + total - Mod(position, total), total);
      && available == Mod(w0 - position, total)
      && Mod(w0 - available, total) == Mod(position, total)
  {
    ModDistance(position, w0 - position, total);
    ModLaps(position, w0 - position, total);
  }

  /** The writer's paragraph at the q-th pointer read, or before the first. */
  function Sampled(t: Tram, c: Chain, q: nat): nat
    requires q <= |c.at|
  {
    t.LastSample(c.at[..q], c.from)
  }

  lemma AllSampled(t: Tram, c: Chain)
    requires |c.at| == |c.groups|
    ensures Sampled(t, c, |c.groups|) == t.LastSample(c.at, c.from) && Sampled(t, c, 0) == c.from
  {
    assert c.at[..|c.at|] == c.at;
  }

  /** What the pass may rely on when it turns to group q. */
  lemma NextGroup(t: Tram, c: Chain, q: nat)
    requires Delivered(t, c) && q < |c.groups| && 4 * q < c.batch
    ensures |c.groups[q].pars| == Min(c.batch - 4 * q, NOW_EVERY)
    ensures
      var here, before := c.at[q] / WORDS_PER_PAR, Sampled(t, c, q);
      && c.groups[q].now >= t.bot && t.ParOf(c.groups[q].now) == Mod(here, t.total)
      && before <= here < before + t.total && here <= Sampled(t, c, |c.groups|)
      && Sampled(t, c, q + 1) == here
    ensures t.ParsIntact(c.first + 4 * q, c.groups[q].pars, c.begun, c.at[q])
  {
    assert t.GroupRead(c.first, c.batch, q, c.groups[q], t.LastSample(c.at[..q], c.from), c.begun, c.at[q]);
    SampledAt(t, c, q);
  }

  lemma SampledAt(t: Tram, c: Chain, q: nat)
    requires Delivered(t, c) && q < |c.groups|
    ensures Sampled(t, c, q + 1) == c.at[q] / WORDS_PER_PAR <= Sampled(t, c, |c.groups|)
  {
    assert c.at[..q + 1][q] == c.at[q];
    SamplesGrow(t, c.first, c.batch, c.groups, c.at, c.from, c.begun, q);
    AllSampled(t, c);
  }

  /** A paragraph complete before the chain, and less than a lap old at the pointer read
      after it, was read whole. */
  lemma NotTorn(t: Tram, k: nat, words: seq<Word>, begun: nat, at: nat)
    requires t.Intact(k, words, begun, at)
    requires k < begun / WORDS_PER_PAR && at / WORDS_PER_PAR < k + t.total
    ensures words == t.Data(k)
  {
    StillInTheRing(at, k, t.total);
    MulMono(WORDS_PER_PAR, k + 1, begun / WORDS_PER_PAR);
  }

  /** Successive pointer reads of a chain never go back. */
  lemma {:induction false} SamplesGrow(t: Tram, par: nat, batch: nat, groups: seq<Group>, at: seq<nat>,
                                       from: nat, begun: nat, q: nat)
    requires t.total > 0 && t.Grouped(par, batch, groups, at, from, begun) && q < |at|
    ensures at[q] / WORDS_PER_PAR <= t.LastSample(at, from)
  {
    if q < |at| - 1 {
      var n := |at| - 1;
      assert t.GroupRead(par, batch, n, groups[n], t.LastSample(at[..n], from), begun, at[n]);
      assert t.Grouped(par, batch, groups[..n], at[..n], from, begun) by {
        forall p | 0 <= p < n ensures at[..n][..p] == at[..p] {
        }
      }
      SamplesGrow(t, par, batch, groups[..n], at[..n], from, begun, q);
    }
  }

  /** A ring of four paragraphs, one of them waiting, the writer just past it. */
  method OneWaiting(emits: nat -> Word) returns (d: Drain)
    ensures fresh(d) && fresh(d.tram) && fresh(d.tram.ram) && d.Valid() && d.tram.total == 4
    ensures d.records == [] && d.lostCount == d.pendingLost == 0 && d.log == Opened(d.log.position)
    ensures d.tram.sampled == d.log.position + 1 && d.tram.written == d.tram.sampled * WORDS_PER_PAR
  {
    var t := new Tram(4, 0, emits);
    d := new Drain(t);
    t.Emit((t.sampled + 1) * WORDS_PER_PAR - t.written);
    var now := t.Sample();
  }

  /** A torn pass: while the one paragraph is read the writer fills three more, which brings it
      back to that one.  The reader goes on four paragraphs further with one of them counted
      as lost. */
  method TornPassCountsOneOfFour(emits: nat -> Word) returns (d: Drain, ghost before: Log, ghost pass: Pass)
    ensures Legal(before, pass, 4) && d.log == AfterPass(before, pass, 4) && pass.to == pass.now + 3
    ensures d.log.position == before.position + 4 && d.records == [] && d.lostCount == 1
    ensures Slip(before, pass, 4) == 3
  {
    d := OneWaiting(emits);
    var t := d.tram;
    before := d.log;
    ghost var w0, begun := t.sampled, t.written;
    var now := t.Sample();
    var toRead, lost := d.CatchUp(t.ParOf(now), w0);
    t.Emit(3 * WORDS_PER_PAR);
    now := t.Sample();
    var p := Progress(0, lost, 3, t.ParOf(now));
    ghost var s, kept := Start(d.log, w0, 1), 0;
    p, kept := d.JudgeGroup([t.Data(t.sampled - 4)], p, toRead, s, begun, t.written);
    PassMade(before, w0, 0, d.log, 4);
    pass := Pass(w0, 0, d.log.position);
  }
}
