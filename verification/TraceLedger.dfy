/** The book the drain keeps: what it published, what it wrote off, and - as history -
    which paragraphs of the trace those were. */
module TraceLedger {
  import opened Common
  import opened Arith
  import opened TraceRam

  datatype Record = Record(seqNo: nat, offset: nat, gap: bool, lost: nat, words: seq<Word>)

  /** What the program's records and counts stand for, in paragraphs counted since the
      writer began. */
  datatype Log = Log(
    start: nat,              // where the trace began
    position: nat,           // the next paragraph to read
    index: seq<nat>,         // the paragraph each record claims to hold
    escaped: seq<nat>,       // per record: paragraphs skipped before it and counted nowhere
    escapedNow: nat)         // and since the last record

  function Opened(at: nat): Log { Log(at, at, [], [], 0) }

  function Published(log: Log): Log {
    log.(index := log.index + [log.position], escaped := log.escaped + [log.escapedNow],
         escapedNow := 0, position := log.position + 1)
  }

  /** n paragraphs counted as lost, the reader's next one being `to`. */
  function WrittenOff(log: Log, n: nat, to: nat): Log
    requires log.position + n <= to
  {
    log.(escapedNow := log.escapedNow + (to - log.position - n), position := to)
  }

  /** The next n paragraphs published one after the other. */
  function Read(log: Log, n: nat): (r: Log)
    ensures r.position == log.position + n && r.start == log.start
  {
    if n == 0 then log else Published(Read(log, n - 1))
  }

  /** `kept` of the next `goal` paragraphs published; if the reader is not right after them it
      gave up the rest and went on at `to`. */
  function ReadUpTo(log: Log, kept: nat, goal: nat, to: nat): (r: Log)
    requires to == log.position + kept || (kept <= goal && log.position + goal <= to)
    ensures r.position == to
  {
    if to == log.position + kept then Read(log, kept) else WrittenOff(Read(log, kept), goal - kept, to)
  }

  /** Out of `goal` paragraphs `kept` were published; the reader is right after them, or, the
      writer being at least a lap past the next one, wherever that was seen. */
  predicate Reached(before: Log, kept: nat, goal: nat, after: Log, total: nat) {
    && kept <= goal <= total
    && (after.position != before.position + kept ==>
          kept < goal && before.position + kept + total <= after.position)
    && after == ReadUpTo(before, kept, goal, after.position)
  }

  function Range(from: nat, n: nat): seq<nat> { seq(n, i requires i >= 0 => from + i) }

  /** Of `behind` paragraphs between reader and writer, as far as the pointer shows, those a
      pass will read: none if the writer is on the reader's heels, else all but those it
      would reach next. */
  function Available(behind: nat, total: nat): (r: nat)
    requires total >= 3
    ensures r + 3 <= total && r <= behind
  {
    if behind >= total - 1 then 0 else Min(behind, total - 3)
  }

  /** What a pass writes off before it reads, the pointer being in paragraph `now`. */
  function CaughtUp(log: Log, now: nat, total: nat): Log
    requires total >= 3 && log.position <= now
  {
    var behind := Mod(now - log.position, total);
    var available := Available(behind, total);
    WrittenOff(log, behind - available, now - available)
  }

  /** One pass: the pointer it began with, the paragraphs it published, and where it left the
      reader - right after those, or, the writer having lapped it, wherever that was seen. */
  datatype Pass = Pass(now: nat, kept: nat, to: nat)

  predicate Legal(log: Log, p: Pass, total: nat) {
    && total >= 3 && log.position <= p.now
    && var available := Available(Mod(p.now - log.position, total), total);
       var next := p.now - available + p.kept;
       && p.kept <= available
       && (p.to != next ==> p.kept < available && next + total <= p.to)
  }

  function AfterPass(log: Log, p: Pass, total: nat): Log
    requires Legal(log, p, total)
  {
    ReadUpTo(CaughtUp(log, p.now, total), p.kept, Available(Mod(p.now - log.position, total), total), p.to)
  }

  /** `logs` is what the passes made of the first of them. */
  predicate History(logs: seq<Log>, passes: seq<Pass>, total: nat) {
    && |logs| == |passes| + 1
    && forall n :: 0 <= n < |passes| ==>
         Legal(logs[n], passes[n], total) && logs[n + 1] == AfterPass(logs[n], passes[n], total)
  }

  /** What a pass skips without counting it: whole laps of the writer since the last one, and
      its movement during this one if it lapped the reader. */
  function Slip(log: Log, p: Pass, total: nat): nat
    requires Legal(log, p, total)
  {
    (p.now - log.position) / total * total + if p.to > p.now then p.to - p.now else 0
  }

  function Slips(logs: seq<Log>, passes: seq<Pass>, total: nat): nat
    requires History(logs, passes, total)
  {
    if passes == [] then 0
    else var n := |passes| - 1; Slips(logs[..n + 1], passes[..n], total) + Slip(logs[n], passes[n], total)
  }

  function Sum(xs: seq<nat>): nat {
    if xs == [] then 0 else Sum(xs[..|xs| - 1]) + xs[|xs| - 1]
  }

  /** Everything skipped and counted nowhere. */
  function Escaped(log: Log): nat { Sum(log.escaped) + log.escapedNow }

  function SumLost(rs: seq<Record>): nat {
    if rs == [] then 0 else SumLost(rs[..|rs| - 1]) + rs[|rs| - 1].lost
  }

  /** The first paragraph no record before the r-th accounts for. */
  function Due(log: Log, r: nat): nat
    requires r <= |log.index|
  {
    if r == 0 then log.start else log.index[r - 1] + 1
  }

  /** The r-th record carries paragraph k, every word of it from the same lap. */
  predicate Whole(t: Tram, rec: Record, r: nat, k: nat)
    requires t.total > 0
  {
    && rec.words == t.Data(k)
    && rec.offset == t.bot + Mod(k, t.total) * PARAGRAPH
    && rec.seqNo == r && (rec.gap <==> rec.lost > 0)
  }

  /** The r-th record is whole, and its count falls short of the true gap by what escaped. */
  predicate EntryOk(t: Tram, records: seq<Record>, log: Log, r: nat)
    requires t.total > 0 && r < |records| == |log.index| == |log.escaped|
  {
    && Whole(t, records[r], r, log.index[r])
    && Due(log, r) + records[r].lost + log.escaped[r] == log.index[r]
  }

  /** The book is true, `pending` lost paragraphs not being in any record yet. */
  predicate Good(t: Tram, records: seq<Record>, lostCount: nat, log: Log, pending: nat) {
    && t.total > 0 && |records| == |log.index| == |log.escaped|
    && (forall r :: 0 <= r < |records| ==> EntryOk(t, records, log, r))
    && Due(log, |log.index|) + pending + log.escapedNow == log.position
    && SumLost(records) + pending == lostCount
  }

  lemma PublishKeeps(t: Tram, records: seq<Record>, lostCount: nat, log: Log, rec: Record)
    requires Good(t, records, lostCount, log, rec.lost) && Whole(t, rec, |records|, log.position)
    ensures Good(t, records + [rec], lostCount, Published(log), 0)
  {
    var rs, l := records + [rec], Published(log);
    assert rs[..|records|] == records;
    forall r | 0 <= r < |rs| ensures EntryOk(t, rs, l, r) {
      if r < |records| {
        assert EntryOk(t, records, log, r);
      }
    }
  }

  lemma WriteOffKeeps(t: Tram, records: seq<Record>, lostCount: nat, log: Log, pending: nat, n: nat, to: nat)
    requires Good(t, records, lostCount, log, pending) && log.position + n <= to
    ensures Good(t, records, lostCount + n, WrittenOff(log, n, to), pending + n)
  {
    var l := WrittenOff(log, n, to);
    forall r | 0 <= r < |records| ensures EntryOk(t, records, l, r) {
      assert EntryOk(t, records, log, r);
    }
  }

  /** Reading on publishes consecutive paragraphs, and nothing escapes between two of them. */
  lemma {:induction false} ReadIsRange(log: Log, n: nat)
    ensures Read(log, n).index == log.index + Range(log.position, n)
    ensures n > 0 ==> Read(log, n).escaped == log.escaped + [log.escapedNow] + seq(n - 1, _ => 0)
    ensures n > 0 ==> Read(log, n).escapedNow == 0
  {
    if n > 0 {
      ReadIsRange(log, n - 1);
      assert Range(log.position, n) == Range(log.position, n - 1) + [log.position + (n - 1)];
      if n > 1 {
        assert seq(n - 1, _ => 0) == seq(n - 2, _ => 0) + [0];
      }
    }
  }

  /** The laps nobody saw and the paragraphs given up are one write-off. */
  lemma {:induction false} CaughtUpIs(log: Log, now: nat, total: nat, behind: nat, available: nat)
    requires total >= 3 && log.position <= now && behind == Mod(now - log.position, total)
    requires available == Available(behind, total)
    ensures CaughtUp(log, now, total)
         == WrittenOff(WrittenOff(log, 0, now - behind), behind - available, now - available)
  {
  }

  lemma {:induction false} AvailableIs(d: nat, total: nat)
    requires total >= 3
    ensures
      var b, available := d % total, Available(Mod(d, total), total);
      && available == (if b + 1 == total then 0 else if b + 2 == total then b - 1 else b)
      && Mod(d, total) == b
  {
    ModIsRemainder(d, total);
  }

  /** Catching up, and then reading as far as it went, is a pass. */
  lemma {:induction false} PassMade(before: Log, now: nat, kept: nat, after: Log, total: nat)
    requires total >= 3 && before.position <= now
    requires
      var goal := Available(Mod(now - before.position, total), total);
      Reached(CaughtUp(before, now, total), kept, goal, after, total)
    ensures
      var p := Pass(now, kept, after.position);
      Legal(before, p, total) && after == AfterPass(before, p, total)
  {
  }

  lemma HistoryOn(logs: seq<Log>, passes: seq<Pass>, total: nat, p: Pass, after: Log)
    requires History(logs, passes, total)
    requires Legal(logs[|passes|], p, total) && after == AfterPass(logs[|passes|], p, total)
    ensures History(logs + [after], passes + [p], total)
  {
    var ls, ps := logs + [after], passes + [p];
    forall n | 0 <= n < |ps| ensures Legal(ls[n], ps[n], total) && ls[n + 1] == AfterPass(ls[n], ps[n], total) {
      if n < |passes| {
        assert Legal(logs[n], passes[n], total);
      }
    }
  }

  lemma ReachedMore(before: Log, kept: nat, goal: nat, log: Log, total: nat)
    requires Reached(before, kept, goal, log, total) && kept < goal && log.position == before.position + kept
    ensures Reached(before, kept + 1, goal, Published(log), total)
  {
  }

  lemma ReachedOver(before: Log, kept: nat, goal: nat, log: Log, total: nat, to: nat)
    requires Reached(before, kept, goal, log, total) && kept < goal && log.position == before.position + kept
    requires before.position + kept + total <= to
    ensures Reached(before, kept, goal, WrittenOff(log, goal - kept, to), total)
  {
  }

  /** What escapes the count before a pass is the whole laps the pointer cannot show. */
  lemma CatchUpMissesLaps(log: Log, now: nat, total: nat)
    requires total >= 3 && log.position <= now
    ensures
      var d, caught := now - log.position, CaughtUp(log, now, total);
      && caught.escapedNow == log.escapedNow + d / total * total
      && caught.position == now - Available(d % total, total)
  {
    var d := now - log.position;
    ModIsRemainder(d, total);
    assert d / total * total == d - d % total;
  }

  lemma {:induction false} ReadEscapes(log: Log, n: nat)
    ensures Escaped(Read(log, n)) == Escaped(log)
  {
    if n > 0 {
      ReadEscapes(log, n - 1);
      var l := Read(log, n - 1);
      assert (l.escaped + [l.escapedNow])[..|l.escaped|] == l.escaped;
    }
  }

  lemma PassSlips(log: Log, p: Pass, total: nat)
    requires Legal(log, p, total)
    ensures Escaped(AfterPass(log, p, total)) == Escaped(log) + Slip(log, p, total)
  {
    CatchUpMissesLaps(log, p.now, total);
    ReadEscapes(CaughtUp(log, p.now, total), p.kept);
  }

  /** What a pass makes of b paragraphs between reader and pointer, whole laps taken off: with
      three to spare in the ring it reads them all, with two it gives up the oldest first, and
      with one it gives up all; lapped, it gives up what it had not published. */
  predicate PassMakes(b: nat, total: nat, published: int, lost: int, cut: bool, lapped: bool) {
    && lost == (if lapped || b + 1 == total then b - published else if b + 2 == total then 1 else 0)
    && (if cut then published + lost <= b else published + lost == b)
  }

  lemma PassLost(log: Log, p: Pass, total: nat)
    requires Legal(log, p, total)
    ensures
      var b, lapped := (p.now - log.position) % total, p.to > p.now;
      var lost := p.to - log.position - p.kept - Slip(log, p, total);
      && PassMakes(b, total, p.kept, lost, p.to < p.now, lapped)
      && (lapped ==> p.now - b + p.kept + total <= p.to)
  {
    var d := p.now - log.position;
    ModIsRemainder(d, total);
    var laps := d / total * total;
    assert d == laps + d % total;
  }

  /** What a pass counted as lost, by the books before and after it. */
  function LostIn(before: Log, after: Log): int {
    (after.position - before.position) - (|after.index| - |before.index|) - (Escaped(after) - Escaped(before))
  }

  lemma {:induction false} PassTells(log: Log, p: Pass, total: nat)
    requires Legal(log, p, total)
    ensures
      var after := AfterPass(log, p, total);
      MadeBy(log, p, after, total) && |after.index| == |log.index| + p.kept && after.start == log.start
  {
    PassSlips(log, p, total);
    PassLost(log, p, total);
    ReadIsRange(CaughtUp(log, p.now, total), p.kept);
  }

  /** The books after a pass show it published and counted as it should. */
  predicate MadeBy(log: Log, p: Pass, after: Log, total: nat) {
    && total > 0 && log.position <= p.now && after.position == p.to
    && PassMakes((p.now - log.position) % total, total, |after.index| - |log.index|, LostIn(log, after),
                 p.to < p.now, p.to > p.now)
  }

  lemma HistoryPrefix(logs: seq<Log>, passes: seq<Pass>, total: nat, n: nat)
    requires History(logs, passes, total) && n < |passes|
    ensures History(logs[..n + 1], passes[..n], total)
    ensures Legal(logs[n], passes[n], total)
    ensures Escaped(logs[n + 1]) == Escaped(logs[n]) + Slip(logs[n], passes[n], total)
  {
    PassSlips(logs[n], passes[n], total);
  }

  /** What escapes the count over any number of passes is exactly what each let slip. */
  lemma {:induction false} HistorySlips(logs: seq<Log>, passes: seq<Pass>, total: nat)
    requires History(logs, passes, total)
    ensures Escaped(logs[|passes|]) == Escaped(logs[0]) + Slips(logs, passes, total)
  {
    if passes != [] {
      var n := |passes| - 1;
      HistoryPrefix(logs, passes, total, n);
      HistorySlips(logs[..n + 1], passes[..n], total);
    }
  }

  lemma {:induction false} AllMade(logs: seq<Log>, passes: seq<Pass>, total: nat)
    requires History(logs, passes, total)
    ensures forall n :: 0 <= n < |passes| ==> MadeBy(logs[n], passes[n], logs[n + 1], total)
    ensures logs[|passes|].start == logs[0].start
  {
    if passes != [] {
      var k := |passes| - 1;
      HistoryPrefix(logs, passes, total, k);
      AllMade(logs[..k + 1], passes[..k], total);
      PassTells(logs[k], passes[k], total);
      assert forall n :: 0 <= n < k ==> logs[..k + 1][n] == logs[n] && passes[..k][n] == passes[n];
    }
  }

  /** Every paragraph the reader has gone by is in a record, in the count, or escaped it. */
  lemma Conservation(t: Tram, records: seq<Record>, lostCount: nat, log: Log, pending: nat)
    requires Good(t, records, lostCount, log, pending)
    ensures log.position == log.start + |records| + lostCount + Escaped(log)
  {
    ConservedUpTo(t, records, lostCount, log, pending, |records|);
    assert records[..|records|] == records && log.escaped[..|records|] == log.escaped;
  }

  lemma {:induction false} ConservedUpTo(t: Tram, records: seq<Record>, lostCount: nat, log: Log,
                                         pending: nat, r: nat)
    requires Good(t, records, lostCount, log, pending) && r <= |records|
    ensures Due(log, r) == log.start + r + SumLost(records[..r]) + Sum(log.escaped[..r])
  {
    if r > 0 {
      ConservedUpTo(t, records, lostCount, log, pending, r - 1);
      assert EntryOk(t, records, log, r - 1);
      assert records[..r][..r - 1] == records[..r - 1] && log.escaped[..r][..r - 1] == log.escaped[..r - 1];
    }
  }

  /** The program's counts move as the books do. */
  lemma CountsMove(t: Tram, records: seq<Record>, lostCount: nat, log: Log, pending: nat,
                   records': seq<Record>, lostCount': nat, log': Log, pending': nat)
    requires Good(t, records, lostCount, log, pending) && Good(t, records', lostCount', log', pending')
    requires log.start == log'.start
    ensures lostCount' - lostCount == LostIn(log, log') && |records'| - |records| == |log'.index| - |log.index|
  {
    Conservation(t, records, lostCount, log, pending);
    Conservation(t, records', lostCount', log', pending');
  }

  /** So a pass's effect on them is known. */
  lemma PassCounted(t: Tram, records: seq<Record>, lostCount: nat, log: Log, pending: nat,
                    records': seq<Record>, lostCount': nat, log': Log, pending': nat, p: Pass)
    requires Good(t, records, lostCount, log, pending) && Good(t, records', lostCount', log', pending')
    requires Legal(log, p, t.total) && log' == AfterPass(log, p, t.total)
    ensures
      var b, published := (p.now - log.position) % t.total, |records'| - |records|;
      && PassMakes(b, t.total, published, lostCount' - lostCount, log'.position < p.now, log'.position > p.now)
      && (log'.position > p.now ==> p.now - b + published + t.total <= log'.position)
  {
    PassTells(log, p, t.total);
    PassLost(log, p, t.total);
    CountsMove(t, records, lostCount, log, pending, records', lostCount', log', pending');
  }

  /** No two records hold the same paragraph, and none is out of order. */
  lemma {:induction false} StrictlyIncreasing(t: Tram, records: seq<Record>, lostCount: nat, log: Log,
                                              pending: nat, r: nat, s: nat)
    requires Good(t, records, lostCount, log, pending) && r < s < |log.index|
    ensures log.index[r] < log.index[s]
  {
    assert EntryOk(t, records, log, s);
    if r < s - 1 {
      StrictlyIncreasing(t, records, lostCount, log, pending, r, s - 1);
    }
  }

  lemma InOrder(t: Tram, records: seq<Record>, lostCount: nat, log: Log, pending: nat)
    requires Good(t, records, lostCount, log, pending)
    ensures forall r, s :: 0 <= r < s < |log.index| ==> log.index[r] < log.index[s]
  {
    forall r, s | 0 <= r < s < |log.index| ensures log.index[r] < log.index[s] {
      StrictlyIncreasing(t, records, lostCount, log, pending, r, s);
    }
  }
}
