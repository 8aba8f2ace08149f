/** The TAP controller of IEEE 1149.1-2001, section 6.1, and the driver's way through it. */
module TapStates {

  datatype Column = DR | IR

  datatype Place = Select | Capture | Shift | Exit1 | Pause | Exit2 | Update

  /** The sixteen states: Scan(DR, Exit1) is Exit1-DR, and so on. */
  datatype Tap = TestLogicReset | RunTestIdle | Scan(column: Column, place: Place)

  /** One clock with TMS at this level. */
  function Next(s: Tap, tms: bool): Tap {
    match s
    case TestLogicReset => if tms then TestLogicReset else RunTestIdle
    case RunTestIdle => if tms then Scan(DR, Select) else RunTestIdle
    case Scan(c, Select) =>
      if !tms then Scan(c, Capture) else if c == DR then Scan(IR, Select) else TestLogicReset
    case Scan(c, Capture) => if tms then Scan(c, Exit1) else Scan(c, Shift)
    case Scan(c, Shift) => if tms then Scan(c, Exit1) else Scan(c, Shift)
    case Scan(c, Exit1) => if tms then Scan(c, Update) else Scan(c, Pause)
    case Scan(c, Pause) => if tms then Scan(c, Exit2) else Scan(c, Pause)
    case Scan(c, Exit2) => if tms then Scan(c, Update) else Scan(c, Shift)
    case Scan(c, Update) => if tms then Scan(DR, Select) else RunTestIdle
  }

  function Run(s: Tap, tms: seq<bool>): Tap {
    if tms == [] then s else Next(Run(s, tms[..|tms| - 1]), tms[|tms| - 1])
  }

  lemma {:induction false} RunConcat(s: Tap, a: seq<bool>, b: seq<bool>)
    ensures Run(s, a + b) == Run(Run(s, a), b)
    decreases |b|
  {
    if b == [] {
      assert a + b == a;
    } else {
      var n := |b| - 1;
      assert (a + b)[..|a + b| - 1] == a + b[..n];
      RunConcat(s, a, b[..n]);
    }
  }

  lemma {:induction false} RunSnoc(s: Tap, a: seq<bool>, b: bool)
    ensures Run(s, a + [b]) == Next(Run(s, a), b)
  {
    assert (a + [b])[..|a|] == a;
  }

  /** Below a column's select state. */
  predicate Below(s: Tap, c: Column) { s.Scan? && s.column == c && s.place != Select }

  predicate IsAt(s: Tap, c: Column, p: Place) { s == Scan(c, p) }

  // ------------------------------------------------------------ the driver's hop

  datatype Hop = Hop(tms: bool, state: Tap)

  /** What set_state clocks in state s on its way to t, and the state it then takes itself
      to be in. */
  function HopTo(s: Tap, t: Tap): Hop {
    match s
    case TestLogicReset => if t == TestLogicReset then Hop(true, s) else Hop(false, RunTestIdle)
    case RunTestIdle => if t == RunTestIdle then Hop(false, s) else Hop(true, Scan(DR, Select))
    case Scan(c, Select) =>
      if Below(t, c) then Hop(false, Scan(c, Capture))
      else Hop(true, if c == DR then Scan(IR, Select) else TestLogicReset)
    case Scan(c, Capture) => if t == Scan(c, Shift) then Hop(false, Scan(c, Shift)) else Hop(true, Scan(c, Exit1))
    case Scan(c, Shift) => if t == Scan(c, Shift) then Hop(false, s) else Hop(true, Scan(c, Exit1))
    case Scan(c, Exit1) =>
      if IsAt(t, c, Pause) || IsAt(t, c, Exit2) || IsAt(t, c, Shift) || IsAt(t, c, Exit1)
      then Hop(false, Scan(c, Pause)) else Hop(true, Scan(c, Update))
    case Scan(c, Pause) => if t == Scan(c, Pause) then Hop(false, s) else Hop(true, Scan(c, Exit2))
    case Scan(c, Exit2) =>
      if IsAt(t, c, Shift) || IsAt(t, c, Exit1) || IsAt(t, c, Pause)
      then Hop(false, Scan(c, Shift)) else Hop(true, Scan(c, Update))
    case Scan(c, Update) => if t == RunTestIdle then Hop(false, RunTestIdle) else Hop(true, Scan(DR, Select))
  }

  /** Every hop is a move of the controller's. */
  lemma HopIsMove(s: Tap, t: Tap)
    ensures s != t ==> Next(s, HopTo(s, t).tms) == HopTo(s, t).state
  {
    match s
    case TestLogicReset =>
    case RunTestIdle =>
    case Scan(c, p) =>
  }

  // ------------------------------------------------------------------- distances

  function PlaceOf(t: Tap): Place { if t.Scan? then t.place else Select }

  /** From a column's capture state down to a place in it. */
  function Down(q: Place): (d: nat)
    ensures d <= 3
  {
    match q
    case Shift => 1 case Exit1 => 1 case Pause => 2 case Exit2 => 3 case Update => 2 case _ => 0
  }

  /** From p to q inside a column without leaving it; the capture state cannot be reached so. */
  function Across(p: Place, q: Place): (d: nat)
    ensures d <= 3 && (q == Update ==> d <= 2)
  {
    match p
    case Shift => (match q case Shift => 0 case Exit1 => 1 case Pause => 2 case Exit2 => 3 case _ => 2)
    case Exit1 => (match q case Shift => 3 case Exit1 => 0 case Pause => 1 case Exit2 => 2 case _ => 1)
    case Pause => (match q case Shift => 2 case Exit1 => 3 case Pause => 0 case Exit2 => 1 case _ => 2)
    case Exit2 => (match q case Shift => 1 case Exit1 => 2 case Pause => 3 case Exit2 => 0 case _ => 1)
    case Update => 0
    case _ => Down(q)
  }

  function FromSelectDR(t: Tap): (d: nat)
    ensures d <= 5
  {
    match t
    case TestLogicReset => 2
    case RunTestIdle => 3
    case Scan(c, p) => (if c == DR then 0 else 1) + (if p == Select then 0 else 1 + Down(p))
  }

  function FromUpdate(t: Tap): nat { if t == RunTestIdle then 1 else 1 + FromSelectDR(t) }

  /** How many hops set_state takes from s to t. */
  function Distance(s: Tap, t: Tap): nat {
    if s == t then 0
    else
      match s
      case TestLogicReset => if t == RunTestIdle then 1 else 2 + FromSelectDR(t)
      case RunTestIdle => 1 + FromSelectDR(t)
      case Scan(c, Select) =>
        if c == DR then FromSelectDR(t)
        else if Below(t, IR) then 1 + Down(PlaceOf(t))
        else if t == TestLogicReset then 1
        else if t == RunTestIdle then 2
        else 3 + FromSelectDR(t)
      case Scan(c, p) =>
        var inside := Below(t, c) && p != Update && t != Scan(c, Capture);
        if inside then Across(p, PlaceOf(t)) else Across(p, Update) + FromUpdate(t)
  }

  lemma NearerAbove(s: Tap, t: Tap)
    requires s != t && (s.Scan? ==> s.place == Select)
    ensures Distance(s, t) == 1 + Distance(HopTo(s, t).state, t)
  {
  }

  lemma NearerInside(c: Column, p: Place, t: Tap)
    requires p != Select && Below(t, c) && t != Scan(c, p)
    ensures Distance(Scan(c, p), t) == 1 + Distance(HopTo(Scan(c, p), t).state, t)
  {
  }

  lemma NearerOut(c: Column, p: Place, t: Tap)
    requires p != Select && !Below(t, c)
    ensures Distance(Scan(c, p), t) == 1 + Distance(HopTo(Scan(c, p), t).state, t)
  {
  }

  /** Each hop is one nearer, whatever the pair: set_state ends. */
  lemma HopIsNearer(s: Tap, t: Tap)
    ensures s != t ==> Distance(s, t) == 1 + Distance(HopTo(s, t).state, t)
  {
    if s != t {
      if s.Scan? && s.place != Select {
        if Below(t, s.column) {
          NearerInside(s.column, s.place, t);
        } else {
          NearerOut(s.column, s.place, t);
        }
      } else {
        NearerAbove(s, t);
      }
    }
  }

  /** The levels set_state clocks on its way from s to t. */
  function Path(s: Tap, t: Tap): (p: seq<bool>)
    ensures |p| == Distance(s, t)
    decreases Distance(s, t)
  {
    HopIsNearer(s, t);
    if s == t then [] else [HopTo(s, t).tms] + Path(HopTo(s, t).state, t)
  }

  lemma {:induction false} RunCons(s: Tap, b: bool, rest: seq<bool>)
    ensures Run(s, [b] + rest) == Run(Next(s, b), rest)
  {
    RunConcat(s, [b], rest);
    assert [b][..0] == [];
  }

  lemma {:induction false} PathLeads(s: Tap, t: Tap)
    ensures Run(s, Path(s, t)) == t
    decreases Distance(s, t)
  {
    if s != t {
      HopIsNearer(s, t);
      HopIsMove(s, t);
      RunCons(s, HopTo(s, t).tms, Path(HopTo(s, t).state, t));
      PathLeads(HopTo(s, t).state, t);
    }
  }

  /** No clock brings any state more than one nearer. */
  lemma AtMostOneNearer(s: Tap, t: Tap, b: bool)
    ensures Distance(s, t) <= 1 + Distance(Next(s, b), t)
  {
    if s.Scan? && s.place != Select {
      if Below(t, s.column) {
        NearerByInside(s.column, s.place, t, b);
      } else {
        NearerByOut(s.column, s.place, t, b);
      }
    } else {
      NearerByAbove(s, t, b);
    }
  }

  lemma NearerByAbove(s: Tap, t: Tap, b: bool)
    requires s.Scan? ==> s.place == Select
    ensures Distance(s, t) <= 1 + Distance(Next(s, b), t)
  {
  }

  lemma NearerByInside(c: Column, p: Place, t: Tap, b: bool)
    requires p != Select && Below(t, c)
    ensures Distance(Scan(c, p), t) <= 1 + Distance(Next(Scan(c, p), b), t)
  {
  }

  lemma NearerByOut(c: Column, p: Place, t: Tap, b: bool)
    requires p != Select && !Below(t, c)
    ensures Distance(Scan(c, p), t) <= 1 + Distance(Next(Scan(c, p), b), t)
  {
  }

  /** No other way from s to t is shorter than set_state's. */
  lemma {:induction false} PathIsShortest(s: Tap, t: Tap, tms: seq<bool>)
    requires Run(s, tms) == t
    ensures |Path(s, t)| <= |tms|
    decreases |tms|
  {
    if tms != [] {
      assert tms == [tms[0]] + tms[1..];
      RunCons(s, tms[0], tms[1..]);
      PathIsShortest(Next(s, tms[0]), t, tms[1..]);
      AtMostOneNearer(s, t, tms[0]);
    }
  }

  // ----------------------------------------------------------------- out of step

  predicate Among(t: Tap, c: Column, ps: set<Place>) { t.Scan? && t.column == c && t.place in ps }

  /** Where the controller, left in column c's shift state, trails the driver, who thinks it
      has left it, on the driver's way to t. */
  predicate Trails(u: Tap, s: Tap, t: Tap, c: Column) {
    || (s == Scan(c, Exit1) && u == Scan(c, Shift) && t != Scan(c, Shift))
    || (s == Scan(c, Pause) && u == Scan(c, Shift) && Among(t, c, {Pause, Exit2}))
    || (s == Scan(c, Exit2) && u == Scan(c, Exit1) && t == s)
    || (s == Scan(c, Update) && u == Scan(c, Exit1) && !Among(t, c, {Shift, Pause, Exit1, Exit2}))
    || (s == RunTestIdle && u == Scan(c, Pause) && t == s)
    || (s == Scan(DR, Select) && u == Scan(c, Update) && t != RunTestIdle)
    || (s == Scan(DR, Capture) && u == RunTestIdle && Below(t, DR))
    || (s == Scan(DR, Shift) && u == RunTestIdle && t == s)
    || (s == Scan(DR, Exit1) && u == Scan(DR, Select) && Among(t, DR, {Exit1, Pause, Exit2, Update}))
    || (s == Scan(DR, Pause) && u == Scan(DR, Capture) && Among(t, DR, {Pause, Exit2}))
    || (s == Scan(DR, Exit2) && u == Scan(DR, Exit1) && t == s)
    || (s == Scan(DR, Update) && u == Scan(IR, Select) && t == s)
    || (s == Scan(IR, Select) && u == Scan(DR, Select) && (t == s || t == TestLogicReset || Below(t, IR)))
    || (s == TestLogicReset && u == Scan(IR, Select) && t == s)
    || (Below(s, IR) && u == Scan(DR, s.place) && FurtherDown(s.place, t))
  }

  /** Column IR's states still to be come by on the way down from its capture state. */
  predicate FurtherDown(p: Place, t: Tap) {
    match p
    case Capture => Below(t, IR)
    case Shift => t == Scan(IR, Shift)
    case Exit1 => Among(t, IR, {Exit1, Pause, Exit2, Update})
    case Pause => Among(t, IR, {Pause, Exit2})
    case Exit2 => t == Scan(IR, Exit2)
    case Update => t == Scan(IR, Update)
    case Select => false
  }

  lemma TrailsOn(u: Tap, s: Tap, t: Tap, c: Column)
    requires Trails(u, s, t, c) && s != t
    ensures Trails(Next(u, HopTo(s, t).tms), HopTo(s, t).state, t, c)
  {
  }

  /** A controller left behind in a shift state is never where the driver ends up. */
  lemma {:induction false} NeverCatchesUp(u: Tap, s: Tap, t: Tap, c: Column)
    requires Trails(u, s, t, c)
    ensures Run(u, Path(s, t)) != t
    decreases Distance(s, t)
  {
    if s != t {
      HopIsNearer(s, t);
      TrailsOn(u, s, t, c);
      RunCons(u, HopTo(s, t).tms, Path(HopTo(s, t).state, t));
      NeverCatchesUp(Next(u, HopTo(s, t).tms), HopTo(s, t).state, t, c);
    }
  }

  // -------------------------------------------------------------- reset and shift

  function Repeat(b: bool, n: nat): seq<bool> { seq(n, _ => b) }

  /** Six clocks with TMS high end in reset, from anywhere. */
  lemma {:induction false} ResetFromAnywhere(s: Tap)
    ensures Run(s, Repeat(true, 6)) == TestLogicReset
  {
    var ones := [true, true, true, true, true, true];
    assert Repeat(true, 6) == ones;
    assert ones == [true, true, true] + [true, true, true];
    RunConcat(s, [true, true, true], [true, true, true]);
    ThreeOnes(s);
    ThreeOnes(Run(s, [true, true, true]));
  }

  lemma {:induction false} ThreeOnes(s: Tap)
    ensures Run(s, [true, true, true]) == Next(Next(Next(s, true), true), true)
  {
    RunSnoc(s, [true, true], true);
    RunSnoc(s, [true], true);
    RunSnoc(s, [], true);
    assert [true, true, true] == [true, true] + [true] && [true, true] == [true] + [true] && [true] == [] + [true];
  }

  /** Shifting goes on while TMS is low. */
  lemma {:induction false} ShiftStays(s: Tap, n: nat)
    requires s.Scan? && s.place == Shift
    ensures Run(s, Repeat(false, n)) == s
  {
    if n > 0 {
      ShiftStays(s, n - 1);
      assert Repeat(false, n)[..n - 1] == Repeat(false, n - 1);
    }
  }
}
