/**
 The envelope of the PSG. Its counter has 6 bits of position above 24 bits of fraction;
 running over the top either starts again or stays in the second half of the shape. When
 no channel listens to the envelope the counter is only brought up to date at the end of
 a call, in one sum of coarser units.
 */
module Psg {
  import opened CInt

  const TOP: nat := 0x4000_0000
  const HALF: nat := 0x2000_0000
  const POSITION: nat := 0x100_0000
  const COARSE_TOP: nat := 0x40_0000
  const COARSE_HALF: nat := 0x20_0000
  const WORD_LIMIT: nat := 0x1_0000_0000

  /** Above this period one step could leave 32 bits. */
  const MAX_PERIOD: nat := 0xc000_0000

  // ----- the counter

  /** Where an unbounded count lands: in the first 64 positions, then round and round or in the second 32 for good. */
  function Fold(v: nat, hold: bool): (r: nat)
    ensures r < TOP
  {
    if v < TOP then v else if hold then HALF + v % HALF else v % TOP
  }

  /** One step of the oversampling loop. */
  function Step(e: nat, period: nat, hold: bool): (r: nat)
    ensures r < TOP
  {
    Fold(e + period, hold)
  }

  function Steps(e: nat, period: nat, hold: bool, n: nat): (r: nat)
    requires e < TOP
    ensures r < TOP
  {
    if n == 0 then e else Step(Steps(e, period, hold, n - 1), period, hold)
  }

  /** A congruent number below m is the remainder. */
  lemma SameRemainder(x: int, y: int, m: int, q: int)
    requires m > 0 && x == y + m * q
    ensures x % m == y % m
  {
    MulAdds(m, y / m, q);
    DivModUnique(x, m, y / m + q, y % m);
  }

  /** Folding early does not change where a count lands. */
  lemma FoldAdd(v: nat, d: nat, hold: bool)
    ensures Fold(Fold(v, hold) + d, hold) == Fold(v + d, hold)
  {
    if v >= TOP {
      var w := Fold(v, hold);
      if hold {
        var q := v / HALF - 1;
        assert v == w + HALF * q;
        SameRemainder(v + d, w + d, HALF, q);
        if w + d < TOP {
          DivModUnique(w + d, HALF, 1, w + d - HALF);
        }
      } else {
        SameRemainder(v + d, w + d, TOP, v / TOP);
        if w + d < TOP {
          DivModUnique(w + d, TOP, 0, w + d);
        }
      }
    }
  }

  /** Any number of steps is one fold of the unbounded count. */
  lemma {:induction false} StepsIsFold(e: nat, period: nat, hold: bool, n: nat)
    requires e < TOP
    ensures Steps(e, period, hold, n) == Fold(e + n * period, hold)
  {
    if n == 0 {
    } else {
      StepsIsFold(e, period, hold, n - 1);
      MulAdds(period, n - 1, 1);
      FoldAdd(e + (n - 1) * period, period, hold);
      hide Fold;
    }
  }

  // ----- the catch-up

  /** The count in units of 256 after n samples, before it is cut to 32 bits. */
  function Coarse(e: nat, period: nat, n: nat): nat { e / 256 + period / 64 * n }

  lemma WholeUnits(y: nat)
    ensures y * 256 % 256 == 0 && (y < COARSE_TOP ==> y * 256 < TOP)
  {
    DivModUnique(y * 256, 256, y, 0);
  }

  /** The one sum that replaces the steps of n samples, in a uint32_t. */
  function CatchUp(e: nat, period: nat, hold: bool, n: nat): (r: nat)
    ensures r < TOP && r % 256 == 0
  {
    var x := Coarse(e, period, n) % WORD_LIMIT;
    var y := if x < COARSE_TOP then x else if hold then COARSE_HALF + x % COARSE_HALF else x % COARSE_TOP;
    WholeUnits(y);
    y * 256
  }

  /** The sum left 32 bits and came back too low to be seen as being past the top. */
  predicate Forgets(e: nat, period: nat, n: nat) {
    Coarse(e, period, n) >= WORD_LIMIT && Coarse(e, period, n) % WORD_LIMIT < COARSE_HALF
  }

  lemma CoarseRemainder(x: nat, m: nat)
    requires m > 0
    ensures 256 * x % (256 * m) == 256 * (x % m)
  {
    var q, r := x / m, x % m;
    assert 256 * x == 256 * m * q + 256 * r;
    DivModUnique(256 * x, 256 * m, q, 256 * r);
  }

  lemma WordRemainder(x: nat)
    ensures x % WORD_LIMIT % COARSE_HALF == x % COARSE_HALF && x % WORD_LIMIT % COARSE_TOP == x % COARSE_TOP
  {
    var q, r := x / WORD_LIMIT, x % WORD_LIMIT;
    SameRemainder(x, r, COARSE_HALF, q * 2048);
    SameRemainder(x, r, COARSE_TOP, q * 1024);
  }

  /** The sum lands where its count would, except for a shape that stays when the sum forgets. */
  lemma CatchUpIsFold(e: nat, period: nat, hold: bool, n: nat)
    ensures CatchUp(e, period, hold, n) == Fold(256 * Coarse(e, period, n), hold) <==> !(hold && Forgets(e, period, n))
  {
    var c := Coarse(e, period, n);
    hide Coarse;
    var x := c % WORD_LIMIT;
    WordRemainder(c);
    CoarseRemainder(c, COARSE_HALF);
    CoarseRemainder(c, COARSE_TOP);
    if c < WORD_LIMIT {
      DivModUnique(c, WORD_LIMIT, 0, c);
    } else if x < COARSE_TOP {
      DivModUnique(x, COARSE_TOP, 0, x);
      if x < COARSE_HALF {
        DivModUnique(x, COARSE_HALF, 0, x);
      } else {
        DivModUnique(x, COARSE_HALF, 1, x - COARSE_HALF);
      }
    }
  }

  /** The coarse count never runs ahead, and lags by less than a unit and less than a quarter unit per step. */
  lemma LagBounded(e: nat, period: nat, n: nat)
    ensures 256 * Coarse(e, period, n) <= e + 4 * n * period <= 256 * Coarse(e, period, n) + 255 + 252 * n
    ensures e % 256 == 0 && period % 64 == 0 ==> 256 * Coarse(e, period, n) == e + 4 * n * period
  {
    LagSum(period / 64, period % 64, n);
    assert e == 256 * (e / 256) + e % 256 && period == 64 * (period / 64) + period % 64;
  }

  lemma LagSum(p: nat, r: nat, n: nat)
    requires r < 64
    ensures 4 * n * (64 * p + r) == 256 * (p * n) + 4 * (n * r) && n * r <= 63 * n
    ensures r == 0 ==> n * r == 0
  {
    MulAdds(4 * n, 64 * p, r);
    MulNonNegative(n, 63 - r);
    assert 4 * n * (64 * p) == 256 * (p * n) && 4 * n * r == 4 * (n * r) && n * (63 - r) == 63 * n - n * r;
  }

  /** On whole units the catch-up is exactly the four steps of each sample it replaces, whatever the number of turns. */
  lemma CatchUpIsSteps(e: nat, period: nat, hold: bool, n: nat)
    requires e < TOP && e % 256 == 0 && period % 64 == 0
    ensures CatchUp(e, period, hold, n) == Steps(e, period, hold, 4 * n) <==> !(hold && Forgets(e, period, n))
  {
    LagBounded(e, period, n);
    StepsIsFold(e, period, hold, 4 * n);
    CatchUpIsFold(e, period, hold, n);
    hide CatchUp, Steps, Fold, Forgets, Coarse;
  }

  /** 4096 samples at period 0x4000000: the sum comes back as 0, and the shape that should stay in
   * its second half is at its start. */
  lemma SumForgets()
    ensures Forgets(0, 0x400_0000, 4096)
    ensures CatchUp(0, 0x400_0000, true, 4096) == 0 && Steps(0, 0x400_0000, true, 4 * 4096) == HALF
    ensures Strayed(0, false, 0x400_0000, true, [Unheard(4096)])
  {
    hide Steps;
    assert Coarse(0, 0x400_0000, 4096) == WORD_LIMIT;
    assert [Unheard(4096)][1..] == [];
    StepsIsFold(0, 0x400_0000, true, 4 * 4096);
    DivModUnique(4 * 4096 * 0x400_0000, HALF, 2048, 0);
  }

  // ----- a run of calls

  /** Four steps to a sample. */
  function Ticks(n: nat, period: nat): nat { 4 * n * period }

  /** A call with the envelope heard, one without, or one with nothing to sound at all. */
  datatype Call = Heard(n: nat) | Unheard(n: nat) | Idle

  function AfterCall(e: nat, period: nat, hold: bool, c: Call): (r: nat)
    requires e < TOP
    ensures r < TOP
  {
    match c
    case Heard(n) => Steps(e, period, hold, 4 * n)
    case Unheard(n) => CatchUp(e, period, hold, n)
    case Idle => e
  }

  function AfterCalls(e: nat, period: nat, hold: bool, calls: seq<Call>): (r: nat)
    requires e < TOP
    ensures r < TOP
    decreases |calls|
  {
    if calls == [] then e else AfterCalls(AfterCall(e, period, hold, calls[0]), period, hold, calls[1..])
  }

  function Samples(calls: seq<Call>): nat
    decreases |calls|
  {
    if calls == [] then 0 else SamplesOf(calls[0]) + Samples(calls[1..])
  }

  /** A number of samples for which the coarse sum stays in 32 bits from any counter. */
  predicate Short(period: nat, n: nat) { COARSE_TOP + period / 64 * n < WORD_LIMIT }

  /** What a catch-up drops: the low bits of the count and those of the period, once for each of its steps. */
  function Dropped(v: nat, period: nat, n: nat): (lag: nat)
    ensures lag <= 255 + 252 * n
    ensures v % 256 == 0 && period % 64 == 0 ==> lag == 0
  {
    MulNonNegative(n, 63 - period % 64);
    assert n * (63 - period % 64) == 63 * n - n * (period % 64);
    v % 256 + 4 * (n * (period % 64))
  }

  /** The unbounded count after a call. */
  function CountAfter(v: nat, period: nat, c: Call): nat {
    match c
    case Heard(n) => v + Ticks(n, period)
    case Unheard(n) => 256 * Coarse(v, period, n)
    case Idle => v
  }

  function SamplesOf(c: Call): nat { if c.Idle? then 0 else c.n }

  function DroppedBy(v: nat, period: nat, c: Call): nat { if c.Unheard? then Dropped(v, period, c.n) else 0 }

  lemma CountAfterIs(v: nat, period: nat, c: Call)
    ensures CountAfter(v, period, c) + DroppedBy(v, period, c) == v + Ticks(SamplesOf(c), period)
    ensures v % 256 == 0 && period % 64 == 0 ==> CountAfter(v, period, c) % 256 == 0
  {
    match c {
      case Heard(n) =>
        FourWhole(n, period);
        hide Ticks;
        if v % 256 == 0 && period % 64 == 0 {
          var a, b := v / 256, Ticks(n, period) / 256;
          DivModUnique(v + Ticks(n, period), 256, a + b, 0);
        }
      case Unheard(n) =>
        UnheardIs(v, period, n);
        DivModUnique(256 * Coarse(v, period, n), 256, Coarse(v, period, n), 0);
      case Idle =>
    }
  }

  lemma UnheardIs(v: nat, period: nat, n: nat)
    ensures 256 * Coarse(v, period, n) + Dropped(v, period, n) == v + Ticks(n, period)
  {
    var p, r := period / 64, period % 64;
    assert v == 256 * (v / 256) + v % 256 && period == 64 * p + r;
    LagSum(p, r, n);
  }

  /** How far a run of calls falls behind stepping all the time. */
  function Lag(v: nat, period: nat, calls: seq<Call>): (lag: nat)
    decreases |calls|
  {
    if calls == [] then 0
    else DroppedBy(v, period, calls[0]) + Lag(CountAfter(v, period, calls[0]), period, calls[1..])
  }

  /** The most it can fall behind. */
  function LagMost(calls: seq<Call>): nat
    decreases |calls|
  {
    if calls == [] then 0 else (if calls[0].Unheard? then 255 + 252 * calls[0].n else 0) + LagMost(calls[1..])
  }

  /** The lag is bounded by the unheard calls alone, and there is none on whole units. */
  lemma {:induction false} LagRange(v: nat, period: nat, calls: seq<Call>)
    ensures Lag(v, period, calls) <= LagMost(calls) && Lag(v, period, calls) <= v + Ticks(Samples(calls), period)
    ensures v % 256 == 0 && period % 64 == 0 ==> Lag(v, period, calls) == 0
    decreases |calls|
  {
    hide Ticks, Dropped, CountAfter, SamplesOf;
    if calls == [] {
      NoTicks(period);
    } else {
      var c := calls[0];
      CountAfterIs(v, period, c);
      LagRange(CountAfter(v, period, c), period, calls[1..]);
      TicksAdd(SamplesOf(c), Samples(calls[1..]), period);
    }
  }

  /**
   Whether after a call a shape that stays is back in its first half, although it should be in
   its second: a sum that forgets puts it there, and it is over when it gets to the second half.
   */
  predicate Strays(e: nat, lost: bool, period: nat, hold: bool, c: Call) {
    hold &&
    match c
    case Heard(n) => lost && e + Ticks(n, period) < HALF
    case Unheard(n) => Forgets(e, period, n) || (lost && 256 * Coarse(e, period, n) < HALF)
    case Idle => lost
  }

  /** The same after a run of calls. */
  predicate Strayed(e: nat, lost: bool, period: nat, hold: bool, calls: seq<Call>)
    requires e < TOP
    decreases |calls|
  {
    if calls == [] then lost
    else
      Strayed(AfterCall(e, period, hold, calls[0]), Strays(e, lost, period, hold, calls[0]), period, hold, calls[1..])
  }

  /** Only a shape that stays strays, and only in a call that is not short. */
  lemma {:induction false} NotStrayed(e: nat, period: nat, hold: bool, calls: seq<Call>)
    requires e < TOP
    requires hold ==> forall i :: 0 <= i < |calls| && calls[i].Unheard? ==> Short(period, calls[i].n)
    ensures !Strayed(e, false, period, hold, calls)
    decreases |calls|
  {
    hide AfterCall;
    if calls == [] {
    } else {
      assert hold && calls[0].Unheard? ==> Short(period, calls[0].n);
      NotStrayed(AfterCall(e, period, hold, calls[0]), period, hold, calls[1..]);
    }
  }

  /** The counter of an unbounded count, or half a turn before it when a sum has forgotten. */
  predicate Stands(v: nat, e: nat, lost: bool, hold: bool) {
    e < TOP && (lost ==> hold && e < HALF) && Fold(v, hold) == e + if lost then HALF else 0
  }

  lemma {:induction false} CallsStand(v: nat, e: nat, lost: bool, period: nat, hold: bool, calls: seq<Call>)
    requires Stands(v, e, lost, hold)
    ensures Lag(v, period, calls) <= v + Ticks(Samples(calls), period)
    ensures
      Stands(v + Ticks(Samples(calls), period) - Lag(v, period, calls),
             AfterCalls(e, period, hold, calls), Strayed(e, lost, period, hold, calls), hold)
    decreases |calls|
  {
    hide Fold, AfterCall, Ticks, DroppedBy, CountAfter, SamplesOf, Strays;
    LagRange(v, period, calls);
    if calls == [] {
      NoTicks(period);
    } else {
      var c, rest := calls[0], calls[1..];
      OneCall(v, e, lost, period, hold, c);
      CountAfterIs(v, period, c);
      CallsStand(CountAfter(v, period, c), AfterCall(e, period, hold, c), Strays(e, lost, period, hold, c),
                 period, hold, rest);
      TicksAdd(SamplesOf(c), Samples(rest), period);
    }
  }

  /**
   Whatever the calls, the counter is where stepping all the time would have left it, less what
   unheard calls drop; unless it strayed, and then it is half a turn before that.
   */
  lemma CallsAreSteps(v: nat, period: nat, hold: bool, calls: seq<Call>)
    ensures Lag(v, period, calls) <= v + Ticks(Samples(calls), period)
    ensures
      var e := Fold(v, hold);
      var r, strayed := AfterCalls(e, period, hold, calls), Strayed(e, false, period, hold, calls);
      var w := Fold(v + Ticks(Samples(calls), period) - Lag(v, period, calls), hold);
      (r == w <==> !strayed) && (r == w - HALF <==> strayed)
  {
    hide Fold, AfterCalls, Strayed, Ticks, Samples, Lag;
    CallsStand(v, Fold(v, hold), false, period, hold, calls);
  }

  /**
   On whole units nothing is dropped: heard, unheard or idle, calls leave the counter where
   stepping would if and only if it has not strayed.
   */
  lemma WholeCallsAreSteps(e: nat, period: nat, hold: bool, calls: seq<Call>)
    requires e < TOP && e % 256 == 0 && period % 64 == 0
    ensures
      AfterCalls(e, period, hold, calls) == Fold(e + Ticks(Samples(calls), period), hold) <==>
      !Strayed(e, false, period, hold, calls)
  {
    hide AfterCalls, Lag, Ticks, Samples, Strayed;
    CallsAreSteps(e, period, hold, calls);
    LagRange(e, period, calls);
  }

  /** One sample unheard at period 63 leaves the counter at 0, where four steps are 252. */
  lemma OddPeriodLags(hold: bool)
    ensures AfterCalls(0, 63, hold, [Unheard(1)]) == 0 && Steps(0, 63, hold, 4) == 252
  {
    assert [Unheard(1)][1..] == [];
    assert AfterCall(0, 63, hold, Unheard(1)) == 0;
    StepsIsFold(0, 63, hold, 4);
  }

  lemma TicksAdd(n: nat, m: nat, period: nat)
    ensures Ticks(n + m, period) == Ticks(n, period) + Ticks(m, period)
  {
  }

  lemma NoTicks(period: nat)
    ensures Ticks(0, period) == 0
  {
  }

  lemma FourWhole(n: nat, period: nat)
    ensures period % 64 == 0 ==> Ticks(n, period) % 256 == 0
  {
    if period % 64 == 0 {
      var q := n * (period / 64);
      assert 4 * n * (64 * (period / 64)) == 256 * q;
      DivModUnique(256 * q, 256, q, 0);
    }
  }

  /** A folded count and the count itself have the same low bits, and folding commutes with dropping them. */
  lemma FoldFloor(v: nat, hold: bool)
    ensures Fold(v, hold) % 256 == v % 256 && Fold(v, hold) - v % 256 == Fold(v - v % 256, hold)
  {
    var q, r := v / 256, v % 256;
    assert v == 256 * q + r && (v >= TOP <==> q >= COARSE_TOP);
    if v < TOP {
    } else {
      var m: nat := if hold then COARSE_HALF else COARSE_TOP;
      var b := q % m;
      CoarseLow(q, r, m);
      DivModUnique(256 * (COARSE_HALF + b) + r, 256, COARSE_HALF + b, r);
      assert Fold(v, hold) == if hold then HALF + (256 * b + r) else 256 * b + r;
      assert Fold(256 * q, hold) == if hold then HALF + 256 * b else 256 * b;
    }
  }

  lemma CoarseLow(q: nat, r: nat, m: nat)
    requires m > 0 && r < 256
    ensures (256 * q + r) % (256 * m) == 256 * (q % m) + r && 256 * q % (256 * m) == 256 * (q % m)
    ensures (256 * (q % m) + r) % 256 == r
  {
    var a, b := q / m, q % m;
    assert q == m * a + b && 256 * q == 256 * m * a + 256 * b;
    DivModUnique(256 * q + r, 256 * m, a, 256 * b + r);
    DivModUnique(256 * q, 256 * m, a, 256 * b);
    DivModUnique(256 * b + r, 256, b, r);
  }

  /** One call brings a counter that stands for a count to one that stands for the count after it. */
  lemma OneCall(v: nat, e: nat, lost: bool, period: nat, hold: bool, c: Call)
    requires Stands(v, e, lost, hold)
    ensures Stands(CountAfter(v, period, c), AfterCall(e, period, hold, c), Strays(e, lost, period, hold, c), hold)
  {
    hide Fold, Steps, CatchUp, Forgets, Coarse;
    match c {
      case Heard(n) =>
        StepsIsFold(e, period, hold, 4 * n);
        FoldAdd(v, Ticks(n, period), hold);
        HalfOn(e, Ticks(n, period), lost, hold);
      case Unheard(n) =>
        UnheardFold(v, e, lost, period, hold, n);
        if hold && Forgets(e, period, n) {
          Forgotten(e, period, n, lost);
        } else {
          CatchUpIsFold(e, period, hold, n);
        }
        HalfOn(0, 256 * Coarse(e, period, n), lost, hold);
      case Idle =>
    }
  }

  /** A counter half a turn behind is right again as soon as it has got to the second half. */
  lemma HalfOn(e: nat, d: nat, lost: bool, hold: bool)
    requires lost ==> hold && e < HALF
    ensures
      Fold(e + (if lost then HALF else 0) + d, hold) ==
      Fold(e + d, hold) + if lost && e + d < HALF then HALF else 0
  {
    if lost {
      var x := e + d;
      if x < HALF {
      } else if x < TOP {
        DivModUnique(x, HALF, 1, x - HALF);
        DivModUnique(x + HALF, HALF, 2, x - HALF);
      } else {
        SameRemainder(x + HALF, x, HALF, 1);
      }
    }
  }

  /** Where an unheard call should bring the counter, from where it stands. */
  lemma UnheardFold(v: nat, e: nat, lost: bool, period: nat, hold: bool, n: nat)
    requires Stands(v, e, lost, hold)
    ensures
      Fold(CountAfter(v, period, Unheard(n)), hold) ==
      Fold(256 * Coarse(e, period, n) + if lost then HALF else 0, hold)
  {
    hide Fold;
    var q, late: nat := period / 64 * n, if lost then HALF else 0;
    FoldFloor(v, hold);
    FoldAdd(v - v % 256, 256 * q, hold);
    LagSum(period / 64, period % 64, n);
    var low := v % 256;
    assert v - low + 256 * q == CountAfter(v, period, Unheard(n));
    SameLow(e, late);
    assert e == 256 * (e / 256) + e % 256;
  }

  lemma SameLow(e: nat, late: nat)
    requires late % 256 == 0
    ensures (e + late) % 256 == e % 256
  {
    SameRemainder(e + late, e, 256, late / 256);
  }

  /** What a sum that forgets leaves is half a turn short. */
  lemma Forgotten(e: nat, period: nat, n: nat, lost: bool)
    requires Forgets(e, period, n)
    ensures CatchUp(e, period, true, n) < HALF
    ensures
      Fold(256 * Coarse(e, period, n) + if lost then HALF else 0, true) == CatchUp(e, period, true, n) + HALF
  {
    var c := Coarse(e, period, n);
    hide Coarse;
    WordRemainder(c);
    CoarseRemainder(c, COARSE_HALF);
    DivModUnique(c % WORD_LIMIT, COARSE_HALF, 0, c % WORD_LIMIT);
    SameRemainder(256 * c + HALF, 256 * c, HALF, 1);
  }

  // ----- the shapes

  /** Continue, attack, alternate, hold: bits 3 to 0 of the shape. */
  predicate Continues(shape: nat) { shape / 8 % 2 == 1 }
  predicate Attacks(shape: nat) { shape / 4 % 2 == 1 }
  predicate Alternates(shape: nat) { shape / 2 % 2 == 1 }
  predicate Holds(shape: nat) { shape % 2 == 1 }

  /** The level of the AY-3-8910 envelope at an unbounded position, 32 positions to a cycle. */
  function AyLevel(shape: nat, position: nat): (v: nat)
    ensures v < 32
  {
    var cycle, at := position / 32, position % 32;
    if cycle > 0 && !Continues(shape) then 0
    else if cycle > 0 && Holds(shape) then (if Attacks(shape) != Alternates(shape) then 31 else 0)
    else if Attacks(shape) != (Alternates(shape) && cycle % 2 == 1) then at
    else 31 - at
  }

  /** The test of the overflow branch: every shape but the two that swing stays in its second half. */
  predicate Stays(shape: nat) {
    !(shape % 2 == 0 && shape / 2 % 2 == 1 && shape / 8 % 2 == 1)
  }

  const TABLE1: seq<nat> := [
    2, 0, 2, 0, 2, 0, 2, 0, 1, 0, 1, 0, 1, 0, 1, 0,
    2, 2, 2, 0, 2, 1, 2, 3, 1, 1, 1, 3, 1, 2, 1, 0]
  const TABLE2: seq<u8> := [0, 0, 31, 31]
  const TABLE3: seq<u8> := [0, 1, 0xff, 0]

  /** Low, up, down or high. */
  function HalfLevel(kind: nat, at: nat): (v: nat)
    requires kind < 4 && at < 32
    ensures v < 32
  {
    if kind == 0 then 0 else if kind == 1 then at else if kind == 2 then 31 - at else 31
  }

  function Kind(shape: nat, second: bool): (k: nat)
    requires shape < 16
    ensures k < 4
  {
    TABLE1[if second then 2 * shape + 1 else 2 * shape]
  }

  lemma KindIs(shape: nat)
    requires shape < 16
    ensures Kind(shape, false) == if Attacks(shape) then 1 else 2
    ensures
      Kind(shape, true) ==
      if !Continues(shape) then 0
      else if Holds(shape) then (if Attacks(shape) != Alternates(shape) then 3 else 0)
      else if Attacks(shape) != Alternates(shape) then 1 else 2
  {
    if shape < 8 {
      if shape < 4 {
        assert shape == 0 || shape == 1 || shape == 2 || shape == 3;
      } else {
        assert shape == 4 || shape == 5 || shape == 6 || shape == 7;
      }
    } else if shape < 12 {
      assert shape == 8 || shape == 9 || shape == 10 || shape == 11;
    } else {
      assert shape == 12 || shape == 13 || shape == 14 || shape == 15;
    }
  }

  /** The two halves of every row are the first two cycles of its shape. */
  lemma RowIsAy(shape: nat, at: nat, second: bool)
    requires shape < 16 && at < 32
    ensures HalfLevel(Kind(shape, second), at) == AyLevel(shape, if second then 32 + at else at)
  {
    KindIs(shape);
    hide Kind, Continues, Holds, Attacks, Alternates;
    DivModUnique(32 + at, 32, 1, at);
    DivModUnique(at, 32, 0, at);
  }

  /** Position in the row for an unbounded position. */
  function RowPosition(position: nat, hold: bool): (r: nat)
    ensures r < 64
  {
    if position < 64 then position else if hold then 32 + position % 32 else position % 64
  }

  lemma FoldPosition(v: nat, hold: bool)
    ensures Fold(v, hold) / POSITION == RowPosition(v / POSITION, hold)
  {
    var p, f := v / POSITION, v % POSITION;
    assert v == POSITION * p + f;
    if v >= TOP {
      DivModUnique(v, HALF, p / 32, POSITION * (p % 32) + f);
      DivModUnique(v, TOP, p / 64, POSITION * (p % 64) + f);
      DivModUnique(POSITION * (p % 64) + f, POSITION, p % 64, f);
      DivModUnique(HALF + POSITION * (p % 32) + f, POSITION, 32 + p % 32, f);
    }
  }

  /** Two cycles on, a shape that swings is where it was; one cycle on, every other shape is, once
   * in its second cycle. */
  lemma AyRepeats(shape: nat, position: nat)
    requires shape < 16
    ensures AyLevel(shape, RowPosition(position, Stays(shape))) == AyLevel(shape, position)
  {
    if position >= 64 {
      var cycle, at := position / 32, position % 32;
      if Stays(shape) {
        DivModUnique(32 + at, 32, 1, at);
      } else {
        DivModUnique(position, 64, cycle / 2, 32 * (cycle % 2) + at);
        DivModUnique(32 * (cycle % 2) + at, 32, cycle % 2, at);
      }
    }
  }

  function RowLevel(shape: nat, position: nat): (v: nat)
    requires shape < 16 && position < 64
    ensures v < 32
  {
    HalfLevel(Kind(shape, position >= 32), position % 32)
  }

  /** The level after n steps from a counter, as the AY envelope has it at the unbounded count. */
  function LevelAfter(shape: nat, e: nat, period: nat, n: nat): (v: nat)
    ensures v < 32
  {
    AyLevel(shape, (e + n * period) / POSITION)
  }

  /** Reading the table by the counter, however often it has been folded, gives the AY envelope. */
  lemma CounterReadsAy(shape: nat, e: nat, period: nat, n: nat)
    requires shape < 16 && e < TOP
    ensures Steps(e, period, Stays(shape), n) / POSITION < 64
    ensures RowLevel(shape, Steps(e, period, Stays(shape), n) / POSITION) == LevelAfter(shape, e, period, n)
  {
    StepsIsFold(e, period, Stays(shape), n);
    FoldReadsAy(shape, e + n * period);
    hide Steps, Fold, AyLevel, RowLevel;
  }

  lemma FoldReadsAy(shape: nat, v: nat)
    requires shape < 16
    ensures Fold(v, Stays(shape)) / POSITION < 64
    ensures RowLevel(shape, Fold(v, Stays(shape)) / POSITION) == AyLevel(shape, v / POSITION)
  {
    hide Fold, AyLevel, Kind, HalfLevel, Stays, RowPosition;
    FoldPosition(v, Stays(shape));
    AyRepeats(shape, v / POSITION);
    var r := RowPosition(v / POSITION, Stays(shape));
    assert r == if r >= 32 then 32 + r % 32 else r % 32;
    RowIsAy(shape, r % 32, r >= 32);
  }

  /**
   From a write of the shape on, a heard call goes on with the AY envelope where the calls
   before it, heard or not, have brought it: at the time stepped so far, less the lag of the
   unheard ones, of which there is none on whole units. A counter that strayed is half a turn late.
   */
  lemma EnvelopeUnbroken(shape: nat, period: nat, calls: seq<Call>, k: nat)
    requires shape < 16
    ensures Lag(0, period, calls) <= Ticks(Samples(calls), period) && Lag(0, period, calls) <= LagMost(calls)
    ensures period % 64 == 0 ==> Lag(0, period, calls) == 0
    ensures
      var late: nat := if Strayed(0, false, period, Stays(shape), calls) then HALF else 0;
      LevelAfter(shape, AfterCalls(0, period, Stays(shape), calls) + late, period, k) ==
      AyLevel(shape, (Ticks(Samples(calls), period) - Lag(0, period, calls) + k * period) / POSITION)
  {
    hide AfterCalls, Fold, AyLevel, RowLevel, Samples, Ticks, Lag, LagMost, Strayed;
    FoldZero(Stays(shape));
    LagRange(0, period, calls);
    CallsAreSteps(0, period, Stays(shape), calls);
    FoldedLevel(shape, Ticks(Samples(calls), period) - Lag(0, period, calls), k * period);
  }

  lemma FoldZero(hold: bool)
    ensures Fold(0, hold) == 0
  {
  }

  lemma FoldedLevel(shape: nat, v: nat, d: nat)
    requires shape < 16
    ensures AyLevel(shape, (Fold(v, Stays(shape)) + d) / POSITION) == AyLevel(shape, (v + d) / POSITION)
  {
    hide Fold, AyLevel, RowLevel;
    FoldAdd(v, d, Stays(shape));
    FoldReadsAy(shape, v + d);
    FoldReadsAy(shape, Fold(v, Stays(shape)) + d);
  }

  // ----- the shapes and the counter by their numbers

  /** Of each shape the first cycle, every odd one and every even one behind the first: down, up, low or high. */
  const SHAPES: seq<string> := [
    "d00", "d00", "d00", "d00", "u00", "u00", "u00", "u00", "ddd", "d00", "dud", "d11", "uuu", "u11", "udu", "u00"]

  lemma ShapeTable(shape: nat, cycle: nat, at: nat)
    requires shape < 16 && at < 32
    ensures
      var c := SHAPES[shape][if cycle == 0 then 0 else if cycle % 2 == 1 then 1 else 2];
      AyLevel(shape, 32 * cycle + at) ==
      if c == 'd' then 31 - at else if c == 'u' then at else if c == '1' then 31 else 0
  {
    DivModUnique(32 * cycle + at, 32, cycle, at);
    if shape < 8 {
      ShapeBits(shape, shape % 4);
    } else {
      ShapeBits(shape, shape % 8);
    }
    hide Continues, Attacks, Alternates, Holds;
  }

  /** The four bits of every shape. */
  lemma ShapeBits(shape: nat, low: nat)
    requires shape < 16 && low == if shape < 8 then shape % 4 else shape % 8
    ensures Continues(shape) <==> shape >= 8
    ensures Attacks(shape) <==> shape in {4, 5, 6, 7, 12, 13, 14, 15}
    ensures Alternates(shape) <==> shape in {2, 3, 6, 7, 10, 11, 14, 15}
    ensures Holds(shape) <==> shape in {1, 3, 5, 7, 9, 11, 13, 15}
    ensures Stays(shape) <==> shape != 10 && shape != 14
  {
  }

  /**
   The counter has 30 bits, six of them a position. Past the top the two swinging shapes drop
   what is above; the others keep the low 29 bits and stay above half.
   */
  lemma FoldIs(v: nat, hold: bool)
    ensures v < 0x4000_0000 ==> Fold(v, hold) == v
    ensures v >= 0x4000_0000 ==> Fold(v, false) == v % 0x4000_0000 && Fold(v, true) == 0x2000_0000 + v % 0x2000_0000
  {
  }

  /** Every step adds the period, and a level is that of the position 24 bits up. */
  lemma LevelIs(shape: nat, e: nat, period: nat, n: nat)
    requires e < 0x4000_0000
    ensures Steps(e, period, Stays(shape), n + 1) == Fold(Steps(e, period, Stays(shape), n) + period, Stays(shape))
    ensures LevelAfter(shape, e, period, n) == AyLevel(shape, (e + n * period) / 0x100_0000)
  {
  }

  /**
   A sum of n samples is counted in 256ths, four steps of the period to a sample. It forgets when
   it has left 32 bits and come back below half of its 22-bit top.
   */
  lemma ForgetsIs(e: nat, period: nat, n: nat)
    ensures
      var sum := e / 256 + period / 64 * n;
      && Coarse(e, period, n) == sum
      && (Forgets(e, period, n) <==> sum >= 0x1_0000_0000 && sum % 0x1_0000_0000 < 0x20_0000)
  {
  }

  // ----- the unit

  class Unit {
    const table: array<int>
    const emit: seq<int>
    const reg: array<u8>
    var ecount: nat
    var eperiod: nat
    var eperiodBase: nat
    var envelop: nat
    var mask: u8

    ghost predicate Valid()
      reads this, table, reg
    {
      && table.Length == 1024 && |emit| == 32 && reg.Length == 16
      && Tabled(table[..], emit)
      && ecount < TOP && eperiod <= MAX_PERIOD && eperiodBase <= MAX_PERIOD / 2
      && envelop == 64 * (reg[13] as int % 16)
    }

    /** PSG::Reset for a table of levels. */
    constructor (emit: seq<int>, base: nat)
      requires |emit| == 32 && base <= MAX_PERIOD / 2
      ensures Valid() && ecount == 0 && eperiod == base * 2 && fresh(table) && fresh(reg)
    {
      this.emit := emit;
      reg := new u8[16](i => if i == 7 || i >= 14 then 0xff else 0);
      var t := MakeEnvelopTable(emit);
      table := t;
      ecount, eperiodBase, eperiod, envelop, mask := 0, base, base * 2, 0, 0x3f;
    }

    /** The shape register restarts the counter, the period registers set the step; tone and noise are left out. */
    method SetReg(regnum: nat, data: u8)
      requires Valid()
      modifies reg, `ecount, `eperiod, `envelop
      ensures Valid()
      ensures reg[..] == if regnum < 16 then old(reg[..])[regnum := data] else old(reg[..])
      ensures ecount == if regnum == 13 then 0 else old(ecount)
      ensures eperiod ==
        if regnum != 11 && regnum != 12 then old(eperiod)
        else if Word(reg[12], reg[11]) == 0 then eperiodBase * 2 else eperiodBase / Word(reg[12], reg[11])
    {
      if regnum < 16 {
        reg[regnum] := data;
        if regnum == 11 || regnum == 12 {
          var tmp := reg[11] as int + reg[12] as int * 256;
          QuotientSmall(eperiodBase, tmp);
          eperiod := if tmp != 0 then eperiodBase / tmp else eperiodBase * 2;
        } else if regnum == 13 {
          ecount, envelop := 0, 64 * (data as int % 16);
        }
      }
    }

    predicate Sounds()
      reads this, reg
      requires reg.Length == 16
    {
      reg[7] % 64 != 63 || reg[8] % 32 != 0 || reg[9] % 32 != 0 || reg[10] % 32 != 0
    }

    /** Some channel takes its level from the envelope. */
    predicate Listens()
      reads this, reg
      requires reg.Length == 16
    {
      || (mask % 2 == 1 && reg[8] / 16 % 2 == 1)
      || (mask / 2 % 2 == 1 && reg[9] / 16 % 2 == 1)
      || (mask / 4 % 2 == 1 && reg[10] / 16 % 2 == 1)
    }

    /** Sounding: a tone or noise bit of register 7 is 0, or a level bit of a channel is 1.
     * Listening: an unmasked channel has bit 4 set. */
    lemma ChannelBits()
      requires reg.Length == 16
      ensures
        Sounds() <==>
        || (exists i :: 0 <= i < 6 && Bit(reg[7], i) == 0)
        || (exists c, i :: 8 <= c < 11 && 0 <= i < 5 && Bit(reg[c], i) == 1)
      ensures Listens() <==> exists c :: 0 <= c < 3 && Bit(mask, c) == 1 && Bit(reg[8 + c], 4) == 1
    {
      AllOnes(reg[7]);
      AnyOne(reg[8]);
      AnyOne(reg[9]);
      AnyOne(reg[10]);
      if Listens() {
        var c := if mask % 2 == 1 && reg[8] / 16 % 2 == 1 then 0
                 else if mask / 2 % 2 == 1 && reg[9] / 16 % 2 == 1 then 1 else 2;
        assert Bit(mask, c) == 1 && Bit(reg[8 + c], 4) == 1;
      }
    }

    /** The envelope levels of a call, four to a sample, and the counter it leaves. */
    method Mix(nsamples: nat) returns (envs: seq<int>)
      requires Valid()
      modifies `ecount
      ensures Valid()
      ensures
        var shape: nat := reg[13] % 16;
        && ecount == AfterCall(old(ecount), eperiod, Stays(shape),
                               if !Sounds() then Idle else if Listens() then Heard(nsamples) else Unheard(nsamples))
        && |envs| == (if Sounds() && Listens() then 4 * nsamples else 0)
        && forall k :: 0 <= k < |envs| ==> envs[k] == emit[LevelAfter(shape, old(ecount), eperiod, k)]
    {
      envs := [];
      if Sounds() {
        var shape: nat := reg[13] % 16;
        if !Listens() {
          ecount := (ecount / 256 + eperiod / 64 * nsamples) % WORD_LIMIT;
          if ecount >= COARSE_TOP {
            ecount := if Stays(shape) then COARSE_HALF + ecount % COARSE_HALF else ecount % COARSE_TOP;
          }
          ecount := ecount * 256;
        } else {
          envs := Hear(nsamples, shape);
        }
      }
    }

    method Hear(nsamples: nat, shape: nat) returns (envs: seq<int>)
      requires table.Length == 1024 && |emit| == 32 && Tabled(table[..], emit) && ecount < TOP && eperiod <= MAX_PERIOD
      requires shape < 16 && envelop == 64 * shape
      modifies `ecount
      ensures ecount == Steps(old(ecount), eperiod, Stays(shape), 4 * nsamples) && |envs| == 4 * nsamples
      ensures forall k :: 0 <= k < |envs| ==> envs[k] == emit[LevelAfter(shape, old(ecount), eperiod, k)]
    {
      hide LevelAfter, Fold, Stays, Tabled, RowLevel;
      envs := [];
      for i := 0 to nsamples
        invariant |envs| == 4 * i
        invariant ecount == Steps(old(ecount), eperiod, Stays(shape), |envs|)
        invariant forall k :: 0 <= k < |envs| ==> envs[k] == emit[LevelAfter(shape, old(ecount), eperiod, k)]
      {
        for j := 0 to 4
          invariant |envs| == 4 * i + j
          invariant ecount == Steps(old(ecount), eperiod, Stays(shape), |envs|)
          invariant forall k :: 0 <= k < |envs| ==> envs[k] == emit[LevelAfter(shape, old(ecount), eperiod, k)]
        {
          CounterReadsAy(shape, old(ecount), eperiod, |envs|);
          Lookup(table[..], emit, shape, ecount / POSITION);
          envs := envs + [table[envelop + ecount / POSITION]];
          ecount := NextCount(ecount, eperiod, shape);
        }
      }
    }
  }

  /** The step as the loop takes it: past the top, the low 30 bits, with bit 29 set when the shape stays. */
  method NextCount(e: nat, period: nat, shape: nat) returns (r: nat)
    requires e < TOP && period <= MAX_PERIOD
    ensures r == Step(e, period, Stays(shape)) && e + period < WORD_LIMIT
  {
    r := e + period;
    if r >= TOP {
      r := r % TOP;
      if Stays(shape) && r < HALF {
        r := r + HALF;
      }
      BitSet(e + period);
    }
  }

  lemma BitSet(v: nat)
    ensures HALF + v % HALF == if v % TOP < HALF then v % TOP + HALF else v % TOP
  {
    var q, r := v / TOP, v % TOP;
    if r < HALF {
      DivModUnique(v, HALF, 2 * q, r);
    } else {
      DivModUnique(v, HALF, 2 * q + 1, r - HALF);
    }
  }

  lemma AllOnes(b: u8)
    ensures b % 64 != 63 <==> exists i :: 0 <= i < 6 && Bit(b, i) == 0
  {
    BitsOfByte(b);
    var s := ToBits(b);
    DivModUnique(b, 64, s[6] + 2 * s[7], s[0] + 2 * s[1] + 4 * s[2] + 8 * s[3] + 16 * s[4] + 32 * s[5]);
    assert forall i :: 0 <= i < 8 ==> s[i] == Bit(b, i);
    hide Bit;
    if b % 64 != 63 {
      assert exists i :: 0 <= i < 6 && s[i] == 0;
    }
  }

  lemma AnyOne(b: u8)
    ensures b % 32 != 0 <==> exists i :: 0 <= i < 5 && Bit(b, i) == 1
  {
    BitsOfByte(b);
    var s := ToBits(b);
    DivModUnique(b, 32, s[5] + 2 * s[6] + 4 * s[7], s[0] + 2 * s[1] + 4 * s[2] + 8 * s[3] + 16 * s[4]);
    assert forall i :: 0 <= i < 8 ==> s[i] == Bit(b, i);
    hide Bit;
    if b % 32 != 0 {
      assert exists i :: 0 <= i < 5 && s[i] == 1;
    }
  }

  lemma QuotientSmall(a: nat, b: nat)
    ensures b > 0 ==> 0 <= a / b <= a
  {
    if b > 0 && a / b > a {
      MulAtLeast(a / b, b);
    }
  }

  // ----- the table

  function LevelAt(k: nat): (v: nat)
    requires k < 1024
    ensures v < 32
  {
    HalfLevel(TABLE1[k / 32], k % 32)
  }

  ghost predicate Tabled(table: seq<int>, emit: seq<int>) {
    |table| == 1024 && |emit| == 32 && forall k :: 0 <= k < 1024 ==> table[k] == emit[LevelAt(k)]
  }

  lemma Lookup(table: seq<int>, emit: seq<int>, shape: nat, position: nat)
    requires Tabled(table, emit) && shape < 16 && position < 64
    ensures table[64 * shape + position] == emit[RowLevel(shape, position)]
  {
    var i := if position >= 32 then 2 * shape + 1 else 2 * shape;
    DivModUnique(64 * shape + position, 32, i, position % 32);
  }

  /** Thirty-two ramps in a row; the running level, a byte, is used only while it is below 32. */
  method MakeEnvelopTable(emit: seq<int>) returns (table: array<int>)
    requires |emit| == 32
    ensures fresh(table) && Tabled(table[..], emit)
  {
    table := new int[1024];
    hide LevelAt;
    var i := 0;
    while i < 32
      invariant 0 <= i <= 32
      invariant forall k :: 0 <= k < 32 * i ==> table[k] == emit[LevelAt(k)]
    {
      Ramp(table, emit, i);
      i := i + 1;
    }
  }

  method Ramp(table: array<int>, emit: seq<int>, i: nat)
    requires table.Length == 1024 && |emit| == 32 && i < 32
    modifies table
    ensures forall k :: 0 <= k < 32 * i ==> table[k] == old(table[k])
    ensures forall k :: 32 * i <= k < 32 * (i + 1) ==> table[k] == emit[LevelAt(k)]
  {
    var kind := TABLE1[i];
    var v: u8 := TABLE2[kind];
    var j := 0;
    while j < 32
      invariant 0 <= j <= 32 && (j < 32 ==> v == HalfLevel(kind, j))
      invariant forall k :: 0 <= k < 32 * i ==> table[k] == old(table[k])
      invariant forall k :: 32 * i <= k < 32 * i + j ==> table[k] == emit[LevelAt(k)]
    {
      DivModUnique(32 * i + j, 32, i, j);
      table[32 * i + j] := emit[v];
      v := NextLevel(kind, v, j);
      j := j + 1;
    }
  }

  /** Adding the ramp's byte steps the level, except that a falling ramp leaves 0 for 255 after its last use. */
  function NextLevel(kind: nat, v: u8, j: nat): (r: u8)
    requires kind < 4 && j < 32 && v == HalfLevel(kind, j)
    ensures j < 31 ==> r == HalfLevel(kind, j + 1)
  {
    (v as int + TABLE3[kind]) % 256
  }
}
