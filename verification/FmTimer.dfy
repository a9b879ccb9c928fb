/**
 The two timers of the OPM. A counter of 0 means the timer is off; an elapsed time is
 taken off the counters, and a counter that runs out is refilled until it is positive
 again. Timer A counts 65536ths of a microsecond, timer B 4096ths. Clocks come in tenths
 of a microsecond, and the remainder is carried from one call to the next.
 */
module FmTimer {
  import opened CInt

  const UNIT_A := 65536
  const UNIT_B := 4096

  /** Above this step the largest period of timer A, rounded up to a microsecond, would not fit an int32_t. */
  const MAX_STEP := 0x1f_ffc0

  // ----- one counter

  /** A counter after d units: 0 stays off, a positive one ends in 1..period once it has run out. */
  function Advance(c: int, period: int, d: int): (r: int)
    requires c >= 0 && period > 0 && d >= 0
    ensures (r == 0) == (c == 0) && r >= 0
    ensures r <= Max(c, period)
  {
    if c == 0 then 0 else if c - d > 0 then c - d else (c - d - 1) % period + 1
  }

  predicate Fires(c: int, d: int) { c != 0 && c - d <= 0 }

  /**
   A counter that is on goes down by the time, and when it has run out it has been refilled by
   the fewest periods that make it positive; whole periods leave a counter where it is.
   */
  lemma AdvanceIs(c: int, period: int, d: nat, k: nat)
    requires 0 < c && period > 0
    ensures d < c ==> Advance(c, period, d) == c - d
    ensures d >= c ==> 0 < Advance(c, period, d) <= period && (Advance(c, period, d) - (c - d)) % period == 0
    ensures c <= period ==> Advance(c, period, k * period) == c
  {
    var q, r := (c - d - 1) / period, (c - d - 1) % period;
    assert r + 1 - (c - d) == period * -q + 0 by {
      MulDistributes(period, 0, q);
    }
    DivModUnique(r + 1 - (c - d), period, -q, 0);
    if c <= period && k > 0 {
      MulAtLeast(period, k);
      MulDistributes(period, 0, k);
      DivModUnique(c - k * period - 1, period, -(k as int), c - 1);
    }
  }

  /** Refilling adds whole periods until the counter is positive; that is the remainder. */
  lemma RefillDone(x: int, period: int, k: nat)
    requires period > 0 && 0 < x + k * period <= period
    ensures (x - 1) % period + 1 == x + k * period
  {
    MulDistributes(period, 0, k);
    DivModUnique(x - 1, period, -(k as int), x + k * period - 1);
  }

  lemma ModShift(x: int, d: int, period: int)
    requires period > 0
    ensures (x % period - d) % period == (x - d) % period
  {
    var q, s := x / period, (x % period - d) / period;
    assert period * (q + s) == period * q + period * s;
    DivModUnique(x - d, period, q + s, (x % period - d) % period);
  }

  /** One counter does not notice how the time is cut. */
  lemma AdvanceTwice(c: int, period: int, d: nat, e: nat)
    requires c >= 0 && period > 0
    ensures Advance(Advance(c, period, d), period, e) == Advance(c, period, d + e)
    ensures Fires(c, d) || Fires(Advance(c, period, d), e) <==> Fires(c, d + e)
  {
    if c > 0 && c - d <= 0 {
      ModShift(c - d - 1, e, period);
      var r := Advance(c, period, d);
      if r - e > 0 {
        DivModUnique(r - e - 1, period, 0, r - e - 1);
      }
    }
  }

  // ----- both timers

  /** What stays the same while time passes. */
  datatype Periods = Periods(a: int, b: int, flagA: bool, flagB: bool)
  {
    predicate Valid() { a > 0 && b > 0 }
  }

  /** The counters, the two status bits and the number of interrupts raised so far. */
  datatype Timers = Timers(a: int, b: int, statusA: bool, statusB: bool, interrupts: nat)
  {
    predicate Valid() { a >= 0 && b >= 0 }
  }

  /** A status bit that goes up raises one interrupt; one that is up already raises none. */
  function Raised(up: bool, cause: bool): nat { if cause && !up then 1 else 0 }

  function After(t: Timers, p: Periods, us: nat): (r: Timers)
    requires t.Valid() && p.Valid()
    ensures r.Valid()
  {
    var a, b := p.flagA && Fires(t.a, us * UNIT_A), p.flagB && Fires(t.b, us * UNIT_B);
    Timers(Advance(t.a, p.a, us * UNIT_A), Advance(t.b, p.b, us * UNIT_B), t.statusA || a, t.statusB || b,
           t.interrupts + Raised(t.statusA, a) + Raised(t.statusB, b))
  }

  /** A call: a counter fires when the time, at 65536 or 4096 units to the microsecond, reaches it; a fire
   * raises the status if its flag is set, and an interrupt if the status was down. */
  lemma CallLaw(t: Timers, p: Periods, us: nat)
    requires t.Valid() && p.Valid()
    ensures
      var r, a, b := After(t, p, us), t.a > 0 && 65536 * us >= t.a, t.b > 0 && 4096 * us >= t.b;
      && r.a == Advance(t.a, p.a, 65536 * us) && r.b == Advance(t.b, p.b, 4096 * us)
      && r.statusA == (t.statusA || (a && p.flagA)) && r.statusB == (t.statusB || (b && p.flagB))
      && r.interrupts ==
      t.interrupts + (if r.statusA && !t.statusA then 1 else 0) + (if r.statusB && !t.statusB then 1 else 0)
      && (Event(t, us) <==> a || b)
    ensures t.a == 0 ==> After(t, p, us).a == 0
    ensures t.b == 0 ==> After(t, p, us).b == 0
  {
  }

  predicate Event(t: Timers, us: nat) {
    Fires(t.a, us * UNIT_A) || Fires(t.b, us * UNIT_B)
  }

  lemma AfterTwice(t: Timers, p: Periods, us: nat, more: nat)
    requires t.Valid() && p.Valid()
    ensures After(After(t, p, us), p, more) == After(t, p, us + more)
    ensures Event(t, us) || Event(After(t, p, us), more) <==> Event(t, us + more)
  {
    AdvanceTwice(t.a, p.a, us * UNIT_A, more * UNIT_A);
    AdvanceTwice(t.b, p.b, us * UNIT_B, more * UNIT_B);
    hide Advance;
  }

  function Sum(chunks: seq<nat>): nat {
    if chunks == [] then 0 else chunks[0] + Sum(chunks[1..])
  }

  function Run(t: Timers, p: Periods, chunks: seq<nat>): (r: Timers)
    requires t.Valid() && p.Valid()
    ensures r.Valid()
    decreases |chunks|
  {
    if chunks == [] then t else Run(After(t, p, chunks[0]), p, chunks[1..])
  }

  /** Whether any call of the run reported an event. */
  predicate RunEvent(t: Timers, p: Periods, chunks: seq<nat>)
    requires t.Valid() && p.Valid()
    decreases |chunks|
  {
    chunks != [] && (Event(t, chunks[0]) || RunEvent(After(t, p, chunks[0]), p, chunks[1..]))
  }

  lemma AfterNothing(t: Timers, p: Periods)
    requires t.Valid() && p.Valid()
    ensures After(t, p, 0) == t && !Event(t, 0)
  {
  }

  /** Any way of cutting the time ends in the counters, status, interrupts and events of one call. */
  lemma {:induction false} RunIsOneCall(t: Timers, p: Periods, chunks: seq<nat>)
    requires t.Valid() && p.Valid()
    ensures Run(t, p, chunks) == After(t, p, Sum(chunks))
    ensures RunEvent(t, p, chunks) <==> Event(t, Sum(chunks))
    decreases |chunks|
  {
    if chunks == [] {
      AfterNothing(t, p);
    } else {
      RunIsOneCall(After(t, p, chunks[0]), p, chunks[1..]);
      AfterTwice(t, p, chunks[0], Sum(chunks[1..]));
      hide After, Event;
    }
  }

  // ----- clocks in tenths

  /** The microseconds delivered for some clocks, call by call, and the carry left at the end. */
  function Delivered(carry: nat, clocks: seq<nat>): (r: (seq<nat>, nat))
    ensures |r.0| == |clocks|
    decreases |clocks|
  {
    if clocks == [] then ([], carry)
    else
      var rest := Delivered((carry + clocks[0]) % 10, clocks[1..]);
      ([(carry + clocks[0]) / 10] + rest.0, rest.1)
  }

  /** No clock is lost: ten times what was delivered, and the change of the carry, is what came in. */
  lemma {:induction false} ClocksConserved(carry: nat, clocks: seq<nat>)
    ensures 10 * Sum(Delivered(carry, clocks).0) + Delivered(carry, clocks).1 == carry + Sum(clocks)
    ensures carry < 10 ==> Delivered(carry, clocks).1 < 10
    decreases |clocks|
  {
    if clocks == [] {
    } else {
      var c := (carry + clocks[0]) % 10;
      ClocksConserved(c, clocks[1..]);
      assert Delivered(carry, clocks).0[1..] == Delivered(c, clocks[1..]).0;
    }
  }

  /** Two ways of cutting the same clocks end in the same timers and the same carry. */
  lemma ClockChunks(t: Timers, p: Periods, carry: nat, clocks: seq<nat>, others: seq<nat>)
    requires t.Valid() && p.Valid() && carry < 10 && Sum(clocks) == Sum(others)
    ensures Delivered(carry, clocks).1 == Delivered(carry, others).1
    ensures Run(t, p, Delivered(carry, clocks).0) == Run(t, p, Delivered(carry, others).0)
    ensures RunEvent(t, p, Delivered(carry, clocks).0) == RunEvent(t, p, Delivered(carry, others).0)
  {
    hide Run, RunEvent, Delivered, After, Event, Sum;
    ClocksConserved(carry, clocks);
    ClocksConserved(carry, others);
    RunIsOneCall(t, p, Delivered(carry, clocks).0);
    RunIsOneCall(t, p, Delivered(carry, others).0);
  }

  // ----- the next event

  function Minus1U32(n: nat): nat
    requires n <= 0x1_0000_0000
  {
    (n + 0xffff_ffff) % 0x1_0000_0000
  }

  function NextEvent(t: Timers): nat
    requires 0 <= t.a <= 0x7fff_0000 && 0 <= t.b <= 0x7fff_0000
  {
    var ta, tb := Minus1U32((t.a + 0xffff) / UNIT_A), Minus1U32((t.b + 0xfff) / UNIT_B);
    (Min(ta, tb) + 1) % 0x1_0000_0000
  }

  /** A call reports an event exactly from the answer on, and never when the answer is 0. */
  lemma NextEventExact(t: Timers, us: nat)
    requires 0 <= t.a <= 0x7fff_0000 && 0 <= t.b <= 0x7fff_0000
    ensures NextEvent(t) == 0 <==> t.a == 0 && t.b == 0
    ensures Event(t, us) <==> 0 < NextEvent(t) <= us
  {
    NextOne(t.a, UNIT_A, us);
    NextOne(t.b, UNIT_B, us);
    Minus1(t.a, UNIT_A);
    Minus1(t.b, UNIT_B);
    hide Minus1U32;
    var ta, tb := Minus1U32((t.a + 0xffff) / UNIT_A), Minus1U32((t.b + 0xfff) / UNIT_B);
    if t.a == 0 && t.b == 0 {
      assert Min(ta, tb) + 1 == 0x1_0000_0000;
    }
  }

  lemma Minus1(c: int, k: int)
    requires 0 <= c <= 0x7fff_0000 && (k == UNIT_A || k == UNIT_B)
    ensures
      var n := (c + k - 1) / k;
      0 <= n < 0x10_0000 && Minus1U32(n) == if c == 0 then 0xffff_ffff else n - 1
    ensures c > 0 ==> (c + k - 1) / k > 0
  {
    var n := (c + k - 1) / k;
    if c > 0 {
      DivModUnique(n + 0xffff_ffff, 0x1_0000_0000, 1, n - 1);
    }
  }

  lemma NextOne(c: int, k: int, us: nat)
    requires c >= 0 && (k == UNIT_A || k == UNIT_B)
    ensures Fires(c, us * k) <==> c > 0 && us >= (c + k - 1) / k
  {
  }

  // ----- the unit

  class Timer {
    var statusA: bool
    var statusB: bool
    var interrupts: nat
    var regtc: u8
    var regta: seq<u8>
    var timerA: int
    var countA: int
    var timerB: int
    var countB: int
    const timerStep: nat
    var curCount: nat

    /** A running counter never rests at 0, so a counter is positive exactly when its load bit is set. */
    ghost predicate Valid()
      reads this
    {
      && 0 < timerStep <= MAX_STEP && |regta| == 2
      && 0 < timerA <= 1024 * timerStep && 0 < timerB <= 256 * timerStep
      && 0 <= countA <= 1024 * timerStep && 0 <= countB <= 256 * timerStep
      && (countA > 0 <==> regtc % 2 == 1) && (countB > 0 <==> regtc / 2 % 2 == 1)
      && curCount < 10
    }

    ghost function State(): Timers
      reads this
    {
      Timers(countA, countB, statusA, statusB, interrupts)
    }

    ghost function Setup(): Periods
      reads this
    {
      Periods(timerA, timerB, regtc / 4 % 2 == 1, regtc / 8 % 2 == 1)
    }

    /** The flag bits of the control register: bit 2 for timer A, bit 3 for timer B. */
    lemma FlagBits()
      ensures Setup() == Periods(timerA, timerB, Bit(regtc, 2) == 1, Bit(regtc, 3) == 1)
      ensures State() == Timers(countA, countB, statusA, statusB, interrupts)
    {
    }

    /** OPM::Reset: every register 0, both counters off. */
    constructor (step: nat)
      requires 0 < step <= MAX_STEP
      ensures Valid() && timerStep == step
      ensures State() == Timers(0, 0, false, false, 0) && Setup() == Periods(1024 * step, 256 * step, false, false)
    {
      timerStep, regtc, regta := step, 0, [0, 0];
      timerA, timerB, countA, countB := 1024 * step, 256 * step, 0, 0;
      statusA, statusB, interrupts, curCount := false, false, 0, 0;
    }

    /** A load bit that changes starts its timer from the period or stops it; the reset bits clear the status. */
    method SetTimerControl(data: u8)
      requires Valid()
      modifies `regtc, `statusA, `statusB, `countA, `countB
      ensures Valid() && regtc == data
      ensures statusA == (old(statusA) && data / 16 % 2 == 0) && statusB == (old(statusB) && data / 32 % 2 == 0)
      ensures countA == if data % 2 == old(regtc) % 2 then old(countA) else if data % 2 == 1 then timerA else 0
      ensures
        countB == if data / 2 % 2 == old(regtc) / 2 % 2 then old(countB) else if data / 2 % 2 == 1 then timerB else 0
    {
      var loadA, loadB := regtc % 2 != data % 2, regtc / 2 % 2 != data / 2 % 2;
      regtc := data;
      if data / 16 % 2 == 1 {
        statusA := false;
      }
      if data / 32 % 2 == 1 {
        statusB := false;
      }
      if loadA {
        countA := if data % 2 == 1 then timerA else 0;
      }
      if loadB {
        countB := if data / 2 % 2 == 1 then timerB else 0;
      }
    }

    /** The period of timer A from its ten bits; a counter already running goes on. */
    method SetTimerA(addr: nat, data: u8)
      requires Valid()
      modifies `regta, `timerA
      ensures Valid() && regta == old(regta)[addr % 2 := data]
      ensures timerA == (1024 - (regta[0] as int * 4 + regta[1] as int % 4)) * timerStep
    {
      regta := regta[addr % 2 := data];
      var tmp := regta[0] as int * 4 + regta[1] % 4;
      PeriodRange(1024 - tmp, 1024, timerStep);
      timerA := (1024 - tmp) * timerStep;
    }

    method SetTimerB(data: u8)
      requires Valid()
      modifies `timerB
      ensures Valid() && timerB == (256 - data) * timerStep
    {
      PeriodRange(256 - data as int, 256, timerStep);
      timerB := (256 - data) * timerStep;
    }

    /** Some microseconds pass; no more than an int32_t of timer A can hold while it runs. */
    method Count(us: nat) returns (event: bool)
      requires Valid() && (countA > 0 ==> us < 32768) && (countB > 0 ==> us < 524288)
      modifies `countA, `countB, `statusA, `statusB, `interrupts
      ensures Valid()
      ensures State() == After(old(State()), Setup(), us)
      ensures event == Event(old(State()), us)
    {
      hide Advance;
      var a := CountA(us);
      var b := CountB(us);
      event := a || b;
    }

    method CountA(us: nat) returns (event: bool)
      requires Valid() && (countA > 0 ==> us < 32768)
      modifies `countA, `statusA, `interrupts
      ensures Valid()
      ensures event == Fires(old(countA), us * UNIT_A) && countA == Advance(old(countA), timerA, us * UNIT_A)
      ensures statusA == (old(statusA) || (event && regtc / 4 % 2 == 1))
      ensures interrupts == old(interrupts) + Raised(old(statusA), event && regtc / 4 % 2 == 1)
    {
      event := false;
      if countA != 0 {
        countA := countA - us * UNIT_A;
        if countA <= 0 {
          event := true;
          countA := Refill(countA, timerA);
          if regtc / 4 % 2 == 1 {
            SetStatusA();
          }
        }
      }
    }

    method CountB(us: nat) returns (event: bool)
      requires Valid() && (countB > 0 ==> us < 524288)
      modifies `countB, `statusB, `interrupts
      ensures Valid()
      ensures event == Fires(old(countB), us * UNIT_B) && countB == Advance(old(countB), timerB, us * UNIT_B)
      ensures statusB == (old(statusB) || (event && regtc / 8 % 2 == 1))
      ensures interrupts == old(interrupts) + Raised(old(statusB), event && regtc / 8 % 2 == 1)
    {
      event := false;
      if countB != 0 {
        countB := countB - us * UNIT_B;
        if countB <= 0 {
          event := true;
          countB := Refill(countB, timerB);
          if regtc / 8 % 2 == 1 {
            SetStatusB();
          }
        }
      }
    }

    method SetStatusA()
      modifies `statusA, `interrupts
      ensures statusA && interrupts == old(interrupts) + Raised(old(statusA), true)
    {
      if !statusA {
        statusA, interrupts := true, interrupts + 1;
      }
    }

    method SetStatusB()
      modifies `statusB, `interrupts
      ensures statusB && interrupts == old(interrupts) + Raised(old(statusB), true)
    {
      if !statusB {
        statusB, interrupts := true, interrupts + 1;
      }
    }

    /** Clocks at ten to the microsecond. */
    method Count2(clock: nat)
      requires Valid() && curCount + clock < 0x1_0000_0000
      requires (countA > 0 ==> (curCount + clock) / 10 < 32768) && (countB > 0 ==> (curCount + clock) / 10 < 524288)
      modifies `curCount, `countA, `countB, `statusA, `statusB, `interrupts
      ensures Valid()
      ensures (Run(old(State()), Setup(), Delivered(old(curCount), [clock]).0), curCount) ==
              (State(), Delivered(old(curCount), [clock]).1)
    {
      curCount := curCount + clock;
      var us := curCount / 10;
      curCount := curCount % 10;
      ghost var before := State();
      var _ := Count(us);
      OneClock(before, Setup(), old(curCount), clock);
    }

    method GetNextEvent() returns (n: nat)
      requires Valid()
      ensures n == 0 <==> countA == 0 && countB == 0
      ensures forall us: nat :: Event(State(), us) <==> 0 < n <= us
    {
      hide Event, Minus1U32;
      var ta, tb := Minus1U32((countA + 0xffff) / UNIT_A), Minus1U32((countB + 0xfff) / UNIT_B);
      n := ((if ta < tb then ta else tb) + 1) % 0x1_0000_0000;
      forall us: nat
        ensures Event(State(), us) <==> 0 < n <= us
      {
        NextEventExact(State(), us);
      }
      NextEventExact(State(), 0);
    }
  }

  /** Add the period until the counter is positive. */
  method Refill(start: int, period: int) returns (c: int)
    requires period > 0 && start <= 0
    ensures c == (start - 1) % period + 1
  {
    c := start;
    ghost var k := 0;
    while c <= 0
      invariant k >= 0 && c == start + k * period && c <= period
    {
      MulAdds(period, k, 1);
      c := c + period;
      k := k + 1;
    }
    RefillDone(start, period, k);
  }

  lemma PeriodRange(n: int, most: int, step: nat)
    requires 0 < n <= most && step > 0
    ensures 0 < n * step <= most * step
  {
  }

  lemma OneClock(t: Timers, p: Periods, carry: nat, clock: nat)
    requires t.Valid() && p.Valid()
    ensures
      var d := Delivered(carry, [clock]);
      d == ([(carry + clock) / 10], (carry + clock) % 10) && Run(t, p, d.0) == After(t, p, (carry + clock) / 10)
  {
    var us := (carry + clock) / 10;
    assert [clock][1..] == [] && [us][1..] == [];
    var rest := Delivered((carry + clock) % 10, []);
    assert rest == ([], (carry + clock) % 10) && [us] + rest.0 == [us];
    assert [clock][0] == clock && Delivered(carry, [clock]) == ([us] + rest.0, rest.1);
    assert Run(t, p, [us]) == Run(After(t, p, us), p, []);
  }
}
