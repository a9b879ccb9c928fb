/**
 The envelope generator of one FM operator on the OPM path (no SSG envelopes): the phase
 machine with its fall-through, the parameter registers that may change between any two
 samples, and what no run of them can break.
 */
module Envelope {
  import opened CInt

  const EG_BOTTOM := 955
  const LEVEL_END := 0x400

  datatype Phase = Attack | Decay | Sustain | Release | Off

  /** The parameters register writes set: rates, levels, key scale, note, detune, total level and its latch. */
  datatype Regs = Regs(
    ar: nat, dr: nat, sr: nat, sl: nat, rr: nat, ks: nat, bn: nat, detune: nat, tl: nat, tlLatch: nat, mute: bool)

  datatype Env = Env(
    phase: Phase, level: int, nextLevel: int, rate: nat, curve: nat, out: int, tlOut: nat, ksr: nat,
    keyOn: bool, changed: bool, regs: Regs)

  /** decaytable1: rows 8 to 47 repeat four patterns of 0 and 1, the rows above double every four. */
  function DecayStep(rate: nat, i: nat): (step: nat)
    requires rate < 64 && i < 8
    ensures step <= 16
    ensures rate >= 2 && i % 2 == 0 ==> step >= 1
  {
    if rate < 2 then 0
    else if rate < 6 then 1
    else if rate < 8 then (if i == 3 || i == 7 then 0 else 1)
    else if rate < 48 then (if Fuller(rate % 4, i) || i % 2 == 0 then 1 else 0)
    else if rate < 52 then (if Fuller2(rate % 4, i) then 2 else 1)
    else if rate < 56 then (if Fuller2(rate % 4, i) then 4 else 2)
    else if rate < 60 then (if Fuller2(rate % 4, i) then 8 else 4)
    else 16
  }

  /** The odd positions filled in the slow rows. */
  predicate Fuller(r: nat, i: nat) { (r >= 1 && i == 1) || (r >= 2 && i == 5) || (r == 3 && i == 3) }

  /** The positions with the doubled step in the fast rows. */
  predicate Fuller2(r: nat, i: nat) {
    (r >= 1 && (i == 0 || i == 4)) || (r >= 2 && (i == 2 || i == 6)) || (r == 3 && (i == 1 || i == 5))
  }

  /** attacktable: the shift that belongs to a decay step; -1 where the decay stands still. */
  function AttackShift(step: nat): int {
    if step == 0 then -1
    else if step == 1 then 4 else if step == 2 then 3 else if step == 4 then 2 else if step == 8 then 1 else 0
  }

  /** `level >> shift` for the shifts in use. */
  function Shr(level: int, shift: nat): int {
    if shift == 0 then level else if shift == 1 then level / 2 else if shift == 2 then level / 4
    else if shift == 3 then level / 8 else level / 16
  }

  /** `x ? Min(63, x + ksr) : 0` */
  function RateOf(x: nat, ksr: nat): nat { if x == 0 then 0 else Min(63, x + ksr) }

  function OutOf(tlOut: nat, level: int): int { Min(tlOut + level, 0x3ff) * 8 }

  function Updated(e: Env): Env { e.(out := OutOf(e.tlOut, e.level)) }

  // ----- the phase machine

  function EnterOff(e: Env): Env {
    Updated(e.(level := EG_BOTTOM, nextLevel := EG_BOTTOM)).(rate := 0, phase := Off)
  }

  function EnterSustain(e: Env): Env {
    e.(level := e.regs.sl * 8, nextLevel := LEVEL_END, rate := RateOf(e.regs.sr, e.ksr), phase := Sustain)
  }

  function EnterDecay(e: Env): Env {
    if e.regs.sl != 0 then e.(level := 0, nextLevel := e.regs.sl * 8, rate := RateOf(e.regs.dr, e.ksr), phase := Decay)
    else EnterSustain(e)
  }

  function EnterAttack(e: Env): Env {
    var f := e.(regs := e.regs.(tl := e.regs.tlLatch));
    if f.regs.ar + f.ksr < 62 then f.(rate := RateOf(f.regs.ar, f.ksr), phase := Attack) else EnterDecay(f)
  }

  function EnterRelease(e: Env): Env {
    if e.phase == Attack || e.level < EG_BOTTOM
    then e.(nextLevel := LEVEL_END, rate := Min(63, e.regs.rr + e.ksr), phase := Release)
    else EnterOff(e)
  }

  function KeyOn(e: Env): Env {
    if e.keyOn then e
    else if e.phase == Off || e.phase == Release then Updated(EnterAttack(e.(keyOn := true)))
    else e.(keyOn := true)
  }

  function KeyOff(e: Env): Env {
    if e.keyOn then EnterRelease(e.(keyOn := false)) else e
  }

  /** One envelope step. */
  function EgCalc(e: Env): Env
    requires e.rate < 64
  {
    var step := DecayStep(e.rate, e.curve % 8);
    var f :=
      if e.phase == Attack then
        var c := AttackShift(step);
        if c < 0 then e
        else
          var g := e.(level := e.level - (1 + Shr(e.level, c)));
          if g.level <= 0 then EnterDecay(g) else g
      else
        var g := e.(level := e.level + step);
        if g.level < g.nextLevel then g
        else match g.phase
          case Decay => EnterSustain(g)
          case Sustain => EnterRelease(g)
          case _ => EnterOff(g);
    Updated(f).(curve := f.curve + 1)
  }

  /** `bn >> (3 - ks)` */
  function KeyScale(r: Regs): nat
    requires r.ks <= 3
  {
    if r.ks == 0 then r.bn / 8 else if r.ks == 1 then r.bn / 4 else if r.ks == 2 then r.bn / 2 else r.bn
  }

  /** Takes over changed parameters before a block of samples. */
  function Prepare(e: Env): Env
    requires e.regs.ks <= 3
  {
    if !e.changed then e
    else
      var ksr := KeyScale(e.regs);
      var f := e.(changed := false, ksr := ksr, tlOut := if e.regs.mute then 0x3ff else e.regs.tl * 8);
      var g := match f.phase
        case Attack => f.(rate := RateOf(f.regs.ar, f.ksr))
        case Decay => f.(rate := RateOf(f.regs.dr, f.ksr), nextLevel := f.regs.sl * 8)
        case Sustain => f.(rate := RateOf(f.regs.sr, f.ksr))
        case Release => f.(rate := Min(63, f.regs.rr + f.ksr))
        case Off => f;
      Updated(g)
  }

  // ----- register writes, with the ranges the OPM gives them

  /** sltable: steps of 4 up to 56, then 124. */
  function SustainLevel(n: nat): nat { if n == 15 then 124 else n * 4 }

  datatype Op =
    | KeyOnOp | KeyOffOp | PrepareOp | EgCalcOp
    | DtMulOp(data: u8) | TlOp(data: u8, csm: bool) | KsArOp(data: u8) | DrAmonOp(data: u8)
    | SrDt2Op(data: u8) | SlRrOp(data: u8)
    | KeyCodeOp(kc: u8) | MuteOp(mute: bool)

  function Apply(e: Env, op: Op): Env
    requires e.rate < 64 && e.regs.ks <= 3
  {
    match op
    case KeyOnOp => KeyOn(e)
    case KeyOffOp => KeyOff(e)
    case PrepareOp => Prepare(e)
    case EgCalcOp => EgCalc(e)
    case DtMulOp(data) => e.(regs := e.regs.(detune := data / 0x10 % 8 * 0x20), changed := true)
    case TlOp(data, csm) =>
      var r := e.regs.(tlLatch := data % 0x80);
      if csm then e.(regs := r) else e.(regs := r.(tl := data % 0x80), changed := true)
    case KsArOp(data) => e.(regs := e.regs.(ks := data / 0x40, ar := data % 0x20 * 2), changed := true)
    case DrAmonOp(data) => e.(regs := e.regs.(dr := data % 0x20 * 2), changed := true)
    case SrDt2Op(data) => e.(regs := e.regs.(sr := data % 0x20 * 2), changed := true)
    case SlRrOp(data) =>
      e.(regs := e.regs.(sl := SustainLevel(data / 0x10), rr := data % 0x10 * 4 + 2), changed := true)
    case KeyCodeOp(kc) => e.(regs := e.regs.(bn := kc / 4 % 32), changed := true)
    case MuteOp(mute) => e.(regs := e.regs.(mute := mute), changed := true)
  }

  // ----- the invariant

  /** Parameters in the ranges of their registers. */
  predicate InRange(e: Env) {
    && e.regs.ar <= 62 && e.regs.dr <= 62 && e.regs.sr <= 62 && e.regs.sl <= 124 && 2 <= e.regs.rr <= 62
    && e.regs.ar % 2 == 0 && e.regs.dr % 2 == 0 && e.regs.sr % 2 == 0
    && e.regs.ks <= 3 && e.ksr <= 31 && e.regs.bn <= 31 && e.regs.detune <= 0xe0
    && e.regs.tl <= 127 && e.regs.tlLatch <= 127 && e.tlOut <= 0x3ff
  }

  /** What each phase implies; `rate` and `detune + bn` index the tables. */
  predicate Sound(e: Env) {
    && 0 <= e.level <= 0x3ff && e.rate <= 63
    && (e.phase == Sustain || e.phase == Release ==> e.nextLevel == LEVEL_END)
    && (e.phase == Decay ==> e.nextLevel <= 992)
    && (e.phase == Release ==> e.rate >= 2)
    && (e.phase == Off ==> e.level == EG_BOTTOM && e.nextLevel == EG_BOTTOM && e.rate == 0)
    && (!e.keyOn ==> e.phase == Release || e.phase == Off)
  }

  predicate Inv(e: Env) { InRange(e) && Sound(e) && e.out == OutOf(e.tlOut, e.level) }

  lemma KeyKeepsInv(e: Env)
    requires Inv(e)
    ensures Inv(KeyOn(e)) && Inv(KeyOff(e))
    ensures e.phase == Off ==> KeyOff(e).phase == Off
  {
  }

  lemma PrepareKeepsInv(e: Env)
    requires Inv(e)
    ensures Inv(Prepare(e)) && (Prepare(e).phase == Off <==> e.phase == Off)
  {
  }

  lemma EgCalcKeepsInv(e: Env)
    requires Inv(e)
    ensures Inv(EgCalc(e)) && (e.phase == Off ==> EgCalc(e).phase == Off)
  {
    var step := DecayStep(e.rate, e.curve % 8);
    hide DecayStep, Shr, AttackShift;
    if e.phase == Attack && AttackShift(step) >= 0 {
      AttackFalls(e.level, AttackShift(step));
    }
  }

  lemma ApplyKeepsInv(e: Env, op: Op)
    requires Inv(e)
    ensures Inv(Apply(e, op))
    ensures e.phase == Off && op != KeyOnOp ==> Apply(e, op).phase == Off
  {
    if op == EgCalcOp {
      EgCalcKeepsInv(e);
    } else if op == KeyOnOp || op == KeyOffOp {
      KeyKeepsInv(e);
    } else if op == PrepareOp {
      PrepareKeepsInv(e);
    } else {
      hide KeyOn, KeyOff, EgCalc, Prepare;
    }
  }

  lemma AttackFalls(level: int, shift: int)
    requires 0 <= level && shift >= 0
    ensures Shr(level, shift) >= 0 && level - (1 + Shr(level, shift)) < level
  {
  }

  function Run(e: Env, ops: seq<Op>): (f: Env)
    requires Inv(e)
    ensures Inv(f)
    decreases |ops|
  {
    if ops == [] then e
    else
      ApplyKeepsInv(e, ops[0]);
      Run(Apply(e, ops[0]), ops[1..])
  }

  /** Over any interleaving of samples, key events and register writes. */
  lemma {:induction false} RunKeepsInv(e: Env, ops: seq<Op>)
    requires Inv(e)
    ensures
      var f := Run(e, ops);
      && 0 <= f.level <= 0x3ff
      && f.out == Min(f.tlOut + f.level, 0x3ff) * 8
      && f.rate <= 63 && f.rate / 4 < 16 && f.regs.detune + f.regs.bn < 256
      && (!f.keyOn ==> f.phase == Release || f.phase == Off)
      && (f.phase == Off ==> f.level == EG_BOTTOM)
      && (e.phase == Off && KeyOnOp !in ops ==> f.phase == Off)
      && Inv(f)
    decreases |ops|
  {
    if ops == [] {
    } else {
      ApplyKeepsInv(e, ops[0]);
      RunKeepsInv(Apply(e, ops[0]), ops[1..]);
    }
  }

  // ----- the course of a note

  predicate Follows(p: Phase, q: Phase) {
    match p
    case Attack => q == Attack || q == Decay || q == Sustain
    case Decay => q == Decay || q == Sustain
    case Sustain => q == Sustain || q == Off
    case Release => q == Release || q == Off
    case Off => q == Off
  }

  /**
   Samples alone take the phases in this order only: a held note whose sustain runs out goes
   off without a release. The attack falls to level 0, the sustain begins at its own level,
   and between changes of phase everything behind the attack only gets quieter.
   */
  lemma EgCalcCourse(e: Env)
    requires Inv(e)
    ensures
      var f := EgCalc(e);
      && Follows(e.phase, f.phase)
      && (e.phase == Attack && f.phase != Attack ==> f.level == 0)
      && (e.phase == Attack && f.phase == Attack ==> f.level == e.level || 0 < f.level < e.level)
      && (e.phase == Attack && f.phase == Decay ==> f.nextLevel == e.regs.sl * 8 > 0)
      && (f.phase == Sustain && e.phase != Sustain ==> f.level == e.regs.sl * 8)
      && (e.phase != Attack && f.phase == e.phase ==> e.level <= f.level <= e.level + 16)
      && (e.phase in {Sustain, Release} && f.phase == Off ==> e.level + 16 >= LEVEL_END)
  {
    hide InRange;
    var step := DecayStep(e.rate, e.curve % 8);
    hide DecayStep, AttackShift;
    if e.phase == Attack && AttackShift(step) >= 0 {
      AttackFalls(e.level, AttackShift(step));
    }
  }

  function Calcs(e: Env, n: nat): (f: Env)
    requires Inv(e)
    ensures Inv(f)
  {
    if n == 0 then e
    else
      var f := Calcs(e, n - 1);
      EgCalcKeepsInv(f);
      EgCalc(f)
  }

  /** Steps an attack can still take when every second one moves it. */
  function AttackLeft(e: Env): int { 2 * e.level + Odd(e.curve) }

  function Odd(n: nat): (r: nat)
    ensures r < 2
  {
    n % 2
  }

  /** Every second step moves, from rate 2 on; below, none does. */
  lemma StepMoves(rate: nat, curve: nat)
    requires rate < 64
    ensures Odd(curve + 1) == 1 - Odd(curve)
    ensures rate >= 2 && Odd(curve) == 0 ==> DecayStep(rate, curve % 8) >= 1
    ensures rate < 2 ==> DecayStep(rate, curve % 8) == 0
  {
    assert curve % 8 % 2 == curve % 2;
    StandsStill(rate, curve % 8);
    hide DecayStep;
  }

  lemma AttackStep(e: Env)
    requires Inv(e) && e.phase == Attack
    ensures e.rate < 2 ==> EgCalc(e) == e.(curve := e.curve + 1)
    ensures
      var f := EgCalc(e);
      e.rate >= 2 && f.phase == Attack ==> AttackLeft(f) < AttackLeft(e) && f.rate == e.rate
  {
    hide DecayStep, EnterRelease, EnterOff, InRange, Odd;
    StepMoves(e.rate, e.curve);
    var step := DecayStep(e.rate, e.curve % 8);
    if AttackShift(step) >= 0 {
      AttackFalls(e.level, AttackShift(step));
    }
  }

  lemma StandsStill(rate: nat, i: nat)
    requires rate < 64 && i < 8
    ensures rate < 2 ==> DecayStep(rate, i) == 0
  {
  }

  lemma {:induction false} AttackGoesOn(e: Env, n: nat)
    requires Inv(e) && e.phase == Attack
    requires forall k: nat :: k <= n ==> Calcs(e, k).phase == Attack
    ensures e.rate >= 2 ==> AttackLeft(Calcs(e, n)) + n <= AttackLeft(e) && Calcs(e, n).rate == e.rate
  {
    if n == 0 {
    } else {
      AttackGoesOn(e, n - 1);
      AttackStep(Calcs(e, n - 1));
    }
  }

  lemma {:induction false} AttackStands(e: Env, n: nat)
    requires Inv(e) && e.phase == Attack && e.rate < 2
    ensures Calcs(e, n).phase == Attack && Calcs(e, n).level == e.level && Calcs(e, n).rate == e.rate
  {
    if n == 0 {
    } else {
      AttackStands(e, n - 1);
      AttackStep(Calcs(e, n - 1));
    }
  }

  /** An attack ends if and only if its rate is 2 or more. */
  lemma AttackEndsIff(e: Env)
    requires Inv(e) && e.phase == Attack
    ensures (exists n: nat :: Calcs(e, n).phase != Attack) <==> e.rate >= 2
  {
    hide EgCalc, Inv;
    if e.rate < 2 {
      forall n: nat
        ensures Calcs(e, n).phase == Attack
      {
        AttackStands(e, n);
      }
    } else {
      var n := AttackEnds(e);
      assert Calcs(e, n).phase != Attack;
    }
  }

  lemma AttackEnds(e: Env) returns (n: nat)
    requires Inv(e) && e.phase == Attack && e.rate >= 2
    ensures Calcs(e, n).phase != Attack
  {
    hide EgCalc, Inv;
    LevelNatural(e);
    var most := AttackLeft(e) + 1;
    n := 0;
    while n < most && Calcs(e, n).phase == Attack
      invariant n <= most && forall k: nat :: k < n ==> Calcs(e, k).phase == Attack
    {
      n := n + 1;
    }
    if Calcs(e, n).phase == Attack {
      AttackGoesOn(e, n);
      LevelNatural(Calcs(e, n));
      assert false;
    }
  }

  lemma LevelNatural(e: Env)
    requires Inv(e)
    ensures AttackLeft(e) >= 0
  {
  }

  /** A key-on sounds at once: it starts the attack from where the release has got to, or, at the
   * fastest rates, is at level 0 already. */
  lemma KeyOnStarts(e: Env)
    requires Inv(e) && !e.keyOn
    ensures
      var f := KeyOn(e);
      && f.keyOn && f.regs.tl == e.regs.tlLatch
      && if e.regs.ar + e.ksr < 62 then f.phase == Attack && f.level == e.level
         else f.level == 0 && f.phase == if e.regs.sl == 0 then Sustain else Decay
  {
  }

  /** An attack that a key-on begins ends if and only if the attack rate register is not 0. */
  lemma AttackEndsByRegister(e: Env)
    requires Inv(e) && !e.keyOn && e.regs.ar + e.ksr < 62
    ensures Inv(KeyOn(e)) && KeyOn(e).phase == Attack
    ensures KeyOn(e).rate == if e.regs.ar == 0 then 0 else e.regs.ar + e.ksr
    ensures (exists n: nat :: Calcs(KeyOn(e), n).phase != Attack) <==> e.regs.ar != 0
  {
    hide Calcs;
    KeyKeepsInv(e);
    AttackEndsIff(KeyOn(e));
  }

  // ----- what the phases are driven by

  const SLOW_ROWS: seq<seq<nat>> :=
    [[1, 0, 1, 0, 1, 0, 1, 0], [1, 1, 1, 0, 1, 0, 1, 0], [1, 1, 1, 0, 1, 1, 1, 0], [1, 1, 1, 1, 1, 1, 1, 0]]

  const FAST_ROWS: seq<seq<nat>> :=
    [[1, 1, 1, 1, 1, 1, 1, 1], [2, 1, 1, 1, 2, 1, 1, 1], [2, 1, 2, 1, 2, 1, 2, 1], [2, 2, 2, 1, 2, 2, 2, 1]]

  /** The steps of the decay table, row by row. */
  lemma StepTable(rate: nat, i: nat)
    requires rate < 64 && i < 8
    ensures rate < 2 ==> DecayStep(rate, i) == 0
    ensures 2 <= rate < 6 ==> DecayStep(rate, i) == 1
    ensures 6 <= rate < 8 ==> DecayStep(rate, i) == SLOW_ROWS[2][i]
    ensures 8 <= rate < 48 ==> DecayStep(rate, i) == SLOW_ROWS[rate % 4][i]
    ensures 48 <= rate < 52 ==> DecayStep(rate, i) == FAST_ROWS[rate % 4][i]
    ensures 52 <= rate < 56 ==> DecayStep(rate, i) == 2 * FAST_ROWS[rate % 4][i]
    ensures 56 <= rate < 60 ==> DecayStep(rate, i) == 4 * FAST_ROWS[rate % 4][i]
    ensures rate >= 60 ==> DecayStep(rate, i) == 16
  {
    var r := rate % 4;
    assert SLOW_ROWS[r][i] == if Fuller(r, i) || i % 2 == 0 then 1 else 0;
    assert FAST_ROWS[r][i] == if Fuller2(r, i) then 2 else 1;
  }

  /** What eight steps in a row attenuate: a quarter more for every rate, twice as much for every four fast ones. */
  lemma EightSteps(rate: nat)
    requires 8 <= rate < 60
    ensures
      DecayStep(rate, 0) + DecayStep(rate, 1) + DecayStep(rate, 2) + DecayStep(rate, 3)
      + DecayStep(rate, 4) + DecayStep(rate, 5) + DecayStep(rate, 6) + DecayStep(rate, 7) ==
      (4 + rate % 4) * if rate < 48 then 1 else if rate < 52 then 2 else if rate < 56 then 4 else 8
  {
  }

  /** An attack step takes off 1 and as many sixteenths of the level as the decay step, down to 0; no step, nothing. */
  lemma AttackLevel(e: Env)
    requires Inv(e) && e.phase == Attack
    ensures
      var s := DecayStep(e.rate, e.curve % 8);
      && EgCalc(e).level == (if s == 0 then e.level else Max(0, e.level - 1 - e.level * s / 16))
      && (EgCalc(e).phase == Attack <==> s == 0 || e.level > 1 + e.level * s / 16)
  {
    var s := DecayStep(e.rate, e.curve % 8);
    StepSizes(e.rate, e.curve % 8);
    if s != 0 {
      Sixteenths(e.level, s);
    }
    hide DecayStep;
  }

  lemma StepSizes(rate: nat, i: nat)
    requires rate < 64 && i < 8
    ensures DecayStep(rate, i) in {0, 1, 2, 4, 8, 16}
  {
  }

  lemma Sixteenths(level: nat, s: nat)
    requires s in {1, 2, 4, 8, 16}
    ensures AttackShift(s) >= 0 && Shr(level, AttackShift(s)) == level * s / 16
  {
    if s == 2 {
      DivModUnique(2 * level, 16, level / 8, 2 * (level % 8));
    } else if s == 4 {
      DivModUnique(4 * level, 16, level / 4, 4 * (level % 4));
    } else if s == 8 {
      DivModUnique(8 * level, 16, level / 2, 8 * (level % 2));
    }
  }

  /** Behind the attack a step attenuates by its table entry, until the level of the next phase is reached. */
  lemma DecayLevel(e: Env)
    requires Inv(e) && e.phase != Attack
    ensures
      var f, next := EgCalc(e), e.level + DecayStep(e.rate, e.curve % 8);
      if next < e.nextLevel then f.phase == e.phase && f.level == next && f.rate == e.rate
      else if e.phase == Decay then f.phase == Sustain && f.level == 8 * e.regs.sl && f.nextLevel == 1024
      else f.phase == Off && f.level == 955
  {
    hide DecayStep, RateOf;
  }

  /** A key-off releases from the level there is, or from any level of the attack; from 955 on it switches off. */
  lemma KeyOffReleases(e: Env)
    requires Inv(e) && e.keyOn
    ensures
      var f := KeyOff(e);
      && !f.keyOn
      && if e.phase == Attack || e.level < 955
         then f.phase == Release && f.level == e.level && f.nextLevel == 1024 && f.rate == Min(63, e.regs.rr + e.ksr)
         else f.phase == Off && f.level == 955
  {
  }

  /** A key that is down already, or up already, changes nothing; nor does taking over parameters
   * that have not changed. */
  lemma NothingAnew(e: Env)
    requires Inv(e)
    ensures if e.keyOn then KeyOn(e) == e else KeyOff(e) == e
    ensures !e.changed ==> Prepare(e) == e
  {
  }

  /** Reset: off at the bottom level, quietest total level, and the parameters to be taken over anew. */
  lemma ResetIs(e: Env)
    requires InRange(e)
    ensures
      var f := ResetEnv(e);
      && f.phase == Off && f.level == f.nextLevel == 955 && f.rate == 0 && f.curve == 0 && f.changed
      && f.regs == e.regs.(tl := 127, tlLatch := 127) && f.keyOn == e.keyOn && f.tlOut == e.tlOut && f.ksr == e.ksr
  {
  }

  /** Between changes of parameters every phase runs at the rate of its own register, and at the key
   * scale of the note. */
  ghost predicate Driven(e: Env)
    requires e.regs.ks <= 3
  {
    !e.changed ==>
    && e.ksr == e.regs.bn / [8, 4, 2, 1][e.regs.ks]
    && match e.phase
       case Attack => e.rate == if e.regs.ar == 0 then 0 else Min(63, e.regs.ar + e.ksr)
       case Decay => e.rate == (if e.regs.dr == 0 then 0 else Min(63, e.regs.dr + e.ksr)) && e.nextLevel ==
       8 * e.regs.sl
       case Sustain => e.rate == if e.regs.sr == 0 then 0 else Min(63, e.regs.sr + e.ksr)
       case Release => e.rate == Min(63, e.regs.rr + e.ksr)
       case Off => e.rate == 0
  }

  lemma ApplyKeepsDriven(e: Env, op: Op)
    requires Inv(e) && Driven(e)
    ensures Driven(Apply(e, op))
  {
    if op == EgCalcOp {
      StepKeepsDriven(e);
    } else if op == PrepareOp {
      PrepareDrives(e);
    } else if op == KeyOnOp || op == KeyOffOp {
      KeyKeepsDriven(e);
    } else {
      hide KeyOn, KeyOff, EgCalc, Prepare, SustainLevel;
    }
  }

  lemma StepKeepsDriven(e: Env)
    requires Inv(e) && Driven(e)
    ensures Driven(EgCalc(e))
  {
    hide DecayStep, Shr, AttackShift, OutOf;
  }

  lemma KeyKeepsDriven(e: Env)
    requires Inv(e) && Driven(e)
    ensures Driven(KeyOn(e)) && Driven(KeyOff(e))
  {
    hide OutOf;
  }

  lemma PrepareDrives(e: Env)
    requires Inv(e) && Driven(e)
    ensures Driven(Prepare(e))
  {
    hide OutOf;
    KeyScaleIs(e.regs);
  }

  lemma KeyScaleIs(r: Regs)
    requires r.ks <= 3
    ensures KeyScale(r) == r.bn / [8, 4, 2, 1][r.ks]
  {
  }

  /** So over any interleaving of samples, key events and register writes. */
  lemma {:induction false} RunKeepsDriven(e: Env, ops: seq<Op>)
    requires Inv(e) && e.changed
    ensures Driven(Run(e, ops))
  {
    DrivenAfter(e, ops);
  }

  lemma {:induction false} DrivenAfter(e: Env, ops: seq<Op>)
    requires Inv(e) && Driven(e)
    ensures Driven(Run(e, ops))
    decreases |ops|
  {
    hide Driven, Apply;
    if ops == [] {
    } else {
      ApplyKeepsInv(e, ops[0]);
      ApplyKeepsDriven(e, ops[0]);
      DrivenAfter(Apply(e, ops[0]), ops[1..]);
    }
  }

  /** What taking over the parameters does: the rate of the phase that is on, and the level of the total level. */
  lemma PrepareTakes(e: Env)
    requires Inv(e) && e.changed
    ensures
      var f := Prepare(e);
      && !f.changed && Driven(f) && f.phase == e.phase && f.level == e.level && f.regs == e.regs
      && f.tlOut == if e.regs.mute then 0x3ff else 8 * e.regs.tl
  {
    KeyScaleIs(e.regs);
  }

  /** Right after a key-on it leaves the rate, when nothing had been changed before. */
  lemma PrepareAfterKeyOn(e: Env)
    requires Inv(e) && Driven(e) && !e.keyOn
    ensures !e.changed ==> Prepare(KeyOn(e)) == KeyOn(e)
    ensures e.changed && KeyScale(e.regs) == e.ksr ==> Prepare(KeyOn(e)).rate == KeyOn(e).rate
  {
    hide OutOf;
  }

  // ----- what a phase does not depend on

  /** The registers that a phase does not look at, taken from others. */
  function Other(r: Regs, o: Regs, p: Phase): Regs {
    match p
    case Attack => r.(dr := o.dr, sr := o.sr, sl := o.sl, rr := o.rr)
    case Decay => r.(ar := o.ar, sr := o.sr, rr := o.rr)
    case Sustain => r.(ar := o.ar, dr := o.dr, sl := o.sl, rr := o.rr)
    case Release => r.(ar := o.ar, dr := o.dr, sr := o.sr, sl := o.sl)
    case Off => r.(ar := o.ar, dr := o.dr, sr := o.sr, sl := o.sl, rr := o.rr)
  }

  /** A key-on begins the same attack whatever the registers of the later phases hold. */
  lemma KeyOnAlike(e: Env, o: Regs)
    requires Inv(e) && !e.keyOn && e.regs.ar + e.ksr < 62 && Inv(e.(regs := Other(e.regs, o, Attack)))
    ensures KeyOn(e.(regs := Other(e.regs, o, Attack))) == KeyOn(e).(regs := Other(KeyOn(e).regs, o, Attack))
  {
    hide InRange, OutOf;
  }

  /** Two operators that differ in those registers only make the same step and take over the same
   * rate, or both leave the phase. */
  lemma AlikeStep(e: Env, o: Regs, op: Op)
    requires Inv(e) && Inv(e.(regs := Other(e.regs, o, e.phase))) && (op == EgCalcOp || op == PrepareOp)
    ensures
      var f, g := Apply(e, op), Apply(e.(regs := Other(e.regs, o, e.phase)), op);
      && (f.phase == e.phase <==> g.phase == e.phase)
      && (f.phase == e.phase ==> g == f.(regs := Other(f.regs, o, e.phase)))
  {
    hide DecayStep, Shr, AttackShift, OutOf, InRange;
  }

  /** So as long as the phase lasts, they are at the same level at every step. */
  lemma {:induction false} AlikeWhileItLasts(e: Env, o: Regs, n: nat)
    requires Inv(e) && Inv(e.(regs := Other(e.regs, o, e.phase)))
    requires forall k: nat :: k <= n ==> Calcs(e, k).phase == e.phase
    ensures
      var f, g := Calcs(e, n), Calcs(e.(regs := Other(e.regs, o, e.phase)), n);
      && f.regs == e.regs && g == f.(regs := Other(e.regs, o, e.phase))
      && g.level == f.level && g.out == f.out && g.phase == f.phase
  {
    hide EgCalc, Inv;
    if n == 0 {
    } else {
      AlikeWhileItLasts(e, o, n - 1);
      AlikeStep(Calcs(e, n - 1), o, EgCalcOp);
      StepKeepsRegs(Calcs(e, n - 1));
    }
  }

  lemma StepKeepsRegs(e: Env)
    requires Inv(e)
    ensures EgCalc(e).phase == e.phase ==> EgCalc(e).regs == e.regs
  {
    hide DecayStep, Shr, AttackShift, OutOf;
  }

  // ----- the registers bit by bit

  /** What each register write of the OPM puts where; all but the latched total level mark the parameters as changed. */
  lemma RegisterFields(e: Env, data: u8, csm: bool)
    requires Inv(e)
    ensures Apply(e, KsArOp(data)) == e.(changed := true, regs := e.regs.(ks := data / 64, ar := 2 * (data % 32)))
    ensures Apply(e, DrAmonOp(data)) == e.(changed := true, regs := e.regs.(dr := 2 * (data % 32)))
    ensures Apply(e, SrDt2Op(data)) == e.(changed := true, regs := e.regs.(sr := 2 * (data % 32)))
    ensures
      Apply(e, TlOp(data, csm)) ==
      var latched := e.(regs := e.regs.(tlLatch := data % 128));
      if csm then latched else latched.(changed := true, regs := latched.regs.(tl := data % 128))
    ensures Apply(e, KeyCodeOp(data)) == e.(changed := true, regs := e.regs.(bn := data / 4 % 32))
    ensures forall mute :: Apply(e, MuteOp(mute)) == e.(changed := true, regs := e.regs.(mute := mute))
  {
    hide KeyOn, KeyOff, EgCalc, Prepare, SustainLevel;
  }

  const SUSTAIN_LEVELS: seq<nat> := [0, 4, 8, 12, 16, 20, 24, 28, 32, 36, 40, 44, 48, 52, 56, 124]

  /** The two with a table or odd bits: sustain level with release rate, and detune in steps of 32. */
  lemma TableFields(e: Env, data: u8)
    requires Inv(e)
    ensures
      Apply(e, SlRrOp(data)) ==
      e.(changed := true, regs := e.regs.(sl := SUSTAIN_LEVELS[data / 16], rr := 4 * (data % 16) + 2))
    ensures
      Apply(e, DtMulOp(data)) ==
      e.(changed := true, regs := e.regs.(detune := 32 * (Bit(data, 4) + 2 * Bit(data, 5) + 4 * Bit(data, 6))))
  {
    hide KeyOn, KeyOff, EgCalc, Prepare;
    ThreeBits(data / 16);
    HalveTwice(data, 16);
    HalveTwice(data, 32);
    var n := data / 16;
    assert SustainLevel(n) == SUSTAIN_LEVELS[n];
  }

  lemma ThreeBits(x: nat)
    ensures x % 8 == x % 2 + 2 * (x / 2 % 2) + 4 * (x / 2 / 2 % 2)
  {
  }

  // ----- silence

  /** Steps left until the operator is off, given that every second step attenuates further. */
  function Remaining(e: Env): nat
    requires Inv(e)
  {
    if e.phase == Off then 0 else 2 * (LEVEL_END - e.level) + Odd(e.curve)
  }

  function EgCalcs(ops: seq<Op>): nat {
    if ops == [] then 0 else (if ops[0] == EgCalcOp then 1 else 0) + EgCalcs(ops[1..])
  }

  /** A released envelope step: the level rises in every second one. */
  lemma ReleaseCalc(e: Env)
    requires Inv(e) && !e.keyOn
    ensures !EgCalc(e).keyOn && Inv(EgCalc(e))
    ensures Remaining(EgCalc(e)) <= Remaining(e) && (Remaining(e) > 0 ==> Remaining(EgCalc(e)) < Remaining(e))
  {
    hide DecayStep, InRange, EnterDecay, EnterSustain, Odd, Shr, AttackShift;
    EgCalcKeepsInv(e);
    StepMoves(e.rate, e.curve);
  }

  /** No register write and no other command touches what the time to silence depends on. */
  lemma ReleaseKept(e: Env, op: Op)
    requires Inv(e) && !e.keyOn && op != KeyOnOp && op != EgCalcOp
    ensures
      var f := Apply(e, op);
      f.keyOn == e.keyOn && f.phase == e.phase && f.level == e.level && f.curve == e.curve
  {
    hide KeyOn, EgCalc;
  }

  lemma ReleaseProgress(e: Env, op: Op)
    requires Inv(e) && !e.keyOn && op != KeyOnOp
    ensures Inv(Apply(e, op)) && !Apply(e, op).keyOn
    ensures Remaining(Apply(e, op)) <= Remaining(e)
    ensures op == EgCalcOp && Remaining(e) > 0 ==> Remaining(Apply(e, op)) < Remaining(e)
  {
    hide KeyOn, KeyOff, EgCalc, Prepare, Inv;
    ApplyKeepsInv(e, op);
    if op == EgCalcOp {
      ReleaseCalc(e);
    } else {
      ReleaseKept(e, op);
    }
  }

  /**
   After a key-off, whatever registers are written meanwhile, 2049 envelope steps without a
   new key-on switch the operator off: it attenuates by at least one in every second step.
   */
  lemma {:induction false} Silence(e: Env, ops: seq<Op>)
    requires Inv(e) && !e.keyOn && KeyOnOp !in ops && EgCalcs(ops) >= Remaining(e)
    ensures Run(e, ops).phase == Off
    decreases |ops|
  {
    if ops == [] {
    } else {
      ReleaseProgress(e, ops[0]);
      Silence(Apply(e, ops[0]), ops[1..]);
    }
  }

  lemma SilenceAfterKeyOff(e: Env, ops: seq<Op>)
    requires Inv(e) && KeyOnOp !in ops && EgCalcs(ops) >= 2049
    ensures Run(KeyOff(e), ops).phase == Off
  {
    ApplyKeepsInv(e, KeyOffOp);
    Silence(KeyOff(e), ops);
  }

  // ----- the operator

  function ResetEnv(e: Env): Env {
    EnterOff(e.(regs := e.regs.(tl := 127, tlLatch := 127))).(curve := 0, changed := true)
  }

  lemma ResetKeepsRange(e: Env)
    requires InRange(e)
    ensures Inv(ResetEnv(e))
  {
  }

  class Operator {
    var phase: Phase
    var level: int
    var nextLevel: int
    var rate: nat
    var curve: nat
    var out: int
    var tlOut: nat
    var ksr: nat
    var keyOn: bool
    var changed: bool
    var regs: Regs

    function Abs(): Env
      reads this
    {
      Env(phase, level, nextLevel, rate, curve, out, tlOut, ksr, keyOn, changed, regs)
    }

    ghost predicate Valid()
      reads this
    {
      Inv(Abs())
    }

    /** An operator as the chip's reset leaves it: every register written with 0, then the operator reset. */
    constructor ()
      ensures Valid() && phase == Off && !keyOn
    {
      regs := Regs(0, 0, 0, 0, 2, 0, 0, 0, 127, 127, false);
      tlOut, ksr, keyOn, curve, changed := 0, 0, false, 0, true;
      phase, level, nextLevel, rate, out := Off, EG_BOTTOM, EG_BOTTOM, 0, OutOf(0, EG_BOTTOM);
    }

    method Reset()
      requires InRange(Abs())
      modifies this
      ensures Abs() == ResetEnv(old(Abs())) && Valid()
    {
      ResetKeepsRange(Abs());
      hide InRange, Sound, OutOf;
      regs := regs.(tl := 127, tlLatch := 127);
      ShiftPhase(Off);
      curve, changed := 0, true;
    }

    method EgUpdate()
      modifies `out
      ensures Abs() == Updated(old(Abs()))
    {
      out := Min(tlOut + level, 0x3ff) * 8;
    }

    /** The switch on the new phase; attack falls through to decay and decay to sustain, release to off. */
    method ShiftPhase(next: Phase)
      modifies this
      ensures
        Abs() ==
        match next
        case Attack => EnterAttack(old(Abs()))
        case Decay => EnterDecay(old(Abs()))
        case Sustain => EnterSustain(old(Abs()))
        case Release => EnterRelease(old(Abs()))
        case Off => EnterOff(old(Abs()))
    {
      var p := next;
      if p == Attack {
        regs := regs.(tl := regs.tlLatch);
        if regs.ar + ksr < 62 {
          rate := if regs.ar != 0 then Min(63, regs.ar + ksr) else 0;
          phase := Attack;
          return;
        }
        p := Decay;
      }
      if p == Decay {
        if regs.sl != 0 {
          level, nextLevel := 0, regs.sl * 8;
          rate := if regs.dr != 0 then Min(63, regs.dr + ksr) else 0;
          phase := Decay;
          return;
        }
        p := Sustain;
      }
      if p == Sustain {
        level, nextLevel := regs.sl * 8, LEVEL_END;
        rate := if regs.sr != 0 then Min(63, regs.sr + ksr) else 0;
        phase := Sustain;
        return;
      }
      if p == Release {
        if phase == Attack || level < EG_BOTTOM {
          nextLevel, rate, phase := LEVEL_END, Min(63, regs.rr + ksr), Release;
          return;
        }
      }
      level, nextLevel := EG_BOTTOM, EG_BOTTOM;
      EgUpdate();
      rate, phase := 0, Off;
    }

    method DoKeyOn()
      requires Valid()
      modifies this
      ensures Abs() == KeyOn(old(Abs())) && Valid()
    {
      KeyKeepsInv(Abs());
      hide InRange, Sound, OutOf, EnterAttack, EnterRelease;
      if !keyOn {
        keyOn := true;
        if phase == Off || phase == Release {
          ShiftPhase(Attack);
          EgUpdate();
        }
      }
    }

    method DoKeyOff()
      requires Valid()
      modifies this
      ensures Abs() == KeyOff(old(Abs())) && Valid()
    {
      KeyKeepsInv(Abs());
      hide InRange, Sound, OutOf, EnterAttack, EnterRelease;
      if keyOn {
        keyOn := false;
        ShiftPhase(Release);
      }
    }

    method DoPrepare()
      requires Valid()
      modifies this
      ensures Abs() == Prepare(old(Abs())) && Valid()
    {
      PrepareKeepsInv(Abs());
      assert regs.ks <= 3;
      hide InRange, Sound, KeyScale;
      if changed {
        changed := false;
        ksr := KeyScale(regs);
        tlOut := if regs.mute then 0x3ff else regs.tl * 8;
        match phase {
          case Attack => rate := if regs.ar != 0 then Min(63, regs.ar + ksr) else 0;
          case Decay => rate, nextLevel := if regs.dr != 0 then Min(63, regs.dr + ksr) else 0, regs.sl * 8;
          case Sustain => rate := if regs.sr != 0 then Min(63, regs.sr + ksr) else 0;
          case Release => rate := Min(63, regs.rr + ksr);
          case Off =>
        }
        EgUpdate();
      }
    }

    method DoEgCalc()
      requires Valid()
      modifies this
      ensures Abs() == EgCalc(old(Abs())) && Valid()
    {
      EgCalcKeepsInv(Abs());
      var step := DecayStep(rate, curve % 8);
      hide DecayStep, EnterDecay, EnterSustain, EnterRelease, EnterAttack, EnterOff,
        InRange, Sound, OutOf, Shr, AttackShift;
      if phase == Attack {
        var c := AttackShift(step);
        if c >= 0 {
          level := level - (1 + Shr(level, c));
          if level <= 0 {
            ShiftPhase(Decay);
          }
        }
      } else {
        level := level + step;
        if level >= nextLevel {
          ShiftPhase(match phase case Decay => Sustain case Sustain => Release case _ => Off);
        }
      }
      EgUpdate();
      curve := curve + 1;
    }

    /** The register writes of OPM::SetParameter, the key code and the channel mask. */
    method SetParameter(op: Op)
      requires Valid() && op !in {KeyOnOp, KeyOffOp, PrepareOp, EgCalcOp}
      modifies this
      ensures Abs() == Apply(old(Abs()), op) && Valid()
    {
      ApplyKeepsInv(Abs(), op);
      hide KeyOn, KeyOff, EgCalc, Prepare, InRange, Sound;
      match op
      case DtMulOp(data) =>
        regs, changed := regs.(detune := data / 0x10 % 8 * 0x20), true;
      case TlOp(data, csm) =>
        if !csm {
          regs, changed := regs.(tl := data % 0x80), true;
        }
        regs := regs.(tlLatch := data % 0x80);
      case KsArOp(data) =>
        regs, changed := regs.(ks := data / 0x40, ar := data % 0x20 * 2), true;
      case DrAmonOp(data) =>
        regs, changed := regs.(dr := data % 0x20 * 2), true;
      case SrDt2Op(data) =>
        regs, changed := regs.(sr := data % 0x20 * 2), true;
      case SlRrOp(data) =>
        regs, changed := regs.(sl := SustainLevel(data / 0x10), rr := data % 0x10 * 4 + 2), true;
      case KeyCodeOp(kc) =>
        regs, changed := regs.(bn := kc / 4 % 32), true;
      case MuteOp(m) =>
        regs, changed := regs.(mute := m), true;
      case _ =>
    }
  }
}
