/**
 The MSM6258 voice: the clamped decoder, the accumulator that turns its clock into the
 output rate, the interpolation between decoded values, the low-pass filter and its
 delay line. Divisions truncate as in C; the filter's shift rounds down.
 */
module Msm6258 {
  import opened CInt

  const BUF_SIZE := 96000
  const OUT_MAX := 2047
  const OUT_MIN := -2048
  const STEP_MAX := 48 * 16

  // ----- decoder

  /** index_shift */
  function IndexShift(val: nat): int
    requires val < 16
  {
    var n := if val < 8 then val else val - 8;
    if n < 4 then -16 else (n - 3) * 32
  }

  type DifTable = d: seq<int> | |d| == 49 * 16 witness seq(49 * 16, _ => 0)

  predicate DecoderOk(step: int, out: int) {
    0 <= step <= STEP_MAX && step % 16 == 0 && OUT_MIN <= out <= OUT_MAX
  }

  function NextOut(dif: DifTable, step: int, out: int, val: nat): int
    requires DecoderOk(step, out) && val < 16
  {
    Clamp(out + dif[step + val], OUT_MIN, OUT_MAX)
  }

  function NextStep(step: int, val: nat): int
    requires val < 16
  {
    Clamp(step + IndexShift(val), 0, STEP_MAX)
  }

  /** Every nibble keeps the output in 12 bits and the step on a row of the difference table. */
  lemma DecoderKeeps(dif: DifTable, step: int, out: int, val: nat)
    requires DecoderOk(step, out) && val < 16
    ensures DecoderOk(NextStep(step, val), NextOut(dif, step, out, val))
  {
    var s := NextStep(step, val);
    var q := step / 16;
    assert step == 16 * q;
    var d := if val < 8 then val else val - 8;
    if d < 4 {
      DivModUnique(step - 16, 16, q - 1, 0);
    } else {
      DivModUnique(step + (d - 3) * 32, 16, q + 2 * (d - 3), 0);
    }
  }

  /** By the table: the lower magnitudes go down a row, the upper ones up by 2, 4, 6 and 8; entries
   * and rows are clamped. */
  lemma DecoderLaw(dif: DifTable, step: int, out: int, val: nat)
    requires DecoderOk(step, out) && val < 16
    ensures NextOut(dif, step, out, val) == Max(-2048, Min(2047, out + dif[step + val]))
    ensures NextStep(step, val) == Max(0, Min(768, step + [-16, -16, -16, -16, 32, 64, 96, 128][val % 8]))
  {
  }

  /** The difference a nibble stands for: its sign bit, then one, one half and one quarter of the
   * step size, and an eighth always. */
  function Entry(size: nat, val: nat): int
    requires val < 16
  {
    var eighths := size + (if val / 4 % 2 == 1 then 8 * size else 0) + (if val / 2 % 2 == 1 then 4 * size else 0)
                   + if val % 2 == 1 then 2 * size else 0;
    if val >= 8 then -(eighths / 8) else eighths / 8
  }

  /** So it is the odd multiple of an eighth that the magnitude names, and its negative for the upper nibbles. */
  lemma EntryIs(size: nat, val: nat)
    requires val < 8
    ensures Entry(size, val) == (2 * val + 1) * size / 8 && Entry(size, val + 8) == -Entry(size, val)
    ensures val < 7 ==> Entry(size, val) <= Entry(size, val + 1)
  {
    assert val == 4 * (val / 4 % 2) + 2 * (val / 2 % 2) + val % 2;
    assert (val + 8) / 4 % 2 == val / 4 % 2 && (val + 8) / 2 % 2 == val / 2 % 2 && (val + 8) % 2 == val % 2;
  }

  /** ADPCM_InitTable, from the 49 step sizes its power formula gives. */
  method InitTable(sizes: seq<nat>) returns (dif: array<int>)
    requires |sizes| == 49
    ensures fresh(dif) && dif.Length == 49 * 16
    ensures forall step, n :: 0 <= step < 49 && 0 <= n < 16 ==> dif[16 * step + n] == Entry(sizes[step], n)
  {
    dif := new int[49 * 16];
    var step := 0;
    while step <= 48
      invariant 0 <= step <= 49
      invariant forall s, n :: 0 <= s < step && 0 <= n < 16 ==> dif[16 * s + n] == Entry(sizes[s], n)
    {
      var n := 0;
      while n < 16
        invariant 0 <= n <= 16
        invariant forall m :: 0 <= m < n ==> dif[16 * step + m] == Entry(sizes[step], m)
        invariant forall s, m :: 0 <= s < step && 0 <= m < 16 ==> dif[16 * s + m] == Entry(sizes[s], m)
      {
        dif[16 * step + n] := Entry(sizes[step], n);
        n := n + 1;
      }
      step := step + 1;
    }
  }

  // ----- rate conversion

  /** How many output samples one input nibble gives: the accumulator runs up to the output rate. */
  function Emits(count: nat, sampleRate: nat, clockRate: nat): nat
    requires clockRate > 0
    decreases sampleRate - count
  {
    if count >= sampleRate then 0 else Emits(count + clockRate, sampleRate, clockRate) + 1
  }

  lemma {:induction false} EmitsBound(count: nat, sampleRate: nat, clockRate: nat)
    requires clockRate > 0 && count < sampleRate + clockRate
    ensures sampleRate <= count + Emits(count, sampleRate, clockRate) * clockRate < sampleRate + clockRate
    decreases sampleRate - count
  {
    if count >= sampleRate {
    } else {
      EmitsBound(count + clockRate, sampleRate, clockRate);
      var e := Emits(count + clockRate, sampleRate, clockRate);
      assert (e + 1) * clockRate == e * clockRate + clockRate;
    }
  }

  /** The accumulator after a nibble. */
  function NextCount(count: nat, sampleRate: nat, clockRate: nat): (c: nat)
    requires count < clockRate
    ensures c < clockRate
  {
    EmitsBound(count, sampleRate, clockRate);
    count + Emits(count, sampleRate, clockRate) * clockRate - sampleRate
  }

  /** The accumulator and the number of samples after n nibbles. */
  function Rate(count: nat, sampleRate: nat, clockRate: nat, n: nat): (r: (nat, nat))
    requires count < clockRate
    ensures r.0 < clockRate
  {
    if n == 0 then (count, 0)
    else
      var (c, total) := Rate(count, sampleRate, clockRate, n - 1);
      (NextCount(c, sampleRate, clockRate), total + Emits(c, sampleRate, clockRate))
  }

  function CeilDiv(a: int, b: int): int
    requires b > 0
  {
    -((-a) / b)
  }

  /** Samples out and nibbles in balance exactly, so the number of samples is the rounded-up ratio. */
  lemma RateExact(count: nat, sampleRate: nat, clockRate: nat, n: nat)
    requires count < clockRate
    ensures
      var (c, total) := Rate(count, sampleRate, clockRate, n);
      c + n * sampleRate == count + total * clockRate && total == CeilDiv(n * sampleRate - count, clockRate)
  {
    hide Rate, CeilDiv;
    RateBalance(count, sampleRate, clockRate, n);
    var (c, total) := Rate(count, sampleRate, clockRate, n);
    CeilDivIs(n * sampleRate - count, clockRate, total, c);
  }

  lemma CeilDivIs(a: int, b: int, q: int, r: int)
    requires 0 <= r < b && a == q * b - r
    ensures CeilDiv(a, b) == q
  {
    MulDistributes(b, 0, q);
    DivModUnique(-a, b, -q, r);
  }

  /** What goes in and what comes out of the accumulator balance over every run. */
  lemma {:induction false} RateBalance(count: nat, sampleRate: nat, clockRate: nat, n: nat)
    requires count < clockRate
    ensures
      var (c, total) := Rate(count, sampleRate, clockRate, n);
      c + n * sampleRate == count + total * clockRate
  {
    hide Emits;
    if n == 0 {
    } else {
      RateBalance(count, sampleRate, clockRate, n - 1);
      var (c, total) := Rate(count, sampleRate, clockRate, n - 1);
      var e := Emits(c, sampleRate, clockRate);
      MulAdds(clockRate, total, e);
      MulAdds(sampleRate, n - 1, 1);
    }
  }

  // ----- interpolation

  function Inner(y: seq<int>, x: int): int
    requires |y| == 4
  {
    (-y[0] + 3 * y[1] - 3 * y[2] + y[3]) * x + 128
  }

  function Middle(y: seq<int>, x: int): int
    requires |y| == 4
  {
    (CDiv(Inner(y, x), 256) + 3 * (y[0] - 2 * y[1] + y[2])) * x + 128
  }

  function Outer(y: seq<int>, x: int): int
    requires |y| == 4
  {
    (CDiv(Middle(y, x), 256) - 2 * y[0] - 3 * y[1] + 6 * y[2] - y[3]) * x + 768
  }

  /** The cubic through four values, x/256 of the way from the second to the third. */
  function Interpolate(y: seq<int>, x: int): int
    requires |y| == 4
  {
    CDiv(Outer(y, x), 1536) + y[1]
  }

  /** A constant signal comes out unchanged at every ratio. */
  lemma InterpolateConstant(v: int, x: int)
    ensures Interpolate([v, v, v, v], x) == v
  {
    var y := [v, v, v, v];
    assert -y[0] + 3 * y[1] - 3 * y[2] + y[3] == 0 && y[0] - 2 * y[1] + y[2] == 0;
    assert Inner(y, x) == 128 && Middle(y, x) == 128 && Outer(y, x) == 768;
  }

  /** At ratio 0 the second value comes out. */
  lemma InterpolateStart(y: seq<int>)
    requires |y| == 4
    ensures Interpolate(y, 0) == y[1]
  {
    assert Inner(y, 0) == 128 && Middle(y, 0) == 128 && Outer(y, 0) == 768;
  }

  /** Values on a line come out on that line, rounded to the nearest. */
  lemma InterpolateLinear(v: int, d: int, x: int)
    ensures Interpolate([v - d, v, v + d, v + 2 * d], x) == v + CDiv(d * x + 128, 256)
  {
    var y := [v - d, v, v + d, v + 2 * d];
    assert -y[0] + 3 * y[1] - 3 * y[2] + y[3] == 0 && y[0] - 2 * y[1] + y[2] == 0;
    assert Inner(y, x) == 128 && Middle(y, x) == 128;
    assert -2 * y[0] - 3 * y[1] + 6 * y[2] - y[3] == 6 * d;
    assert Outer(y, x) == 6 * (d * x + 128);
    SixthsCancel(d * x + 128);
  }

  lemma SixthsCancel(a: int)
    ensures CDiv(6 * a, 1536) == CDiv(a, 256)
  {
    var b := Abs(a);
    DivModUnique(6 * b, 1536, b / 256, 6 * (b % 256));
  }

  /**
   The interpolation is, to within 2, the cubic of Lagrange through the four values at -1, 0, 1
   and 2, at x/256. Here both are multiplied by 6 times the third power of 256.
   */
  lemma InterpolateIsCubic(y: seq<int>, x: int)
    requires |y| == 4 && 0 <= x <= 256
    ensures
      var a, b, c := y[3] - 3 * y[2] + 3 * y[1] - y[0], y[0] - 2 * y[1] + y[2], 6 * y[2] - y[3] - 3 * y[1] - 2 * y[0];
      var cubic := a * x * x * x + 768 * (b * x * x) + 65536 * (c * x);
      -201326592 < 100663296 * (Interpolate(y, x) - y[1]) - cubic < 201326592
  {
    var a, b, c := y[3] - 3 * y[2] + 3 * y[1] - y[0], y[0] - 2 * y[1] + y[2], 6 * y[2] - y[3] - 3 * y[1] - 2 * y[0];
    var p, q := CDiv(Inner(y, x), 256), CDiv(Middle(y, x), 256);
    var r := CDiv(Outer(y, x), 1536);
    assert Inner(y, x) == a * x + 128 && Middle(y, x) == (p + 3 * b) * x + 128 && Outer(y, x) == (q + c) * x + 768;
    Truncated(Inner(y, x), 256);
    Truncated(Middle(y, x), 256);
    Truncated(Outer(y, x), 1536);
    CubicRest(a * x - 256 * p, (p + 3 * b) * x - 256 * q, (q + c) * x - 1536 * r, x);
    CubicSum(a, b, c, p, q, r, x);
  }

  lemma Truncated(a: int, n: int)
    requires n > 0
    ensures -n < a - n * CDiv(a, n) < n
  {
    var b := Abs(a);
    assert b == n * (b / n) + b % n;
    if a < 0 {
      MulDistributes(n, 0, b / n);
    }
  }

  /** What the three divisions leave over, at the weights with which it reaches the result. */
  lemma CubicRest(e1: int, e2: int, e3: int, x: int)
    requires 0 <= x <= 256 && -384 < e1 < 384 && -384 < e2 < 384 && -2304 < e3 < 2304
    ensures -201326592 < 65536 * e3 + 256 * (e2 * x) + e1 * x * x < 201326592
  {
    MulBound(e2, x, 384);
    MulBound(e1, x, 384);
    MulBound(e1 * x, x, 98304);
  }

  lemma CubicSum(a: int, b: int, c: int, p: int, q: int, r: int, x: int)
    ensures
      var e1, e2, e3 := a * x - 256 * p, (p + 3 * b) * x - 256 * q, (q + c) * x - 1536 * r;
      a * x * x * x + 768 * (b * x * x) + 65536 * (c * x) - 100663296 * r == 65536 * e3 + 256 * (e2 * x) + e1 * x * x
  {
    var e1, e2, e3 := a * x - 256 * p, (p + 3 * b) * x - 256 * q, (q + c) * x - 1536 * r;
    assert e3 == q * x + c * x - 1536 * r;
    assert e2 * x == p * x * x + 3 * (b * x * x) - 256 * (q * x) by {
      MulDistributes(x, (p + 3 * b) * x, 256 * q);
      MulAdds(x, p, 3 * b);
      MulAdds(x, p * x, 3 * b * x);
    }
    assert e1 * x * x == a * x * x * x - 256 * (p * x * x) by {
      MulDistributes(x, a * x, 256 * p);
      MulDistributes(x, a * x * x, 256 * p * x);
    }
  }

  predicate Within(y: seq<int>, bound: int) { |y| == 4 && forall i :: 0 <= i < 4 ==> -bound <= y[i] <= bound }

  /** For decoder values no intermediate of the interpolation leaves 32 bits. */
  lemma InterpolateFits(y: seq<int>, x: int)
    requires Within(y, 2048) && 0 <= x <= 256
    ensures InI32(Inner(y, x)) && InI32(Middle(y, x)) && InI32(Outer(y, x)) && InI32(Interpolate(y, x))
  {
    MulBound(-y[0] + 3 * y[1] - 3 * y[2] + y[3], x, 16384);
    MulBound(CDiv(Inner(y, x), 256) + 3 * (y[0] - 2 * y[1] + y[2]), x, 40961);
    MulBound(CDiv(Middle(y, x), 256) - 2 * y[0] - 3 * y[1] + 6 * y[2] - y[3], x, 65538);
  }

  lemma MulBound(a: int, x: int, bound: int)
    requires -bound <= a <= bound && 0 <= x <= 256
    ensures -256 * bound <= a * x <= 256 * bound
  {
    MulNonNegative(bound - a, x);
    MulNonNegative(bound + a, x);
    MulNonNegative(bound, 256 - x);
    assert (bound - a) * x == bound * x - a * x && (bound + a) * x == bound * x + a * x;
    assert bound * (256 - x) == 256 * bound - bound * x;
  }

  // ----- the low-pass filter and its delay

  /** Two outputs and two inputs back: Outs[0], Outs[1], Outs[2], Outs[3] of one side. */
  datatype Filter = Filter(y0: int, y1: int, x0: int, x1: int)

  const INPUT_BOUND := 2048 * 40 * 16
  const STATE_BOUND := 138000

  predicate Bounded(f: Filter) {
    && -STATE_BOUND <= f.y0 <= STATE_BOUND && -STATE_BOUND <= f.y1 <= STATE_BOUND
    && -INPUT_BOUND <= f.x0 <= INPUT_BOUND && -INPUT_BOUND <= f.x1 <= INPUT_BOUND
  }

  function FilterSum(f: Filter, x: int): int { x + f.x1 * 2 + f.x0 + f.y1 * 157 - f.y0 * 61 }

  function FilterStep(f: Filter, x: int): Filter { Filter(f.y1, FilterSum(f, x) / 256, f.x1, x) }

  /** With the volume in 0..16 the state stays bounded for every input, and every sum fits 32 bits. */
  lemma FilterBounded(f: Filter, sample: int, volume: int)
    requires Bounded(f) && -2048 <= sample <= 2047 && 0 <= volume <= 16
    ensures Bounded(FilterStep(f, sample * 40 * volume))
    ensures InI32(sample * 40 * volume) && InI32(f.x1 * 2) && InI32(f.y1 * 157) && InI32(f.y0 * 61)
    ensures InI32(sample * 40 * volume + f.x1 * 2) && InI32(sample * 40 * volume + f.x1 * 2 + f.x0)
    ensures InI32(sample * 40 * volume + f.x1 * 2 + f.x0 + f.y1 * 157) && InI32(FilterSum(f, sample * 40 * volume))
  {
    var x := sample * 40 * volume;
    assert -INPUT_BOUND <= x <= INPUT_BOUND by {
      VolumeBound(sample * 40, volume);
    }
  }

  lemma VolumeBound(a: int, volume: int)
    requires -81920 <= a <= 81920 && 0 <= volume <= 16
    ensures -81920 * 16 <= a * volume <= 81920 * 16
  {
    MulNonNegative(81920 - a, volume);
    MulNonNegative(81920 + a, volume);
    assert (81920 - a) * volume == 81920 * volume - a * volume && (81920 + a) * volume == 81920 * volume + a * volume;
  }

  /** What the filter puts out: the weighted inputs and outputs of the last three steps over 256,
   * rounded down; it shifts both. */
  lemma FilterLaw(f: Filter, x: int)
    ensures
      var g := FilterStep(f, x);
      && 256 * g.y1 <= x + 2 * f.x1 + f.x0 + 157 * f.y1 - 61 * f.y0 < 256 * g.y1 + 256
      && g.y0 == f.y1 && g.x0 == f.x1 && g.x1 == x
  {
  }

  /** A constant passes the filter at the level it has without it. */
  lemma FilterConstant(sample: int, volume: int)
    ensures
      var v, x := sample * volume, sample * 40 * volume;
      FilterStep(Filter(v, v, x, x), x) == Filter(v, v, x, x)
  {
    var v := sample * volume;
    assert sample * 40 * volume == 40 * v;
    DivModUnique(256 * v, 256, v, 0);
  }

  /** One side of the output: the filter and the four values the output interpolation looks at. */
  datatype Side = Side(filter: Filter, ip: seq<int>)

  function Pushed(ip: seq<int>, x: int): (r: seq<int>)
    requires |ip| == 4
    ensures |r| == 4
  {
    [ip[1], ip[2], ip[3], x]
  }

  /** A sample through the filter, or past it when the filter is off. */
  function SideStep(s: Side, lpf: bool, sample: int, volume: int): Side
    requires |s.ip| == 4
  {
    if lpf then
      var f := FilterStep(s.filter, sample * 40 * volume);
      Side(f, Pushed(s.ip, f.y1))
    else Side(s.filter, Pushed(s.ip, sample * volume))
  }

  /** A sample enters the delay line behind the three before it, times the volume, or filtered from 40 times that. */
  lemma SideLaw(s: Side, sample: int, volume: int)
    requires |s.ip| == 4
    ensures SideStep(s, false, sample, volume) == Side(s.filter, [s.ip[1], s.ip[2], s.ip[3], sample * volume])
    ensures
      var f := FilterStep(s.filter, 40 * sample * volume);
      SideStep(s, true, sample, volume) == Side(f, [s.ip[1], s.ip[2], s.ip[3], f.y1])
  {
    assert sample * 40 * volume == 40 * sample * volume;
  }

  function SideOut(s: Side): int
    requires |s.ip| == 4
  {
    Clamp(Interpolate(s.ip, 0), -32768, 32767)
  }

  function SideRun(s: Side, lpf: bool, samples: seq<int>, volume: int): (r: Side)
    requires |s.ip| == 4
    ensures |r.ip| == 4
  {
    if samples == [] then s
    else SideStep(SideRun(s, lpf, samples[..|samples| - 1], volume), lpf, samples[|samples| - 1], volume)
  }

  /** What enters the delay line for the last of some samples. */
  function LastIn(s: Side, lpf: bool, samples: seq<int>, volume: int): int
    requires |s.ip| == 4 && samples != []
  {
    SideRun(s, lpf, samples, volume).ip[3]
  }

  /** The output stage is nothing but a delay of two samples and a clamp to 16 bits. */
  lemma OutputIsDelay(s: Side, lpf: bool, samples: seq<int>, volume: int)
    requires |s.ip| == 4 && |samples| > 2
    ensures
      SideOut(SideRun(s, lpf, samples, volume)) ==
      Clamp(LastIn(s, lpf, samples[..|samples| - 2], volume), -32768, 32767)
  {
    var n := |samples|;
    var a, b := samples[..n - 1], samples[..n - 2];
    assert a[..n - 2] == b;
    InterpolateStart(SideRun(s, lpf, samples, volume).ip);
  }

  /** Over any run of decoder samples the filter stays bounded. */
  lemma {:induction false} RunBounded(s: Side, samples: seq<int>, volume: int)
    requires |s.ip| == 4 && Bounded(s.filter) && 0 <= volume <= 16
    requires forall i :: 0 <= i < |samples| ==> -2048 <= samples[i] <= 2047
    ensures Bounded(SideRun(s, true, samples, volume).filter)
  {
    if samples == [] {
    } else {
      var before := samples[..|samples| - 1];
      RunBounded(s, before, volume);
      FilterBounded(SideRun(s, true, before, volume).filter, samples[|samples| - 1], volume);
    }
  }
}
