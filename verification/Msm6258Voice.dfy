/**
 The voice of the MSM6258 as a running unit: nibbles in, samples through a ring buffer,
 frames out. Filling the ring and mixing from it are stated as functions of what was
 there before; DMA requests are not part of the unit.
 */
module Msm6258Voice {
  import opened CInt
  import opened Msm6258

  // ----- the ring

  function NextPtr(p: nat): (r: nat)
    requires p < BUF_SIZE
    ensures r < BUF_SIZE
  {
    if p + 1 >= BUF_SIZE then 0 else p + 1
  }

  type Ring = r: seq<int> | |r| == BUF_SIZE witness seq(BUF_SIZE, _ => 0)

  /** Consecutive values stored from wr on. */
  function StoreRing(buf: Ring, wr: nat, vals: seq<int>): Ring
    requires wr < BUF_SIZE
    decreases |vals|
  {
    if vals == [] then buf else StoreRing(buf[wr := vals[0]], NextPtr(wr), vals[1..])
  }

  function RingIndex(wr: nat, k: nat): (i: nat)
    ensures i < BUF_SIZE
  {
    (wr + k) % BUF_SIZE
  }

  lemma NextIndex(wr: nat, k: nat)
    requires wr < BUF_SIZE
    ensures RingIndex(NextPtr(wr), k) == RingIndex(wr, k + 1)
  {
    if wr + 1 >= BUF_SIZE {
      DivModUnique(wr + k + 1, BUF_SIZE, k / BUF_SIZE + 1, k % BUF_SIZE);
    }
  }

  lemma IndexApart(wr: nat, j: nat, k: nat)
    requires j < k < j + BUF_SIZE
    ensures RingIndex(wr, j) != RingIndex(wr, k)
  {
  }

  /** The values land in order behind wr, and the cells beyond them keep what they held. */
  lemma {:induction false} RingCell(buf: Ring, wr: nat, vals: seq<int>, k: nat)
    requires wr < BUF_SIZE && |vals| <= BUF_SIZE && k < BUF_SIZE
    ensures StoreRing(buf, wr, vals)[RingIndex(wr, k)] == if k < |vals| then vals[k] else buf[RingIndex(wr, k)]
    decreases |vals|
  {
    if vals == [] {
    } else {
      hide RingIndex;
      var next := NextPtr(wr);
      assert RingIndex(wr, 0) == wr by {
        DivModUnique(wr, BUF_SIZE, 0, wr);
        FirstIndex(wr);
      }
      if k > 0 {
        IndexApart(wr, 0, k);
        NextIndex(wr, k - 1);
        RingCell(buf[wr := vals[0]], next, vals[1..], k - 1);
      } else {
        NextIndex(wr, BUF_SIZE - 1);
        FullTurn(wr);
        RingCell(buf[wr := vals[0]], next, vals[1..], BUF_SIZE - 1);
      }
    }
  }

  lemma FirstIndex(wr: nat)
    requires wr < BUF_SIZE
    ensures RingIndex(wr, 0) == wr
  {
  }

  lemma FullTurn(wr: nat)
    requires wr < BUF_SIZE
    ensures RingIndex(wr, BUF_SIZE) == wr
  {
    DivModUnique(wr + BUF_SIZE, BUF_SIZE, 1, wr);
  }

  // ----- emission

  /** Position between two decoded values, in 256ths, from the accumulator. */
  function Ratio(count: nat, sampleRate: nat): nat
    requires sampleRate >= 100
  {
    count / 100 * 256 / (sampleRate / 100)
  }

  function SampleOf(ip: seq<int>, count: nat, sampleRate: nat): (r: int)
    requires |ip| == 4 && sampleRate >= 100
    ensures OUT_MIN <= r <= OUT_MAX
  {
    Clamp(Interpolate(ip, Ratio(count, sampleRate)), OUT_MIN, OUT_MAX)
  }

  /** Within a nibble the position never leaves the interval, so no intermediate of a sample overflows. */
  lemma SampleFits(ip: seq<int>, count: nat, sampleRate: nat)
    requires Within(ip, 2048) && count < sampleRate && sampleRate >= 100
    ensures Ratio(count, sampleRate) <= 256
    ensures
      var x := Ratio(count, sampleRate);
      InI32(Inner(ip, x)) && InI32(Middle(ip, x)) && InI32(Outer(ip, x)) && InI32(Interpolate(ip, x))
  {
    RatioRange(count / 100, sampleRate / 100);
    InterpolateFits(ip, Ratio(count, sampleRate));
  }

  lemma RatioRange(a: nat, b: nat)
    requires a <= b && b > 0
    ensures a * 256 / b <= 256
  {
    var q, r := a * 256 / b, a * 256 % b;
    if q > 256 {
      MulNonNegative(b, q - 257);
    }
  }

  /** The samples of one input period. */
  function Samples(ip: seq<int>, count: nat, sampleRate: nat, clockRate: nat): (s: seq<int>)
    requires |ip| == 4 && sampleRate >= 100 && clockRate > 0
    ensures |s| == Emits(count, sampleRate, clockRate)
    ensures forall i :: 0 <= i < |s| ==> OUT_MIN <= s[i] <= OUT_MAX
    decreases sampleRate - count
  {
    if count >= sampleRate then []
    else [SampleOf(ip, count, sampleRate)] + Samples(ip, count + clockRate, sampleRate, clockRate)
  }

  /** A channel switched off by the pan bits gets zeros of the same number. */
  function Panned(samples: seq<int>, off: bool): (r: seq<int>)
    ensures |r| == |samples|
  {
    if off then seq(|samples|, _ => 0) else samples
  }

  function PushedFirst(ip: seq<int>, out: int): (r: seq<int>)
    requires |ip| == 4
    ensures |r| == 4
  {
    if ip[0] == -1 then [out, out, out, out] else Pushed(ip, out)
  }

  /** The two channel buffers and the write pointer they share. */
  datatype Rings = Rings(right: Ring, left: Ring, wr: nat)

  /** Samples stored from the write pointer on, each channel switched off by its own pan bit. */
  function Written(r: Rings, samples: seq<int>, pan: u8): Rings
    requires r.wr < BUF_SIZE
  {
    Rings(StoreRing(r.right, r.wr, Panned(samples, pan % 2 == 1)),
          StoreRing(r.left, r.wr, Panned(samples, pan / 2 % 2 == 1)), RingIndex(r.wr, |samples|))
  }

  /** What a nibble emits: nothing unless the unit is playing. */
  function Due(playing: bool, ip: seq<int>, count: nat, sampleRate: nat, clockRate: nat): (s: seq<int>)
    requires |ip| == 4 && sampleRate >= 100 && clockRate > 0
    ensures |s| == if playing then Emits(count, sampleRate, clockRate) else 0
  {
    if playing then Samples(ip, count, sampleRate, clockRate) else []
  }

  lemma NothingDue(playing: bool, ip: seq<int>, count: nat, sampleRate: nat, clockRate: nat, r: Rings, pan: u8)
    requires |ip| == 4 && sampleRate >= 100 && clockRate > 0 && count >= sampleRate && r.wr < BUF_SIZE
    ensures Emits(count, sampleRate, clockRate) == 0
    ensures Written(r, Due(playing, ip, count, sampleRate, clockRate), pan) == r
  {
    StoreNone(r.right, r.wr, pan % 2 == 1);
    StoreNone(r.left, r.wr, pan / 2 % 2 == 1);
  }

  lemma FirstDue(playing: bool, ip: seq<int>, count: nat, sampleRate: nat, clockRate: nat)
    requires |ip| == 4 && sampleRate >= 100 && clockRate > 0 && count < sampleRate
    ensures
      var s, rest :=
        Due(playing, ip, count, sampleRate, clockRate), Due(playing, ip, count + clockRate, sampleRate, clockRate);
      if playing then s != [] && s[0] == SampleOf(ip, count, sampleRate) && InBits(s[0]) && s[1..] == rest
      else s == rest
  {
  }

  /** Storing the first of some samples by hand and the rest afterwards is storing all of them. */
  lemma WrittenFirst(r: Rings, s: seq<int>, pan: u8)
    requires r.wr < BUF_SIZE && s != []
    ensures
      var right, left :=
        r.right[r.wr := if pan % 2 == 0 then s[0] else 0], r.left[r.wr := if pan / 2 % 2 == 0 then s[0] else 0];
      Written(Rings(right, left, NextPtr(r.wr)), s[1..], pan) == Written(r, s, pan)
  {
    PannedTail(s, pan % 2 == 1);
    PannedTail(s, pan / 2 % 2 == 1);
    NextIndex(r.wr, |s| - 1);
    hide Panned, RingIndex;
  }

  lemma AccumulatorStep(c: nat, sampleRate: nat, clockRate: nat)
    requires clockRate > 0 && c < sampleRate
    ensures
      c + clockRate + Emits(c + clockRate, sampleRate, clockRate) * clockRate ==
      c + Emits(c, sampleRate, clockRate) * clockRate
  {
    MulAdds(clockRate, Emits(c + clockRate, sampleRate, clockRate), 1);
  }

  // ----- one nibble

  /** What does not change while nibbles come in. */
  datatype Setup = Setup(dif: DifTable, sampleRate: nat, clockRate: nat, pan: u8, playing: bool)
  {
    predicate Valid() {
      sampleRate >= 100 && clockRate > 0
    }
  }

  /** What a nibble changes. */
  datatype Coder = Coder(step: int, out: int, ip: seq<int>, count: nat, rings: Rings)
  {
    predicate Valid(s: Setup) {
      s.Valid() && DecoderOk(step, out) && |ip| == 4 && count < s.clockRate && rings.wr < BUF_SIZE
    }
  }

  /** Decode the nibble, push the value, and store every sample that falls before the next nibble. */
  function Take(c: Coder, s: Setup, val: u8): (r: Coder)
    requires c.Valid(s)
    ensures r.Valid(s)
  {
    DecoderKeeps(s.dif, c.step, c.out, val % 16);
    var out := NextOut(s.dif, c.step, c.out, val % 16);
    var ip := PushedFirst(c.ip, out);
    Coder(NextStep(c.step, val % 16), out, ip, NextCount(c.count, s.sampleRate, s.clockRate),
          Written(c.rings, Due(s.playing, ip, c.count, s.sampleRate, s.clockRate), s.pan))
  }

  function TakeAll(c: Coder, s: Setup, vals: seq<u8>): (r: Coder)
    requires c.Valid(s)
    ensures r.Valid(s)
  {
    if vals == [] then c else Take(TakeAll(c, s, vals[..|vals| - 1]), s, vals[|vals| - 1])
  }

  /**
   While playing, a run of nibbles moves the write pointer by exactly the rounded-up ratio of
   the rates, less what the accumulator had in hand, and leaves the accumulator in balance.
   */
  lemma TakeAllCounts(c: Coder, s: Setup, vals: seq<u8>)
    requires c.Valid(s) && s.playing
    ensures
      var r, total := TakeAll(c, s, vals), CeilDiv(|vals| * s.sampleRate - c.count, s.clockRate);
      && total >= 0 && r.rings.wr == RingIndex(c.rings.wr, total)
      && r.count + |vals| * s.sampleRate == c.count + total * s.clockRate
  {
    hide Take, RingIndex, Rate, CeilDiv;
    TakeAllIsRate(c, s, vals);
    RateExact(c.count, s.sampleRate, s.clockRate, |vals|);
  }

  lemma {:induction false} TakeAllIsRate(c: Coder, s: Setup, vals: seq<u8>)
    requires c.Valid(s) && s.playing
    ensures
      var r, rate := TakeAll(c, s, vals), Rate(c.count, s.sampleRate, s.clockRate, |vals|);
      r.count == rate.0 && r.rings.wr == RingIndex(c.rings.wr, rate.1)
  {
    hide Emits, Written, Due, NextCount, RingIndex;
    if vals == [] {
      FirstIndex(c.rings.wr);
    } else {
      var rest := vals[..|vals| - 1];
      TakeAllIsRate(c, s, rest);
      TakeCounts(TakeAll(c, s, rest), s, vals[|vals| - 1]);
      IndexSum(c.rings.wr, Rate(c.count, s.sampleRate, s.clockRate, |rest|).1,
               Emits(TakeAll(c, s, rest).count, s.sampleRate, s.clockRate));
    }
  }

  lemma TakeCounts(c: Coder, s: Setup, val: u8)
    requires c.Valid(s) && s.playing
    ensures Take(c, s, val).count == NextCount(c.count, s.sampleRate, s.clockRate)
    ensures Take(c, s, val).rings.wr == RingIndex(c.rings.wr, Emits(c.count, s.sampleRate, s.clockRate))
  {
    hide NextCount, NextOut, NextStep, Emits, RingIndex;
  }

  // ----- a nibble field by field

  /** What a nibble does to the decoder and to the four values it is interpolated from: they shift,
   * or all start anew behind the mark. */
  lemma TakeFields(c: Coder, s: Setup, val: u8)
    requires c.Valid(s)
    ensures
      var r, n := Take(c, s, val), val % 16;
      && r.out == Max(-2048, Min(2047, c.out + s.dif[c.step + n]))
      && r.step == Max(0, Min(768, c.step + [-16, -16, -16, -16, 32, 64, 96, 128][n % 8]))
      && r.ip == if c.ip[0] == -1 then [r.out, r.out, r.out, r.out] else [c.ip[1], c.ip[2], c.ip[3], r.out]
  {
    hide Written, Due, NextCount;
    DecoderLaw(s.dif, c.step, c.out, val % 16);
  }

  /** The k-th sample of a nibble lies k clock rates further, in whole hundreds of the output rate,
   * and is cut to 12 bits. */
  lemma {:induction false} SampleAt(ip: seq<int>, count: nat, sampleRate: nat, clockRate: nat, k: nat)
    requires |ip| == 4 && sampleRate >= 100 && clockRate > 0
    requires k < |Samples(ip, count, sampleRate, clockRate)|
    ensures
      var x := (count + k * clockRate) / 100 * 256 / (sampleRate / 100);
      Samples(ip, count, sampleRate, clockRate)[k] == Max(-2048, Min(2047, Interpolate(ip, x)))
    decreases k
  {
    hide Interpolate, Emits;
    if k == 0 {
    } else {
      SampleAt(ip, count + clockRate, sampleRate, clockRate, k - 1);
      MulAdds(clockRate, k - 1, 1);
      assert count + clockRate + (k - 1) * clockRate == count + k * clockRate;
    }
  }

  /** The lowest pan bit silences the right buffer and the next one the left: zeros instead of the samples. */
  lemma PanBits(r: Rings, samples: seq<int>, pan: u8)
    requires r.wr < BUF_SIZE
    ensures
      var w, silence := Written(r, samples, pan), seq(|samples|, _ => 0);
      && w.right == StoreRing(r.right, r.wr, if Bit(pan, 0) == 1 then silence else samples)
      && w.left == StoreRing(r.left, r.wr, if Bit(pan, 1) == 1 then silence else samples)
      && w.wr == (r.wr + |samples|) % 96000
  {
    hide StoreRing;
  }

  /** The eight clock rates: twelve times 8 or 4 MHz over the divider. */
  lemma ClockRates(c: nat)
    requires c < 8
    ensures CLOCKS[c] * [1024, 768, 512, 768][c % 4] == if c < 4 then 96000000 else 48000000
  {
  }

  // ----- the restart mark of the interpolation

  function PushAll(ip: seq<int>, outs: seq<int>): (r: seq<int>)
    requires |ip| == 4
    ensures |r| == 4
  {
    if outs == [] then ip else PushedFirst(PushAll(ip, outs[..|outs| - 1]), outs[|outs| - 1])
  }

  /** A value fills the whole interpolation if and only if the mark -1 is due, or nothing would change by pushing it. */
  lemma RestartIff(ip: seq<int>, out: int)
    requires |ip| == 4
    ensures PushedFirst(ip, out) == [out, out, out, out] <==> ip[0] == -1 || ip[1] == ip[2] == ip[3] == out
  {
    var r := Pushed(ip, out);
    assert r == [out, out, out, out] <==> r[0] == out && r[1] == out && r[2] == out;
  }

  /** -1 is a legal decoder value too: four values after it the interpolation restarts, with no start command given. */
  lemma MinusOneRestarts(ip: seq<int>, x: int, y: int, z: int, w: int)
    requires |ip| == 4 && -1 !in ip
    ensures PushAll(ip, [-1, x, y, z, w]) == [w, w, w, w]
  {
    PushAllSteps(ip, -1, x, y, z, w);
    assert ip[0] != -1 && ip[1] != -1 && ip[2] != -1 && ip[3] != -1;
  }

  lemma PushAllSteps(ip: seq<int>, a: int, b: int, c: int, d: int, e: int)
    requires |ip| == 4
    ensures
      PushAll(ip, [a, b, c, d, e]) ==
      PushedFirst(PushedFirst(PushedFirst(PushedFirst(PushedFirst(ip, a), b), c), d), e)
  {
    hide PushedFirst;
    assert [a, b, c, d, e][..4] == [a, b, c, d] && [a, b, c, d][..3] == [a, b, c];
    assert [a, b, c][..2] == [a, b] && [a, b][..1] == [a] && [a][..0] == [];
    assert PushAll(ip, [a]) == PushedFirst(ip, a);
    assert PushAll(ip, [a, b]) == PushedFirst(PushedFirst(ip, a), b);
    assert PushAll(ip, [a, b, c]) == PushedFirst(PushedFirst(PushedFirst(ip, a), b), c);
  }

  /** With the entries the table has for them, the nibbles 15 and 3 after a start put -1 where it
   * will be taken for the mark. */
  lemma MinusOneReached(c: Coder, s: Setup)
    requires c.Valid(s) && c.step == 0 && c.out == 0 && c.ip == [-1, -1, -1, -1]
    requires s.dif[15] == -30 && s.dif[8 * 16 + 3] == 29
    ensures TakeAll(c, s, [15, 3]).out == -1 && TakeAll(c, s, [15, 3]).ip == [-30, -30, -30, -1]
  {
    hide Written, Due, NextCount;
    assert [15, 3][..1] == [15] && [15][..0] == [];
    var first := Take(c, s, 15);
    assert TakeAll(c, s, [15]) == first;
    assert first.step == 128 && first.out == -30 && first.ip == [-30, -30, -30, -30];
  }

  const CLOCKS: seq<nat> := [93750, 125000, 187500, 125000, 46875, 62500, 93750, 62500]

  // ----- the ring as a queue

  function Available(rd: nat, wr: nat): (n: nat)
    requires rd < BUF_SIZE && wr < BUF_SIZE
    ensures n < BUF_SIZE && RingIndex(rd, n) == wr
  {
    if wr >= rd then wr - rd
    else
      DivModUnique(wr + BUF_SIZE, BUF_SIZE, 1, wr);
      wr - rd + BUF_SIZE
  }

  /** What has been stored and not yet been read. */
  function Queue(buf: Ring, rd: nat, wr: nat): (q: seq<int>)
    requires rd < BUF_SIZE && wr < BUF_SIZE
    ensures |q| == Available(rd, wr)
  {
    seq(Available(rd, wr), k requires k >= 0 => buf[RingIndex(rd, k)])
  }

  lemma IndexSum(rd: nat, a: nat, b: nat)
    ensures RingIndex(RingIndex(rd, a), b) == RingIndex(rd, a + b)
  {
    var x := rd + a;
    DivModUnique(x % BUF_SIZE + b + x / BUF_SIZE * BUF_SIZE, BUF_SIZE,
                 (x % BUF_SIZE + b) / BUF_SIZE + x / BUF_SIZE, (x % BUF_SIZE + b) % BUF_SIZE);
    assert x % BUF_SIZE + b + x / BUF_SIZE * BUF_SIZE == rd + (a + b);
  }

  /** A distance below a full turn is determined by where it leads. */
  lemma DistanceUnique(rd: nat, wr: nat, n: nat)
    requires rd < BUF_SIZE && wr < BUF_SIZE && n < BUF_SIZE && RingIndex(rd, n) == wr
    ensures n == Available(rd, wr)
  {
    var a := Available(rd, wr);
    if n < a {
      IndexApart(rd, n, a);
    } else if a < n {
      IndexApart(rd, a, n);
    }
  }

  /** As long as the ring does not overflow, storing appends to the queue and disturbs nothing in it. */
  lemma StoreAppends(buf: Ring, rd: nat, wr: nat, vals: seq<int>)
    requires rd < BUF_SIZE && wr < BUF_SIZE && Available(rd, wr) + |vals| < BUF_SIZE
    ensures Queue(StoreRing(buf, wr, vals), rd, RingIndex(wr, |vals|)) == Queue(buf, rd, wr) + vals
  {
    var n := Available(rd, wr);
    var after := StoreRing(buf, wr, vals);
    IndexSum(rd, n, |vals|);
    DistanceUnique(rd, RingIndex(wr, |vals|), n + |vals|);
    forall k | 0 <= k < n + |vals|
      ensures after[RingIndex(rd, k)] == (Queue(buf, rd, wr) + vals)[k]
    {
      StoredBehind(buf, rd, wr, vals, k);
    }
  }

  lemma StoredBehind(buf: Ring, rd: nat, wr: nat, vals: seq<int>, k: nat)
    requires rd < BUF_SIZE && wr < BUF_SIZE && Available(rd, wr) + |vals| < BUF_SIZE && k < Available(rd, wr) + |vals|
    ensures
      StoreRing(buf, wr, vals)[RingIndex(rd, k)] ==
      if k < Available(rd, wr) then buf[RingIndex(rd, k)] else vals[k - Available(rd, wr)]
  {
    var n := Available(rd, wr);
    hide RingIndex, StoreRing, Available;
    var ahead := if k >= n then k - n else k - n + BUF_SIZE;
    RingCell(buf, wr, vals, ahead);
    IndexSum(rd, n, ahead);
    if k < n {
      IndexSum(rd, k, BUF_SIZE);
      FullTurn(RingIndex(rd, k));
    }
  }

  // ----- mixing

  datatype Mixer = Mixer(rd: nat, oldR: int, oldL: int, right: Side, left: Side)
  {
    predicate Valid() {
      rd < BUF_SIZE && |right.ip| == 4 && |left.ip| == 4
    }
  }

  /** What the mixer reads from, and its two settings. */
  datatype Feed = Feed(rings: Rings, lpf: bool, volume: int)
  {
    predicate Valid() {
      rings.wr < BUF_SIZE
    }

    predicate InBounds() {
      AllInBits(rings.right) && AllInBits(rings.left) && 0 <= volume <= 16
    }
  }

  /** One output frame: the next ring entry, or the last one again when the ring is empty; the sides are swapped. */
  function MixStep(m: Mixer, f: Feed): (r: Mixer)
    requires m.Valid()
    ensures r.Valid()
  {
    if f.rings.wr != m.rd then
      var inR, inL := f.rings.left[m.rd], f.rings.right[m.rd];
      Mixer(NextPtr(m.rd), inR, inL, SideStep(m.right, f.lpf, inR, f.volume), SideStep(m.left, f.lpf, inL, f.volume))
    else
      m.(right := SideStep(m.right, f.lpf, m.oldR, f.volume), left := SideStep(m.left, f.lpf, m.oldL, f.volume))
  }

  function MixRun(m: Mixer, f: Feed, n: nat): (r: Mixer)
    requires m.Valid()
    ensures r.Valid()
  {
    if n == 0 then m else MixStep(MixRun(m, f, n - 1), f)
  }

  predicate InBits(x: int) { OUT_MIN <= x <= OUT_MAX }

  predicate AllInBits(s: seq<int>) { forall i :: 0 <= i < |s| ==> InBits(s[i]) }

  predicate MixerBounded(m: Mixer) {
    m.Valid() && InBits(m.oldR) && InBits(m.oldL) && Bounded(m.right.filter) && Bounded(m.left.filter)
  }

  lemma MixKeepsBounds(m: Mixer, f: Feed)
    requires MixerBounded(m) && f.InBounds()
    ensures MixerBounded(MixStep(m, f))
  {
    var r := MixStep(m, f);
    FilterBounded(m.right.filter, r.oldR, f.volume);
    FilterBounded(m.left.filter, r.oldL, f.volume);
  }

  /** The sample the k-th frame works on: the k-th of the queue, and the last one again once it is used up. */
  function FrameIn(queue: seq<int>, last: int, k: nat): int {
    if k < |queue| then queue[k] else if queue == [] then last else queue[|queue| - 1]
  }

  /** One read of a ring: the pointer after it and the value it delivers, seen from where reading started. */
  lemma ReadStep(buf: Ring, rd: nat, wr: nat, last: int, n: nat)
    requires rd < BUF_SIZE && wr < BUF_SIZE
    ensures
      var held := Available(rd, wr);
      var p := RingIndex(rd, Min(n, held));
      && (if wr != p then NextPtr(p) else p) == RingIndex(rd, Min(n + 1, held))
      && FrameIn(Queue(buf, rd, wr), last, n) ==
         (if wr != p then buf[p] else if n == 0 then last else FrameIn(Queue(buf, rd, wr), last, n - 1))
  {
    var held := Available(rd, wr);
    if n < held {
      IndexApart(rd, n, held);
      IndexSum(rd, n, 1);
      StepIndex(RingIndex(rd, n));
    }
    hide RingIndex, Available;
  }

  /** Reading frames takes the queues from the front, the right output from the left queue and the other way round. */
  lemma {:induction false} MixReads(m: Mixer, f: Feed, n: nat)
    requires m.Valid() && f.Valid()
    ensures
      var r, held := MixRun(m, f, n), Available(m.rd, f.rings.wr);
      && r.rd == RingIndex(m.rd, Min(n, held))
      && (n > 0 ==> r.oldR == FrameIn(Queue(f.rings.left, m.rd, f.rings.wr), m.oldR, n - 1))
      && (n > 0 ==> r.oldL == FrameIn(Queue(f.rings.right, m.rd, f.rings.wr), m.oldL, n - 1))
  {
    hide RingIndex, SideStep, Available, Queue, FrameIn, NextPtr;
    if n == 0 {
      FirstIndex(m.rd);
    } else {
      MixReads(m, f, n - 1);
      ReadStep(f.rings.left, m.rd, f.rings.wr, m.oldR, n - 1);
      ReadStep(f.rings.right, m.rd, f.rings.wr, m.oldL, n - 1);
    }
  }

  lemma StepIndex(p: nat)
    requires p < BUF_SIZE
    ensures RingIndex(p, 1) == NextPtr(p)
  {
    NextIndex(p, 0);
    FirstIndex(NextPtr(p));
  }

  function FrameIns(queue: seq<int>, last: int, n: nat): (s: seq<int>)
    ensures |s| == n
  {
    seq(n, k requires k >= 0 => FrameIn(queue, last, k))
  }

  /** Each side of the mixer is the filter and delay run over what its queue delivers. */
  lemma {:induction false} MixIsSideRun(m: Mixer, f: Feed, n: nat)
    requires m.Valid() && f.Valid()
    ensures
      && MixRun(m, f, n).right ==
         SideRun(m.right, f.lpf, FrameIns(Queue(f.rings.left, m.rd, f.rings.wr), m.oldR, n), f.volume)
      && MixRun(m, f, n).left ==
         SideRun(m.left, f.lpf, FrameIns(Queue(f.rings.right, m.rd, f.rings.wr), m.oldL, n), f.volume)
  {
    if n == 0 {
    } else {
      MixIsSideRun(m, f, n - 1);
      MixReads(m, f, n);
      hide Queue, SideStep, RingIndex, Available;
      var r := FrameIns(Queue(f.rings.left, m.rd, f.rings.wr), m.oldR, n);
      var l := FrameIns(Queue(f.rings.right, m.rd, f.rings.wr), m.oldL, n);
      assert r[..n - 1] == FrameIns(Queue(f.rings.left, m.rd, f.rings.wr), m.oldR, n - 1);
      assert l[..n - 1] == FrameIns(Queue(f.rings.right, m.rd, f.rings.wr), m.oldL, n - 1);
    }
  }

  // ----- from nibbles to frames

  /** The samples of a run of nibbles. */
  function DueAll(c: Coder, s: Setup, vals: seq<u8>): seq<int>
    requires c.Valid(s)
  {
    if vals == [] then []
    else DueAll(c, s, vals[..|vals| - 1]) + DueLast(TakeAll(c, s, vals[..|vals| - 1]), s, vals[|vals| - 1])
  }

  function DueLast(c: Coder, s: Setup, val: u8): seq<int>
    requires c.Valid(s)
  {
    Due(s.playing, Take(c, s, val).ip, c.count, s.sampleRate, s.clockRate)
  }

  lemma {:induction false} DueAllCounts(c: Coder, s: Setup, vals: seq<u8>)
    requires c.Valid(s)
    ensures |DueAll(c, s, vals)| == if s.playing then Rate(c.count, s.sampleRate, s.clockRate, |vals|).1 else 0
  {
    hide Take, Emits, Samples;
    if vals == [] {
    } else {
      DueAllCounts(c, s, vals[..|vals| - 1]);
      if s.playing {
        TakeAllIsRate(c, s, vals[..|vals| - 1]);
      }
    }
  }

  lemma PannedSum(a: seq<int>, b: seq<int>, off: bool)
    ensures Panned(a + b, off) == Panned(a, off) + Panned(b, off)
  {
  }

  lemma TakeStores(c: Coder, s: Setup, val: u8)
    requires c.Valid(s)
    ensures Take(c, s, val).rings == Written(c.rings, DueLast(c, s, val), s.pan)
  {
    hide Written, Due, NextCount, NextOut, NextStep, PushedFirst;
  }

  /** One nibble appends its samples to both queues. */
  lemma TakeAppends(c: Coder, s: Setup, val: u8, rd: nat)
    requires c.Valid(s) && rd < BUF_SIZE && Available(rd, c.rings.wr) + |DueLast(c, s, val)| < BUF_SIZE
    ensures
      var r, due := Take(c, s, val).rings, DueLast(c, s, val);
      && Queue(r.right, rd, r.wr) == Queue(c.rings.right, rd, c.rings.wr) + Panned(due, s.pan % 2 == 1)
      && Queue(r.left, rd, r.wr) == Queue(c.rings.left, rd, c.rings.wr) + Panned(due, s.pan / 2 % 2 == 1)
  {
    hide Take, DueLast, Queue, StoreRing, Available, RingIndex, Panned;
    TakeStores(c, s, val);
    StoreAppends(c.rings.right, rd, c.rings.wr, Panned(DueLast(c, s, val), s.pan % 2 == 1));
    StoreAppends(c.rings.left, rd, c.rings.wr, Panned(DueLast(c, s, val), s.pan / 2 % 2 == 1));
  }

  lemma {:induction false} AllAppended(c: Coder, s: Setup, vals: seq<u8>, rd: nat)
    requires c.Valid(s) && rd < BUF_SIZE && Available(rd, c.rings.wr) + |DueAll(c, s, vals)| < BUF_SIZE
    ensures Appends(c, s, vals, rd)
  {
    hide Take, DueLast, Queue, Available, RingIndex, Panned;
    if vals == [] {
      NothingPanned(s.pan % 2 == 1);
      NothingPanned(s.pan / 2 % 2 == 1);
    } else {
      var rest, last := vals[..|vals| - 1], vals[|vals| - 1];
      var before := TakeAll(c, s, rest);
      AllAppended(c, s, rest, rd);
      assert Available(rd, before.rings.wr) == Available(rd, c.rings.wr) + |DueAll(c, s, rest)|;
      TakeAppends(before, s, last, rd);
      PannedSum(DueAll(c, s, rest), DueLast(before, s, last), s.pan % 2 == 1);
      PannedSum(DueAll(c, s, rest), DueLast(before, s, last), s.pan / 2 % 2 == 1);
    }
  }

  /** A run of nibbles adds all its samples, panned, to the two queues. */
  predicate Appends(c: Coder, s: Setup, vals: seq<u8>, rd: nat)
    requires c.Valid(s) && rd < BUF_SIZE
  {
    var r, due := TakeAll(c, s, vals).rings, DueAll(c, s, vals);
    && Queue(r.right, rd, r.wr) == Queue(c.rings.right, rd, c.rings.wr) + Panned(due, s.pan % 2 == 1)
    && Queue(r.left, rd, r.wr) == Queue(c.rings.left, rd, c.rings.wr) + Panned(due, s.pan / 2 % 2 == 1)
  }

  /**
   A run of nibbles appends all its samples to the queues and nothing else if and only if the
   ring has room for them; nothing stops it from overflowing.
   */
  lemma TakeAllAppends(c: Coder, s: Setup, vals: seq<u8>, rd: nat)
    requires c.Valid(s) && rd < BUF_SIZE
    ensures Appends(c, s, vals, rd) <==> Available(rd, c.rings.wr) + |DueAll(c, s, vals)| < BUF_SIZE
  {
    hide Queue, Available, DueAll, TakeAll;
    if Available(rd, c.rings.wr) + |DueAll(c, s, vals)| < BUF_SIZE {
      AllAppended(c, s, vals, rd);
    }
  }

  /** What is left to read is counted modulo the ring: on overflow whole turns are lost. */
  lemma QueueLength(c: Coder, s: Setup, vals: seq<u8>, rd: nat)
    requires c.Valid(s) && s.playing && rd < BUF_SIZE
    ensures
      Available(rd, TakeAll(c, s, vals).rings.wr) == (Available(rd, c.rings.wr) + |DueAll(c, s, vals)|) % BUF_SIZE
  {
    hide TakeAll, DueAll, Rate;
    DueAllCounts(c, s, vals);
    TakeAllIsRate(c, s, vals);
    var x, n := Available(rd, c.rings.wr) + |DueAll(c, s, vals)|, Available(rd, TakeAll(c, s, vals).rings.wr);
    IndexSum(rd, Available(rd, c.rings.wr), |DueAll(c, s, vals)|);
    TurnsDrop(rd, x);
    if n < x % BUF_SIZE {
      IndexApart(rd, n, x % BUF_SIZE);
    } else if n > x % BUF_SIZE {
      IndexApart(rd, x % BUF_SIZE, n);
    }
  }

  lemma TurnsDrop(rd: nat, x: nat)
    ensures RingIndex(rd, x % BUF_SIZE) == RingIndex(rd, x)
  {
    var y := rd + x % BUF_SIZE;
    DivModUnique(rd + x, BUF_SIZE, x / BUF_SIZE + y / BUF_SIZE, y % BUF_SIZE);
  }

  /** At every setting that plays, enough data written between two frames overflow the ring. */
  lemma LongRunsOverflow(c: Coder, s: Setup, vals: seq<u8>, rd: nat)
    requires c.Valid(s) && s.playing && rd < BUF_SIZE && |vals| >= (BUF_SIZE + 1) * s.clockRate
    ensures !Appends(c, s, vals, rd)
  {
    hide TakeAll, DueAll, Rate, Appends, Available;
    TakeAllAppends(c, s, vals, rd);
    DueAllCounts(c, s, vals);
    RateBalance(c.count, s.sampleRate, s.clockRate, |vals|);
    MulNonNegative(|vals|, s.sampleRate - 1);
    MulDistributes(|vals|, s.sampleRate, 1);
    var total := |DueAll(c, s, vals)|;
    MulDistributes(s.clockRate, total, BUF_SIZE);
    MulAtLeast(s.clockRate, total - BUF_SIZE);
  }

  lemma NothingPanned(off: bool)
    ensures Panned([], off) == []
  {
  }

  /**
   From nibbles to frames nothing is lost and nothing invented: what either side of the
   output filters is the queue it had before, then the samples of every nibble in order,
   then the last sample over and over.
   */
  lemma VoiceDelivers(c: Coder, s: Setup, vals: seq<u8>, m: Mixer, lpf: bool, volume: int, n: nat)
    requires c.Valid(s) && m.Valid() && Available(m.rd, c.rings.wr) + |DueAll(c, s, vals)| < BUF_SIZE
    ensures
      var r, due := MixRun(m, Feed(TakeAll(c, s, vals).rings, lpf, volume), n), DueAll(c, s, vals);
      var right := Queue(c.rings.left, m.rd, c.rings.wr) + Panned(due, s.pan / 2 % 2 == 1);
      var left := Queue(c.rings.right, m.rd, c.rings.wr) + Panned(due, s.pan % 2 == 1);
      && r.right == SideRun(m.right, lpf, FrameIns(right, m.oldR, n), volume)
      && r.left == SideRun(m.left, lpf, FrameIns(left, m.oldL, n), volume)
  {
    hide TakeAll, DueAll, Queue, Available, Panned, MixRun, SideRun, FrameIns;
    TakeAllAppends(c, s, vals, m.rd);
    MixIsSideRun(m, Feed(TakeAll(c, s, vals).rings, lpf, volume), n);
  }

  // ----- frames into the caller's ring buffer

  /** Part of the caller's buffer, in frames of two values. */
  datatype Window = Window(start: nat, end: nat)
  {
    predicate Fits(length: nat) {
      start < end && 2 * end <= length
    }

    function Wrap(p: nat): nat {
      if p >= end then start else p
    }

    /** Where the n-th frame goes when the first one is due at pos. */
    function FrameAt(pos: nat, n: nat): nat {
      if n == 0 then Wrap(pos) else Wrap(FrameAt(pos, n - 1) + 1)
    }

    lemma {:induction false} FrameAtIs(pos: nat, n: nat)
      requires start < end && start <= pos <= end
      ensures start <= FrameAt(pos, n) < end && FrameAt(pos, n) == start + (pos - start + n) % (end - start)
    {
      var size := end - start;
      if n == 0 {
        if pos == end {
          DivModUnique(size, size, 1, 0);
        } else {
          DivModUnique(pos - start, size, 0, pos - start);
        }
      } else {
        FrameAtIs(pos, n - 1);
        NextModulo(pos - start + n - 1, size);
      }
    }
  }

  /** The two values of a frame: silence unless playing. */
  function FrameOut(m: Mixer, playing: bool): (int, int)
    requires m.Valid()
  {
    if playing then (SideOut(m.right), SideOut(m.left)) else (0, 0)
  }

  function PutFrame(buf: seq<int>, at: nat, out: (int, int)): (r: seq<int>)
    requires 2 * at + 1 < |buf|
    ensures |r| == |buf|
  {
    buf[2 * at := out.0][2 * at + 1 := out.1]
  }

  function GetFrame(buf: seq<int>, at: nat): (int, int)
    requires 2 * at + 1 < |buf|
  {
    (buf[2 * at], buf[2 * at + 1])
  }

  lemma GetPut(buf: seq<int>, at: nat, out: (int, int), other: nat)
    requires 2 * at + 1 < |buf| && 2 * other + 1 < |buf|
    ensures GetFrame(PutFrame(buf, at, out), other) == if other == at then out else GetFrame(buf, other)
  {
  }

  /** A frame is the right value, then the left one, each the second of its last four cut to 16
   * bits; silence when stopped. */
  lemma FrameLaw(buf: seq<int>, at: nat, m: Mixer, playing: bool)
    requires 2 * at + 1 < |buf| && m.Valid()
    ensures
      PutFrame(buf, at, FrameOut(m, playing)) ==
      if playing
      then buf[2 * at := Max(-32768, Min(32767, m.right.ip[1]))][2 * at + 1 := Max(-32768, Min(32767, m.left.ip[1]))]
      else buf[2 * at := 0][2 * at + 1 := 0]
  {
    InterpolateStart(m.right.ip);
    InterpolateStart(m.left.ip);
    hide Interpolate;
  }

  /** The caller's buffer after n frames. */
  function Sounded(buf: seq<int>, w: Window, pos: nat, m: Mixer, f: Feed, playing: bool, n: nat): (r: seq<int>)
    requires m.Valid() && w.Fits(|buf|) && w.start <= pos <= w.end
    ensures |r| == |buf|
  {
    if n == 0 then buf
    else
      w.FrameAtIs(pos, n - 1);
      PutFrame(Sounded(buf, w, pos, m, f, playing, n - 1), w.FrameAt(pos, n - 1), FrameOut(MixRun(m, f, n), playing))
  }

  lemma NoFrames(buf: seq<int>, w: Window, pos: nat, m: Mixer, f: Feed, playing: bool)
    requires MixerBounded(m) && w.Fits(|buf|) && w.start <= pos <= w.end
    ensures m.Valid() && MixRun(m, f, 0) == m && Sounded(buf, w, pos, m, f, playing, 0) == buf
  {
  }

  lemma NextMix(m: Mixer, f: Feed, n: nat)
    requires m.Valid()
    ensures MixRun(m, f, n + 1) == MixStep(MixRun(m, f, n), f)
  {
  }

  lemma SoundedNext(buf: seq<int>, w: Window, pos: nat, m: Mixer, f: Feed, playing: bool, n: nat)
    requires m.Valid() && w.Fits(|buf|) && w.start <= pos <= w.end
    ensures w.start <= w.FrameAt(pos, n) < w.end
    ensures w.FrameAt(pos, n) == w.Wrap(if n == 0 then pos else w.FrameAt(pos, n - 1) + 1)
    ensures
      Sounded(buf, w, pos, m, f, playing, n + 1) ==
      var out := FrameOut(MixStep(MixRun(m, f, n), f), playing);
      PutFrame(Sounded(buf, w, pos, m, f, playing, n), w.FrameAt(pos, n), out)
  {
    w.FrameAtIs(pos, n);
  }

  /** With at most one window full, every frame is found where it was put. */
  lemma {:induction false} SoundedAt(buf: seq<int>, w: Window, pos: nat, m: Mixer, f: Feed, playing: bool,
                                     n: nat, k: nat)
    requires m.Valid() && w.Fits(|buf|) && w.start <= pos <= w.end && k < n <= w.end - w.start
    ensures 2 * w.FrameAt(pos, k) + 1 < |buf|
    ensures
      GetFrame(Sounded(buf, w, pos, m, f, playing, n), w.FrameAt(pos, k)) == FrameOut(MixRun(m, f, k + 1), playing)
  {
    hide PutFrame, GetFrame, FrameOut, MixRun, Window.FrameAt;
    var before, at, out :=
      Sounded(buf, w, pos, m, f, playing, n - 1), w.FrameAt(pos, n - 1), FrameOut(MixRun(m, f, n), playing);
    w.FrameAtIs(pos, n - 1);
    w.FrameAtIs(pos, k);
    GetPut(before, at, out, w.FrameAt(pos, k));
    if k == n - 1 {
    } else {
      SameRest(pos - w.start + k, n - 1 - k, w.end - w.start);
      SoundedAt(buf, w, pos, m, f, playing, n - 1, k);
    }
  }

  lemma SameRest(x: nat, d: nat, size: nat)
    requires 0 < d < size
    ensures (x + d) % size != x % size
  {
    var q, r := x / size, x % size;
    if r + d < size {
      DivModUnique(x + d, size, q, r + d);
    } else {
      DivModUnique(x + d, size, q + 1, r + d - size);
    }
  }

  // ----- the unit

  class Voice {
    const dif: DifTable
    const bufR: array<int>
    const bufL: array<int>
    var wrPtr: nat
    var sampleRate: nat
    var clockRate: nat
    var count: nat
    var step: int
    var out: int
    var playing: bool
    var clock: nat
    var pan: u8
    var difBuf: nat
    var outsIp: seq<int>
    var mixer: Mixer
    var volume: int

    /** Pointers in range, accumulator below the clock rate, decoder and filters in their bounds. */
    ghost predicate Valid()
      reads this, bufR, bufL
    {
      && bufR.Length == BUF_SIZE && bufL.Length == BUF_SIZE && bufR != bufL
      && AllInBits(bufR[..]) && AllInBits(bufL[..])
      && wrPtr < BUF_SIZE && 100 <= sampleRate < 0x40_0000
      && clock < 8 && clockRate == CLOCKS[clock] && count < clockRate
      && DecoderOk(step, out) && Within(outsIp, 2048)
      && 0 <= volume <= 16 && MixerBounded(mixer)
    }

    /** ADPCM_Init on a fresh unit whose volume has been set; SetPan(0x0b) selects clock 2. */
    constructor (rate: nat, volume: int, dif: DifTable)
      requires 9 <= rate && rate * 12 < 0x40_0000 && 0 <= volume <= 16
      ensures Valid() && !playing && sampleRate == rate * 12 && clockRate == CLOCKS[2]
    {
      this.dif, this.volume, sampleRate := dif, volume, rate * 12;
      bufR := new int[BUF_SIZE](_ => 0);
      bufL := new int[BUF_SIZE](_ => 0);
      wrPtr, count, step, out, playing, difBuf := 0, 0, 0, 0, false, 0;
      pan, clock, clockRate := 0x0b, 2, CLOCKS[2];
      outsIp := [-1, -1, -1, -1];
      var side := Side(Filter(0, 0, 0, 0), [0, 0, 0, 0]);
      mixer := Mixer(0, 0, 0, side, side);
    }

    /** A change of the divider bits restarts the accumulator and takes the new clock rate. */
    method SetPan(n: u8)
      requires Valid()
      modifies `count, `clock, `clockRate, `pan
      ensures Valid() && pan == n
      ensures
        n / 4 % 4 == old(pan) / 4 % 4 ==> count == old(count) && clock == old(clock) && clockRate == old(clockRate)
      ensures n / 4 % 4 != old(pan) / 4 % 4 ==> count == 0 && clock == old(clock) / 4 * 4 + n / 4 % 4
    {
      if pan / 4 % 4 != n / 4 % 4 {
        count := 0;
        clock := clock / 4 * 4 + n / 4 % 4;
        clockRate := CLOCKS[clock];
      }
      pan := n;
    }

    method SetClock(n: nat)
      requires Valid() && (n == 0 || n == 4)
      modifies `count, `clock, `clockRate
      ensures Valid()
      ensures old(clock) / 4 * 4 != n ==> count == 0 && clock == n + pan / 4 % 4
      ensures old(clock) / 4 * 4 == n ==> count == old(count) && clock == old(clock)
    {
      if clock / 4 * 4 != n {
        count := 0;
        clock := n + pan / 4 % 4;
        clockRate := CLOCKS[clock];
      }
    }

    /** One nibble: decode it, then emit every sample that falls before the next one. */
    method WriteOne(val: u8)
      requires Valid()
      modifies `out, `step, `outsIp, `count, `wrPtr, bufR, bufL
      ensures Valid()
      ensures Coding() == Take(old(Coding()), Settings(), val)
    {
      DecoderKeeps(dif, step, out, val % 16);
      out := Clamp(out + dif[step + val % 16], OUT_MIN, OUT_MAX);
      step := Clamp(step + IndexShift(val % 16), 0, STEP_MAX);
      outsIp := if outsIp[0] == -1 then [out, out, out, out] else [outsIp[1], outsIp[2], outsIp[3], out];
      Emit();
    }

    ghost function Stored(): Rings
      requires bufR.Length == BUF_SIZE && bufL.Length == BUF_SIZE
      reads this, bufR, bufL
    {
      Rings(bufR[..], bufL[..], wrPtr)
    }

    /** A start command clears the decoder only when nothing was playing; it always restarts the interpolation. */
    method Command(data: u8)
      requires Valid()
      modifies `playing, `step, `out, `outsIp, `mixer
      ensures Valid()
      ensures playing == if data % 2 == 1 then false else data / 2 % 2 == 1 || old(playing)
      ensures !old(playing) && playing ==> step == 0 && out == 0 && mixer == old(mixer).(oldR := -2, oldL := -2)
      ensures !(!old(playing) && playing) ==> step == old(step) && out == old(out) && mixer == old(mixer)
      ensures outsIp == if data % 2 == 0 && data / 2 % 2 == 1 then [-1, -1, -1, -1] else old(outsIp)
    {
      if data % 2 == 1 {
        playing := false;
      } else if data / 2 % 2 == 1 {
        if !playing {
          step, out, playing := 0, 0, true;
          mixer := mixer.(oldL := -2, oldR := -2);
        }
        outsIp := [-1, -1, -1, -1];
      }
    }

    /** A data byte is two nibbles, the low one first; a stopped unit ignores it. */
    method DataOut(data: u8)
      requires Valid()
      modifies `out, `step, `outsIp, `count, `wrPtr, bufR, bufL
      ensures Valid()
      ensures !playing ==> unchanged(this, bufR, bufL)
      ensures playing ==> Coding() == Take(Take(old(Coding()), Settings(), data % 16), Settings(), data / 16)
    {
      if playing {
        hide Take, MixerBounded, AllInBits, DecoderOk;
        ghost var s, before := Settings(), Coding();
        WriteOne(data % 16);
        assert Settings() == s && Coding() == Take(before, s, data % 16);
        WriteOne(data / 16);
      }
    }

    /** Some frames into the caller's buffer, wrapping at the end of its window. */
    method Update(buffer: array<int>, pos: nat, length: int, w: Window, lpf: bool)
      requires Valid() && buffer != bufR && buffer != bufL
      requires w.Fits(buffer.Length) && w.start <= pos <= w.end
      modifies `mixer, `difBuf, buffer
      ensures Valid()
      ensures length <= 0 ==> unchanged(this, buffer)
      ensures length > 0 ==>
        var f := Feed(Stored(), lpf, volume);
        && mixer == MixRun(old(mixer), f, length)
        && buffer[..] == Sounded(old(buffer[..]), w, pos, old(mixer), f, playing, length)
        && difBuf == Available(mixer.rd, wrPtr)
    {
      if length <= 0 {
        return;
      }
      hide MixerBounded, Sounded, MixRun;
      Frames(buffer, pos, length, w, lpf);
      difBuf := if wrPtr >= mixer.rd then wrPtr - mixer.rd else wrPtr - mixer.rd + BUF_SIZE;
    }

    method Frames(buffer: array<int>, pos: nat, length: nat, w: Window, lpf: bool)
      requires bufR.Length == BUF_SIZE && bufL.Length == BUF_SIZE && AllInBits(bufR[..]) && AllInBits(bufL[..])
      requires wrPtr < BUF_SIZE && 0 <= volume <= 16 && MixerBounded(mixer)
      requires buffer != bufR && buffer != bufL && w.Fits(buffer.Length) && w.start <= pos <= w.end
      modifies `mixer, buffer
      ensures MixerBounded(mixer)
      ensures
        var f := Feed(Stored(), lpf, volume);
        && mixer == MixRun(old(mixer), f, length)
        && buffer[..] == Sounded(old(buffer[..]), w, pos, old(mixer), f, playing, length)
    {
      hide FrameOut, SideStep, MixStep, PutFrame, MixerBounded, Sounded, Window.FrameAt, MixRun;
      ghost var f, buf, m := Feed(Stored(), lpf, volume), buffer[..], mixer;
      NoFrames(buf, w, pos, m, f, playing);
      var n, p := 0, pos;
      while n < length
        invariant n <= length && w.start <= p <= w.end
        invariant p == if n == 0 then pos else w.FrameAt(pos, n - 1) + 1
        invariant MixerBounded(mixer) && mixer == MixRun(m, f, n)
        invariant buffer[..] == Sounded(buf, w, pos, m, f, playing, n)
      {
        p := w.Wrap(p);
        SoundedNext(buf, w, pos, m, f, playing, n);
        NextMix(m, f, n);
        MixKeepsBounds(mixer, f);
        MixOne(lpf);
        PlayFrame(buffer, p);
        n, p := n + 1, p + 1;
      }
    }

    /** Take the next entry of the ring, or the last one again, through both sides. */
    method MixOne(lpf: bool)
      requires bufR.Length == BUF_SIZE && bufL.Length == BUF_SIZE && wrPtr < BUF_SIZE && mixer.Valid()
      modifies `mixer
      ensures mixer == MixStep(old(mixer), Feed(old(Stored()), lpf, volume))
    {
      hide SideStep;
      var rd, outR, outL := mixer.rd, mixer.oldR, mixer.oldL;
      if wrPtr != rd {
        outR, outL := bufL[rd], bufR[rd];
        rd := NextPtr(rd);
      }
      mixer := Mixer(rd, outR, outL, SideStep(mixer.right, lpf, outR, volume), SideStep(mixer.left, lpf, outL, volume));
    }

    method PlayFrame(buffer: array<int>, p: nat)
      requires 2 * p + 1 < buffer.Length && mixer.Valid()
      modifies buffer
      ensures buffer[..] == PutFrame(old(buffer[..]), p, FrameOut(mixer, playing))
    {
      if playing {
        buffer[2 * p] := SideOut(mixer.right);
        buffer[2 * p + 1] := SideOut(mixer.left);
      } else {
        buffer[2 * p], buffer[2 * p + 1] := 0, 0;
      }
    }

    ghost function Coding(): (c: Coder)
      requires Valid()
      reads this, bufR, bufL
      ensures c.Valid(Settings())
    {
      Coder(step, out, outsIp, count, Stored())
    }

    function Settings(): Setup
      reads this
    {
      Setup(dif, sampleRate, clockRate, pan, playing)
    }

    method Emit()
      requires Valid()
      modifies `count, `wrPtr, bufR, bufL
      ensures Valid()
      ensures count == NextCount(old(count), sampleRate, clockRate)
      ensures Stored() == Written(old(Stored()), Due(playing, outsIp, old(count), sampleRate, clockRate), pan)
    {
      hide Written, Due;
      ghost var goal := Written(Stored(), Due(playing, outsIp, count, sampleRate, clockRate), pan);
      ghost var c := count;
      while sampleRate > count
        invariant wrPtr < BUF_SIZE && AllInBits(bufR[..]) && AllInBits(bufL[..])
        invariant
          count + Emits(count, sampleRate, clockRate) * clockRate == c + Emits(c, sampleRate, clockRate) * clockRate
        invariant Written(Stored(), Due(playing, outsIp, count, sampleRate, clockRate), pan) == goal
        decreases sampleRate - count
      {
        EmitOne();
        AccumulatorStep(count, sampleRate, clockRate);
        count := count + clockRate;
      }
      NothingDue(playing, outsIp, count, sampleRate, clockRate, Stored(), pan);
      EmitsBound(c, sampleRate, clockRate);
      assert count - sampleRate == NextCount(c, sampleRate, clockRate);
      count := count - sampleRate;
    }

    /** The body of the loop: one sample to both channels, and the write pointer on. */
    method EmitOne()
      requires bufR.Length == BUF_SIZE && bufL.Length == BUF_SIZE && bufR != bufL && wrPtr < BUF_SIZE
      requires AllInBits(bufR[..]) && AllInBits(bufL[..]) && |outsIp| == 4
      requires 100 <= sampleRate && clockRate > 0 && count < sampleRate
      modifies `wrPtr, bufR, bufL
      ensures wrPtr < BUF_SIZE && AllInBits(bufR[..]) && AllInBits(bufL[..])
      ensures
        Written(Stored(), Due(playing, outsIp, count + clockRate, sampleRate, clockRate), pan) ==
        Written(old(Stored()), Due(playing, outsIp, count, sampleRate, clockRate), pan)
    {
      hide Due, SampleOf, Written;
      FirstDue(playing, outsIp, count, sampleRate, clockRate);
      if playing {
        var tmp := SampleOf(outsIp, count, sampleRate);
        WrittenFirst(Stored(), Due(playing, outsIp, count, sampleRate, clockRate), pan);
        bufR[wrPtr] := if pan % 2 == 0 then tmp else 0;
        bufL[wrPtr] := if pan / 2 % 2 == 0 then tmp else 0;
        wrPtr := NextPtr(wrPtr);
      }
    }
  }

  lemma StoreNone(buf: Ring, wr: nat, off: bool)
    requires wr < BUF_SIZE
    ensures StoreRing(buf, wr, Panned([], off)) == buf && RingIndex(wr, 0) == wr
  {
    FirstIndex(wr);
  }

  lemma PannedTail(s: seq<int>, off: bool)
    requires s != []
    ensures Panned(s, off)[0] == (if off then 0 else s[0]) && Panned(s, off)[1..] == Panned(s[1..], off)
  {
  }
}
