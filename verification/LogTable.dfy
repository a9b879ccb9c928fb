/**
 The log-to-linear table and the sine table of the FM operators. The first 256 pairs of
 the table and the logarithms of the sine come from floating-point formulas and are
 parameters here; the rest of the table is built by halving, 512 entries back.
 */
module LogTable {
  import opened CInt

  const CL_ENTRIES := 0x2000
  const SINE_ENTRIES := 1024

  /** The magnitude at attenuation k: a base entry, halved once for every 256 steps. */
  function Magnitude(v: seq<nat>, k: nat): nat
    requires |v| == 256
  {
    if k < 256 then v[k] else Magnitude(v, k - 256) / 2
  }

  /** The table entry: even indices positive, odd ones negative, each half the one 512 before it. */
  function Entry(v: seq<nat>, a: nat): int
    requires |v| == 256
  {
    if a < 512 then (if a % 2 == 0 then v[a / 2] else -(v[a / 2] as int)) else CDiv(Entry(v, a - 512), 2)
  }

  lemma {:induction false} EntryMagnitude(v: seq<nat>, k: nat)
    requires |v| == 256
    ensures Entry(v, 2 * k) == Magnitude(v, k) && Entry(v, 2 * k + 1) == -(Magnitude(v, k) as int)
  {
    if k < 256 {
    } else {
      EntryMagnitude(v, k - 256);
    }
  }

  predicate NonIncreasing(v: seq<nat>) { forall i, j :: 0 <= i <= j < |v| ==> v[i] >= v[j] }

  lemma {:induction false} MagnitudeStep(v: seq<nat>, k: nat)
    requires |v| == 256 && NonIncreasing(v) && v[0] / 2 <= v[255]
    ensures Magnitude(v, k) >= Magnitude(v, k + 1)
  {
    if k < 256 {
    } else {
      MagnitudeStep(v, k - 256);
    }
  }

  lemma {:induction false} MagnitudeFalls(v: seq<nat>, k: nat, l: nat)
    requires |v| == 256 && NonIncreasing(v) && v[0] / 2 <= v[255] && k <= l
    ensures Magnitude(v, k) >= Magnitude(v, l)
    decreases l
  {
    if k == l {
    } else {
      MagnitudeFalls(v, k, l - 1);
      MagnitudeStep(v, l - 1);
    }
  }

  ghost predicate Falls(v: seq<nat>)
    requires |v| == 256
  {
    forall k: nat, l: nat :: k <= l ==> Magnitude(v, k) >= Magnitude(v, l)
  }

  /** The whole table falls monotonically if and only if its base does and ends at half its start or above. */
  lemma MonotoneIff(v: seq<nat>)
    requires |v| == 256
    ensures Falls(v) <==> NonIncreasing(v) && v[0] / 2 <= v[255]
  {
    if NonIncreasing(v) && v[0] / 2 <= v[255] {
      forall k: nat, l: nat | k <= l
        ensures Magnitude(v, k) >= Magnitude(v, l)
      {
        MagnitudeFalls(v, k, l);
      }
    }
    if Falls(v) {
      assert Magnitude(v, 0) == v[0] && Magnitude(v, 255) == v[255];
      assert Magnitude(v, 255) >= Magnitude(v, 256) == Magnitude(v, 0) / 2;
      forall i, j | 0 <= i <= j < |v|
        ensures v[i] >= v[j]
      {
        assert Magnitude(v, i) >= Magnitude(v, j);
      }
    }
  }

  // ----- lookups

  /** A base that falls from 8 to 1 ends below half its start: the first halved entry is louder than the one before. */
  lemma SteepBaseRises()
    ensures
      var v: seq<nat> := seq(256, i => if i < 128 then 8 else 1);
      NonIncreasing(v) && Magnitude(v, 255) < Magnitude(v, 256) && !Falls(v)
  {
    var v: seq<nat> := seq(256, i => if i < 128 then 8 else 1);
    assert v[0] == 8 && v[255] == 1;
    assert Magnitude(v, 256) == Magnitude(v, 0) / 2;
    MonotoneIff(v);
  }

  /** LogToLin: silence behind the end of the table. */
  function Linear(v: seq<nat>, a: nat): int
    requires |v| == 256
  {
    if a < CL_ENTRIES then Entry(v, a) else 0
  }

  /** The sine table: twice the attenuation, with the sign bit in the second half period. */
  function Sine(s: seq<nat>, i: nat): nat
    requires |s| == SINE_ENTRIES / 2 && i < SINE_ENTRIES
  {
    if i < SINE_ENTRIES / 2 then s[i] * 2 else s[i - SINE_ENTRIES / 2] * 2 + 1
  }

  /** One sample: the envelope and tremolo attenuations added to that of the phase. */
  function SampleAt(v: seq<nat>, s: seq<nat>, envelope: nat, phase: nat): int
    requires |v| == 256 && |s| == SINE_ENTRIES / 2
  {
    Linear(v, envelope + Sine(s, phase % SINE_ENTRIES))
  }

  /** The wave is odd: half a period on, the sample changes sign. */
  lemma HalfPeriod(v: seq<nat>, s: seq<nat>, envelope: nat, phase: nat)
    requires |v| == 256 && |s| == SINE_ENTRIES / 2 && envelope % 2 == 0
    ensures SampleAt(v, s, envelope, phase + 512) == -SampleAt(v, s, envelope, phase)
  {
    hide Entry, Magnitude;
    HalfTurn(phase);
    var i := phase % SINE_ENTRIES;
    var half := if i < 512 then i else i - 512;
    var k := envelope / 2 + s[half];
    EntryMagnitude(v, k);
    EvenSum(envelope, s[half]);
    assert Sine(s, i) == 2 * s[half] + (if i < 512 then 0 else 1);
    assert Sine(s, (phase + 512) % SINE_ENTRIES) == 2 * s[half] + (if i < 512 then 1 else 0);
  }

  lemma EvenSum(envelope: nat, x: nat)
    requires envelope % 2 == 0
    ensures envelope + 2 * x == 2 * (envelope / 2 + x)
  {
  }

  lemma HalfTurn(phase: nat)
    ensures (phase + 512) % 1024 == if phase % 1024 < 512 then phase % 1024 + 512 else phase % 1024 - 512
  {
    var q, r := phase / 1024, phase % 1024;
    if r < 512 {
      DivModUnique(phase + 512, 1024, q, r + 512);
    } else {
      DivModUnique(phase + 512, 1024, q + 1, r - 512);
    }
  }

  /** More attenuation never gets louder, at any phase. */
  lemma NeverLouder(v: seq<nat>, s: seq<nat>, e: nat, e': nat, phase: nat)
    requires |v| == 256 && |s| == SINE_ENTRIES / 2 && NonIncreasing(v) && v[0] / 2 <= v[255]
    requires e % 2 == 0 && e' % 2 == 0 && e <= e'
    ensures Abs(SampleAt(v, s, e', phase)) <= Abs(SampleAt(v, s, e, phase))
  {
    var x := s[phase % SINE_ENTRIES % 512];
    SampleMagnitude(v, s, e, phase);
    SampleMagnitude(v, s, e', phase);
    hide SampleAt;
    MagnitudeFalls(v, e / 2 + x, e' / 2 + x);
  }

  lemma SampleMagnitude(v: seq<nat>, s: seq<nat>, e: nat, phase: nat)
    requires |v| == 256 && |s| == SINE_ENTRIES / 2 && e % 2 == 0
    ensures
      var k := e / 2 + s[phase % SINE_ENTRIES % 512];
      Abs(SampleAt(v, s, e, phase)) == if k < CL_ENTRIES / 2 then Magnitude(v, k) else 0
  {
    var x := s[phase % SINE_ENTRIES % 512];
    hide Entry, Magnitude;
    EntryMagnitude(v, e / 2 + x);
    assert e + x * 2 == 2 * (e / 2 + x);
  }

  /** 256 steps of attenuation halve a base entry, rounding down, as often as there are. */
  lemma {:induction false} MagnitudeIs(v: seq<nat>, k: nat)
    requires |v| == 256
    ensures Magnitude(v, k) == v[k % 256] / Pow2(k / 256)
  {
    if k < 256 {
    } else {
      MagnitudeIs(v, k - 256);
      DivModUnique(k, 256, (k - 256) / 256 + 1, (k - 256) % 256);
      HalveTwice(v[k % 256], Pow2(k / 256 - 1));
    }
  }

  lemma HalfOfPeriod(phase: nat)
    ensures phase % 512 == if phase % 1024 < 512 then phase % 1024 else phase % 1024 - 512
  {
    var q, r := phase / 1024, phase % 1024;
    DivModUnique(phase, 512, if r < 512 then 2 * q else 2 * q + 1, if r < 512 then r else r - 512);
  }

  /**
   One sample in closed form: in steps of a 256th of a halving, half the envelope and the entry of
   the phase in its half period; nothing from 16 halvings on; negative in the second half.
   */
  lemma SampleIs(v: seq<nat>, s: seq<nat>, envelope: nat, phase: nat)
    requires |v| == 256 && |s| == SINE_ENTRIES / 2 && envelope % 2 == 0
    ensures
      var k := envelope / 2 + s[phase % 512];
      var level := if k < 4096 then v[k % 256] / Pow2(k / 256) else 0;
      SampleAt(v, s, envelope, phase) == if phase % 1024 < 512 then level else -level
  {
    hide Entry, Magnitude, Pow2;
    var i, h := phase % 1024, phase % 512;
    HalfOfPeriod(phase);
    var k := envelope / 2 + s[h];
    EntryMagnitude(v, k);
    MagnitudeIs(v, k);
    EvenSum(envelope, s[h]);
  }

  // ----- the tables as they are built

  method MakeTable(v: seq<nat>, s: seq<nat>, cltable: array<int>, sinetable: array<nat>)
    requires |v| == 256 && |s| == SINE_ENTRIES / 2
    requires cltable.Length == CL_ENTRIES && sinetable.Length == SINE_ENTRIES && cltable as object != sinetable
    modifies cltable, sinetable
    ensures forall a :: 0 <= a < CL_ENTRIES ==> cltable[a] == Entry(v, a)
    ensures forall i :: 0 <= i < SINE_ENTRIES ==> sinetable[i] == Sine(s, i)
  {
    var p, i := 0, 0;
    while i < 256
      invariant 0 <= i <= 256 && p == 2 * i
      invariant forall a :: 0 <= a < p ==> cltable[a] == Entry(v, a)
    {
      cltable[p] := v[i];
      p := p + 1;
      cltable[p] := -(v[i] as int);
      p := p + 1;
      i := i + 1;
    }
    while p < CL_ENTRIES
      invariant 512 <= p <= CL_ENTRIES
      invariant forall a :: 0 <= a < p ==> cltable[a] == Entry(v, a)
    {
      cltable[p] := CDiv(cltable[p - 512], 2);
      p := p + 1;
    }
    i := 0;
    while i < SINE_ENTRIES / 2
      invariant 0 <= i <= SINE_ENTRIES / 2
      invariant forall a :: 0 <= a < CL_ENTRIES ==> cltable[a] == Entry(v, a)
      invariant forall j :: 0 <= j < i ==> sinetable[j] == Sine(s, j)
      invariant forall j :: SINE_ENTRIES / 2 <= j < SINE_ENTRIES / 2 + i ==> sinetable[j] == Sine(s, j)
    {
      sinetable[i] := s[i] * 2;
      sinetable[SINE_ENTRIES / 2 + i] := s[i] * 2 + 1;
      i := i + 1;
    }
  }

  /** LogToLin as the operators use it, on the table just built. */
  method LogToLin(cltable: array<int>, a: nat, ghost v: seq<nat>) returns (r: int)
    requires |v| == 256 && cltable.Length == CL_ENTRIES && forall i :: 0 <= i < CL_ENTRIES ==> cltable[i] == Entry(v, i)
    ensures r == Linear(v, a)
  {
    r := if a < CL_ENTRIES then cltable[a] else 0;
  }
}
