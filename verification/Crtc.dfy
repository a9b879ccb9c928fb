/**
 The CRTC registers and the values derived from them: 48 bytes written by byte or by
 word, unused bits cleared on the way in, and the display geometry, scroll positions
 and line counters kept beside them. Raster copy, fast clear and redraw marks are left
 out.
 */
module Crtc {
  import opened CInt

  const COUNT: nat := 48

  type Regs = r: seq<u8> | |r| == COUNT witness seq(COUNT, _ => 0)

  // ----- registers

  /** The bits a register pair keeps of its high byte, as the greatest value. */
  function HighMask(reg: nat): (m: u8) {
    if reg == 0x00 || reg == 0x02 || reg == 0x04 || reg == 0x06 || reg == 0x10 then 0
    else if reg == 0x28 then 7
    else if 0x1c <= reg <= 0x26 then 1
    else if (0x08 <= reg <= 0x1a && reg != 0x10) || reg == 0x2a then 3
    else 0xff
  }

  function LowMask(reg: nat): (m: u8) { if reg == 0x28 then 0x1f else 0xff }

  /** A value cut to a mask of the form 2^k - 1. */
  function Cut(v: u8, mask: u8): (r: u8)
    ensures r <= mask
    ensures v <= mask ==> r == v
  {
    if v <= mask then v else (v as int) % (mask as int + 1)
  }

  predicate RegOk(reg: nat) { reg % 2 == 0 && reg < COUNT }

  function Pair(r: Regs, reg: nat): (w: u16)
    requires RegOk(reg)
  {
    Word(r[reg], r[reg + 1])
  }

  /** No register holds a bit it does not keep. */
  ghost predicate Clean(r: Regs) {
    forall reg: nat :: RegOk(reg) ==> r[reg] <= HighMask(reg) && r[reg + 1] <= LowMask(reg)
  }

  /** The bytes of one access: the even address is the high one. */
  datatype Lanes = Lanes(high: bool, low: bool)

  function Merged(r: Regs, reg: nat, data: u16, lanes: Lanes): Regs
    requires RegOk(reg)
  {
    r[reg := if lanes.high then data / 256 else r[reg]][reg + 1 := if lanes.low then data % 256 else r[reg + 1]]
  }

  function Cleaned(r: Regs, reg: nat): Regs
    requires RegOk(reg)
  {
    r[reg := Cut(r[reg], HighMask(reg))][reg + 1 := Cut(r[reg + 1], LowMask(reg))]
  }

  // ----- geometry

  function HStart(r: Regs): u16 { Pair(r, 0x04) }
  function HEnd(r: Regs): u16 { Pair(r, 0x06) }
  function VStart(r: Regs): u16 { Pair(r, 0x0c) }
  function VEnd(r: Regs): u16 { Pair(r, 0x0e) }

  /** Bits 4 and 2 of the mode: half height, double height, or neither. */
  function Scaled(mode: u8, y: int): int { if Halves(mode) then CDiv(y, 2) else if Doubles(mode) then y * 2 else y }

  predicate Halves(mode: u8) { mode / 16 % 2 == 1 && mode / 4 % 2 == 0 }

  predicate Doubles(mode: u8) { mode / 16 % 2 == 0 && mode / 4 % 2 == 1 }

  predicate Plain(mode: u8) { !Halves(mode) && !Doubles(mode) }

  function StepOf(mode: u8): u8 { if Halves(mode) then 1 else if Doubles(mode) then 4 else 2 }

  /** The registers and the two sizes, which an empty range leaves at what they were. */
  datatype Screen = Screen(r: Regs, x: int, y: int)

  /** A screen whose sizes are those of its ranges wherever the ranges are not empty. */
  ghost predicate InStep(s: Screen) {
    && Clean(s.r) && s.y >= 0
    && (HEnd(s.r) > HStart(s.r) ==> s.x == 8 * (HEnd(s.r) - HStart(s.r)))
    && (VEnd(s.r) > VStart(s.r) ==> s.y == Scaled(s.r[0x29], VEnd(s.r) - VStart(s.r)))
  }

  predicate Horizontal(reg: nat) { reg == 0x04 || reg == 0x06 }
  predicate Vertical(reg: nat) { reg == 0x0c || reg == 0x0e || reg == 0x28 }

  /** What the switch does to the sizes for a register: an empty vertical range scales the height it finds. */
  function Resized(s: Screen, reg: nat): Screen {
    if Horizontal(reg) && HEnd(s.r) > HStart(s.r) then s.(x := 8 * (HEnd(s.r) - HStart(s.r)))
    else if Vertical(reg) then
      s.(y := Scaled(s.r[0x29], if VEnd(s.r) > VStart(s.r) then VEnd(s.r) - VStart(s.r) else s.y))
    else s
  }

  /** One access, with its early return when the data equal the pair as it was. */
  function Write(s: Screen, reg: nat, data: u16, lanes: Lanes): Screen
    requires RegOk(reg)
  {
    var merged := Merged(s.r, reg, data, lanes);
    if data == Pair(s.r, reg) then s.(r := merged) else Resized(s.(r := Cleaned(merged, reg)), reg)
  }

  /** CRTC_Write: an odd address is the low byte of its word, an even one the high byte. */
  function WriteByte(s: Screen, adr: nat, data: u8): Screen
    requires adr < COUNT
  {
    if adr % 2 == 1 then Write(s, adr - 1, data, Lanes(false, true))
    else Write(s, adr, data as int * 256, Lanes(true, false))
  }

  function WriteWord(s: Screen, reg: nat, data: u16): Screen
    requires RegOk(reg)
  {
    Write(s, reg, data, Lanes(true, true))
  }

  // ----- an access from what it writes

  /** The registers after an access of either kind, on clean registers: the written bytes cut to
   * their masks, the rest as before. */
  function Put(r: Regs, reg: nat, data: u16, lanes: Lanes): Regs
    requires RegOk(reg)
  {
    r[reg := if lanes.high then Cut(data / 256, HighMask(reg)) else r[reg]]
     [reg + 1 := if lanes.low then Cut(data % 256, LowMask(reg)) else r[reg + 1]]
  }

  /** Whether some lane is written, and the lane that is not carries 0, as the byte access passes it. */
  predicate Access(data: u16, lanes: Lanes) {
    (lanes.high || lanes.low) && (!lanes.high ==> data / 256 == 0) && (!lanes.low ==> data % 256 == 0)
  }

  lemma PairParts(high: u8, low: u8)
    ensures Word(high, low) / 256 == high && Word(high, low) % 256 == low
  {
    DivModUnique(Word(high, low), 256, high, low);
  }

  /** Every access leaves the written bytes cut to their masks, whether or not it returns early. */
  lemma WriteStores(s: Screen, reg: nat, data: u16, lanes: Lanes)
    requires RegOk(reg) && Clean(s.r) && Access(data, lanes)
    ensures Write(s, reg, data, lanes).r == Put(s.r, reg, data, lanes)
    ensures data == Pair(s.r, reg) ==> Write(s, reg, data, lanes) == s
    ensures Clean(Put(s.r, reg, data, lanes))
  {
    PairParts(s.r[reg], s.r[reg + 1]);
    hide HighMask, LowMask, Word, Cut, Resized;
    assert s.r[reg] <= HighMask(reg) && s.r[reg + 1] <= LowMask(reg);
    PutKeeps(s.r, reg, data, lanes);
    var merged, put := Merged(s.r, reg, data, lanes), Put(s.r, reg, data, lanes);
    if data == Pair(s.r, reg) {
      assert merged == s.r == put;
    } else {
      assert Cleaned(merged, reg) == put;
    }
  }

  lemma PutKeeps(r: Regs, reg: nat, data: u16, lanes: Lanes)
    requires RegOk(reg) && Clean(r)
    ensures Clean(Put(r, reg, data, lanes))
  {
    hide HighMask, LowMask, Cut;
    var put := Put(r, reg, data, lanes);
    forall other: nat | RegOk(other)
      ensures put[other] <= HighMask(other) && put[other + 1] <= LowMask(other)
    {
      assert r[other] <= HighMask(other) && r[other + 1] <= LowMask(other);
    }
  }

  /** The early return skips nothing: run on, the switch would find the sizes it would leave. An
   * empty vertical range is the exception. */
  lemma EarlyReturnSkipsNothing(s: Screen, reg: nat, data: u16, lanes: Lanes)
    requires RegOk(reg) && InStep(s) && Access(data, lanes) && data == Pair(s.r, reg)
    ensures Write(s, reg, data, lanes) == s
    ensures
      Resized(s, reg) == s <==> !(Vertical(reg) && VEnd(s.r) <= VStart(s.r) && !Plain(s.r[0x29]) && s.y != 0)
  {
    WriteStores(s, reg, data, lanes);
    hide Pair, Write, Put, Clean;
  }

  /** From power-on: half height set over no range leaves 256, and the same word once more 256, not 128. */
  lemma SecondTimeReturns(start: Screen)
    requires PowerOn(start)
    ensures
      var s := WriteWord(start, 0x28, 0x0010);
      && s.y == 256 && Pair(s.r, 0x28) == 0x0010 && WriteWord(s, 0x28, 0x0010) == s && Resized(s, 0x28).y == 128
  {
    hide Write, Clean, InStep, Put, PowerOn, Resized, Pair, Scaled, Plain, VStart, VEnd, HighMask, LowMask, Cut;
    PowerOnInStep(start);
    AfterMode(start, 0x10, 0);
    var s := WriteWord(start, 0x28, 0x0010);
    HalfHeight(s);
    Halved(512);
    Halved(256);
    EarlyReturnSkipsNothing(s, 0x28, 0x0010, Lanes(true, true));
  }

  lemma HalfHeight(s: Screen)
    requires VEnd(s.r) == VStart(s.r) == 0 && s.r[0x28] == 0 && s.r[0x29] == 0x10
    ensures Resized(s, 0x28).y == Scaled(0x10, s.y) && Pair(s.r, 0x28) == 0x0010
  {
    hide Scaled;
  }

  lemma Halved(y: nat)
    ensures Scaled(0x10, y) == y / 2 && Access(0x0010, Lanes(true, true)) && !Plain(0x10)
  {
    assert Halves(0x10);
  }

  /** A register outside the two ranges leaves what the sizes depend on alone. */
  lemma PutElsewhere(r: Regs, reg: nat, data: u16, lanes: Lanes)
    requires RegOk(reg)
    ensures
      !Horizontal(reg) ==> HStart(Put(r, reg, data, lanes)) == HStart(r) && HEnd(Put(r, reg, data, lanes)) == HEnd(r)
    ensures
      !Vertical(reg) ==>
      && VStart(Put(r, reg, data, lanes)) == VStart(r) && VEnd(Put(r, reg, data, lanes)) == VEnd(r)
      && Put(r, reg, data, lanes)[0x29] == r[0x29]
  {
    hide HighMask, LowMask, Cut, Word;
  }

  /** Every access, early return or not, keeps the sizes in step with the registers. */
  lemma WriteKeepsInStep(s: Screen, reg: nat, data: u16, lanes: Lanes)
    requires RegOk(reg) && InStep(s) && Access(data, lanes)
    ensures InStep(Write(s, reg, data, lanes))
  {
    WriteStores(s, reg, data, lanes);
    PutElsewhere(s.r, reg, data, lanes);
    hide Pair, Scaled, Clean, Put, Merged, Cleaned;
  }

  // ----- runs

  datatype Access16 = Access16(reg: nat, data: u16, lanes: Lanes)
  {
    predicate Valid() { RegOk(reg) && Access(data, lanes) }
  }

  function WriteAll(s: Screen, run: seq<Access16>): Screen
    requires forall i :: 0 <= i < |run| ==> run[i].Valid()
    decreases |run|
  {
    if run == [] then s
    else
      assert run[0].Valid();
      WriteAll(Write(s, run[0].reg, run[0].data, run[0].lanes), run[1..])
  }

  ghost predicate PowerOn(s: Screen) {
    (forall i :: 0 <= i < COUNT ==> s.r[i] == 0) && s.x == 768 && s.y == 512
  }

  lemma PowerOnInStep(s: Screen)
    requires PowerOn(s)
    ensures InStep(s) && s.y == 512 && s.r[0x28] == 0
    ensures HStart(s.r) == 0 && HEnd(s.r) == 0 && VStart(s.r) == 0 && VEnd(s.r) == 0 && s.r[0x29] == 0
  {
    hide HighMask, LowMask;
  }

  lemma PairAtPowerOn(s: Screen, reg: nat)
    requires PowerOn(s) && RegOk(reg)
    ensures Pair(s.r, reg) == 0
  {
  }

  lemma {:induction false} RunKeepsInStep(s: Screen, run: seq<Access16>)
    requires InStep(s) && forall i :: 0 <= i < |run| ==> run[i].Valid()
    ensures InStep(WriteAll(s, run))
    decreases |run|
  {
    if run == [] {
    } else {
      WriteKeepsInStep(s, run[0].reg, run[0].data, run[0].lanes);
      RunKeepsInStep(Write(s, run[0].reg, run[0].data, run[0].lanes), run[1..]);
    }
  }

  /** From power-on, whatever is written in whatever portions, the sizes are those of the ranges. */
  lemma GeometryFromPowerOn(start: Screen, run: seq<Access16>)
    requires PowerOn(start) && forall i :: 0 <= i < |run| ==> run[i].Valid()
    ensures
      var s := WriteAll(start, run);
      && (HEnd(s.r) > HStart(s.r) ==> s.x == 8 * (HEnd(s.r) - HStart(s.r)))
      && (VEnd(s.r) > VStart(s.r) ==> s.y == Scaled(s.r[0x29], VEnd(s.r) - VStart(s.r)))
  {
    PowerOnInStep(start);
    RunKeepsInStep(start, run);
  }

  // ----- bytes and words

  /** The two bytes of a pair, either first, store what the word stores. */
  lemma PutBytes(r: Regs, reg: nat, high: u8, low: u8)
    requires RegOk(reg)
    ensures
      var word := Put(r, reg, Word(high, low), Lanes(true, true));
      && Put(Put(r, reg, high as int * 256, Lanes(true, false)), reg, low, Lanes(false, true)) == word
      && Put(Put(r, reg, low, Lanes(false, true)), reg, high as int * 256, Lanes(true, false)) == word
  {
    PairParts(high, low);
    PairParts(high, 0);
    PairParts(0, low);
    hide HighMask, LowMask, Cut;
  }

  /** Two byte accesses, in either order, end as the word access does: in the same registers, and in
   * the same size of every range that is not empty in the end. */
  lemma BytesAreWord(s: Screen, reg: nat, high: u8, low: u8)
    requires RegOk(reg) && InStep(s)
    ensures
      var word := WriteWord(s, reg, Word(high, low));
      var highFirst, lowFirst :=
        WriteByte(WriteByte(s, reg, high), reg + 1, low), WriteByte(WriteByte(s, reg + 1, low), reg, high);
      && highFirst.r == lowFirst.r == word.r
      && (HEnd(word.r) > HStart(word.r) ==> highFirst.x == lowFirst.x == word.x)
      && (VEnd(word.r) > VStart(word.r) ==> highFirst.y == lowFirst.y == word.y)
  {
    hide Write, WriteByte, Put, InStep, Middle, AfterBytes, HStart, HEnd, VStart, VEnd;
    var up, down := Bytes(high, low, true), Bytes(high, low, false);
    BytesStored(s, reg, up);
    BytesStored(s, reg, down);
    AfterBytesIs(s, reg, up);
    AfterBytesIs(s, reg, down);
    SizesFromRegs(AfterBytes(s, reg, up), WriteWord(s, reg, Word(high, low)));
    SizesFromRegs(AfterBytes(s, reg, down), WriteWord(s, reg, Word(high, low)));
  }

  /** In step, the registers determine the sizes of the ranges that are not empty. */
  lemma SizesFromRegs(s: Screen, t: Screen)
    requires InStep(s) && InStep(t) && s.r == t.r
    ensures HEnd(t.r) > HStart(t.r) ==> s.x == t.x
    ensures VEnd(t.r) > VStart(t.r) ==> s.y == t.y
  {
  }

  lemma StoresInStep(s: Screen, reg: nat, data: u16, lanes: Lanes)
    requires RegOk(reg) && InStep(s) && Access(data, lanes)
    ensures InStep(Write(s, reg, data, lanes)) && Write(s, reg, data, lanes).r == Put(s.r, reg, data, lanes)
  {
    WriteStores(s, reg, data, lanes);
    WriteKeepsInStep(s, reg, data, lanes);
  }

  // ----- empty ranges

  function VRange(r: Regs): int { VEnd(r) - VStart(r) }

  function HRange(r: Regs): int { HEnd(r) - HStart(r) }

  /** Over an empty vertical range every access that runs the switch scales the height it finds, and
   * one that returns early leaves it. */
  lemma EmptyRangeScalesEachTime(s: Screen, reg: nat, data: u16, lanes: Lanes)
    requires InStep(s) && RegOk(reg) && Vertical(reg) && Access(data, lanes) && VRange(Put(s.r, reg, data, lanes)) <= 0
    ensures
      Write(s, reg, data, lanes).y ==
      if data == Pair(s.r, reg) then s.y else Scaled(Put(s.r, reg, data, lanes)[0x29], s.y)
  {
    hide Clean, Pair, Put, Scaled;
    WriteStores(s, reg, data, lanes);
  }

  /** An access over an empty horizontal range leaves the width. */
  lemma EmptyRangeKeepsWidth(s: Screen, reg: nat, data: u16, lanes: Lanes)
    requires InStep(s) && RegOk(reg) && Access(data, lanes) && HRange(Put(s.r, reg, data, lanes)) <= 0
    ensures Write(s, reg, data, lanes).x == s.x
  {
    hide Clean, Pair, Put, Scaled;
    WriteStores(s, reg, data, lanes);
  }

  /** The two byte accesses of a word in one of the two orders. */
  datatype Bytes = Bytes(high: u8, low: u8, highFirst: bool)
  {
    function Data(first: bool): u16 { if first == highFirst then high as int * 256 else low }

    function Lane(first: bool): Lanes { Lanes(first == highFirst, first != highFirst) }

    lemma Accesses()
      ensures Access(Data(true), Lane(true))
      ensures Access(Data(false), Lane(false))
      ensures Access(Word(high, low), Lanes(true, true))
    {
      PairParts(high, 0);
      PairParts(0, low);
    }
  }

  function Middle(s: Screen, reg: nat, b: Bytes): Screen
    requires RegOk(reg)
  {
    Write(s, reg, b.Data(true), b.Lane(true))
  }

  function AfterBytes(s: Screen, reg: nat, b: Bytes): Screen
    requires RegOk(reg)
  {
    Write(Middle(s, reg, b), reg, b.Data(false), b.Lane(false))
  }

  /** They are what two byte writes at neighbouring addresses do. */
  lemma AfterBytesIs(s: Screen, reg: nat, b: Bytes)
    requires RegOk(reg)
    ensures
      AfterBytes(s, reg, b) ==
      if b.highFirst then WriteByte(WriteByte(s, reg, b.high), reg + 1, b.low)
      else WriteByte(WriteByte(s, reg + 1, b.low), reg, b.high)
  {
    hide Write;
    assert (reg + 1) % 2 == 1;
  }

  /**
   When the heights agree over a range that is empty in the end: with a range in between, its
   height scaled once more is that of before; without one, the accesses run the switch equally
   often, or the mode of the additional run fixes the height that it finds.
   */
  predicate HeightsAgree(s: Screen, mid: Regs, mode: u8, first: bool, second: bool, word: bool) {
    if VRange(mid) > 0 then
      if Halves(mode) then VRange(mid) / 4 == s.y / 2
      else if Doubles(mode) then 2 * VRange(mid) == s.y
      else VRange(mid) == s.y
    else if word then
      first && second ==> Plain(mid[0x29]) || s.y == 0 || (Halves(mid[0x29]) && Halves(mode) && s.y == 1)
    else
      first || second ==> Plain(mode) || s.y == 0
  }

  /** For every register, both orders and all states: when two byte accesses leave the height of the word access. */
  lemma HeightsAgreeIff(s: Screen, reg: nat, b: Bytes)
    requires RegOk(reg) && InStep(s)
    ensures
      var word, mid := WriteWord(s, reg, Word(b.high, b.low)), Middle(s, reg, b);
      AfterBytes(s, reg, b).y == word.y <==>
      || VRange(word.r) > 0 || !Vertical(reg)
      || HeightsAgree(s, mid.r, word.r[0x29], b.Data(true) != Pair(s.r, reg), b.Data(false) != Pair(mid.r, reg),
                      Word(b.high, b.low) != Pair(s.r, reg))
  {
    hide Write, Put, Clean, Scaled, Pair, HeightsAgree, InStep;
    b.Accesses();
    BytesStored(s, reg, b);
    AfterBytesIs(s, reg, b);
    BytesAreWord(s, reg, b.high, b.low);
    var w := WriteWord(s, reg, Word(b.high, b.low));
    if !Vertical(reg) {
      OtherHeight(s, reg, Word(b.high, b.low), Lanes(true, true));
      OtherHeight(s, reg, b.Data(true), b.Lane(true));
      OtherHeight(Middle(s, reg, b), reg, b.Data(false), b.Lane(false));
    } else if VRange(w.r) <= 0 {
      EmptyRangeHeights(s, reg, b);
    }
  }

  lemma OtherHeight(s: Screen, reg: nat, data: u16, lanes: Lanes)
    requires RegOk(reg) && !Vertical(reg)
    ensures Write(s, reg, data, lanes).y == s.y
  {
  }

  /** What the three accesses store, and that they keep in step. */
  lemma BytesStored(s: Screen, reg: nat, b: Bytes)
    requires RegOk(reg) && InStep(s)
    ensures
      var w, mid, after := WriteWord(s, reg, Word(b.high, b.low)), Middle(s, reg, b), AfterBytes(s, reg, b);
      && w.r == after.r == Put(s.r, reg, Word(b.high, b.low), Lanes(true, true)) ==
         Put(mid.r, reg, b.Data(false), b.Lane(false))
      && mid.r == Put(s.r, reg, b.Data(true), b.Lane(true)) && InStep(w) && InStep(mid) && InStep(after)
  {
    hide Write, Put, InStep;
    b.Accesses();
    PutBytes(s.r, reg, b.high, b.low);
    StoresInStep(s, reg, Word(b.high, b.low), Lanes(true, true));
    StoresInStep(s, reg, b.Data(true), b.Lane(true));
    StoresInStep(Middle(s, reg, b), reg, b.Data(false), b.Lane(false));
  }

  /** Which of the accesses return early, seen from the registers they leave. */
  lemma EarlyReturns(s: Screen, reg: nat, b: Bytes)
    requires RegOk(reg) && InStep(s)
    ensures
      var w, mid := WriteWord(s, reg, Word(b.high, b.low)), Middle(s, reg, b);
      var first, second := b.Data(true) != Pair(s.r, reg), b.Data(false) != Pair(mid.r, reg);
      && (!first ==> mid.r == s.r) && (!second ==> w.r == mid.r)
      && (Word(b.high, b.low) == Pair(s.r, reg) ==> w.r == mid.r == s.r)
      && (Word(b.high, b.low) != Pair(s.r, reg) ==> first || second)
  {
    hide Write, InStep, Cut, HighMask, LowMask;
    BytesStored(s, reg, b);
    b.Accesses();
    ReturnStores(s, reg, b.Data(true), b.Lane(true));
    ReturnStores(Middle(s, reg, b), reg, b.Data(false), b.Lane(false));
    SameWord(s, reg, b);
  }

  lemma ReturnStores(s: Screen, reg: nat, data: u16, lanes: Lanes)
    requires RegOk(reg) && InStep(s) && Access(data, lanes)
    ensures data == Pair(s.r, reg) ==> Put(s.r, reg, data, lanes) == s.r
  {
    hide Write, Put;
    WriteStores(s, reg, data, lanes);
  }

  /** A word that is there already is there byte by byte; and two bytes that both are there are that word. */
  lemma SameWord(s: Screen, reg: nat, b: Bytes)
    requires RegOk(reg) && InStep(s)
    ensures
      var mid := Put(s.r, reg, b.Data(true), b.Lane(true));
      && (Word(b.high, b.low) == Pair(s.r, reg) ==>
          mid == s.r && Put(s.r, reg, Word(b.high, b.low), Lanes(true, true)) == s.r)
      && (b.Data(true) == Pair(s.r, reg) && b.Data(false) == Pair(s.r, reg) ==> Word(b.high, b.low) == Pair(s.r, reg))
  {
    hide Write, Put, Word, InStep;
    BothBytes(b.high, b.low);
    if Word(b.high, b.low) == Pair(s.r, reg) {
      PairParts(b.high, b.low);
      PairParts(s.r[reg], s.r[reg + 1]);
      CleanAt(s, reg);
      PutSame(s.r, reg, b.Data(true), b.Lane(true));
      PutSame(s.r, reg, Word(b.high, b.low), Lanes(true, true));
    }
  }

  lemma CleanAt(s: Screen, reg: nat)
    requires RegOk(reg) && InStep(s)
    ensures s.r[reg] <= HighMask(reg) && s.r[reg + 1] <= LowMask(reg)
  {
  }

  /** Bytes that are there already leave everything as it is. */
  lemma PutSame(r: Regs, reg: nat, data: u16, lanes: Lanes)
    requires RegOk(reg) && r[reg] <= HighMask(reg) && r[reg + 1] <= LowMask(reg)
    requires (lanes.high ==> data / 256 == r[reg]) && (lanes.low ==> data % 256 == r[reg + 1])
    ensures Put(r, reg, data, lanes) == r
  {
    hide HighMask, LowMask, Cut;
    CutKept(r[reg], HighMask(reg));
    CutKept(r[reg + 1], LowMask(reg));
    assert r[reg := r[reg]] == r && r[reg + 1 := r[reg + 1]] == r;
  }

  lemma BothBytes(high: u8, low: u8)
    ensures high as int * 256 == low ==> Word(high, low) == low
    ensures Word(high, 0) == high as int * 256 && Word(0, low) == low
    ensures (high as int * 256) / 256 == high && (high as int * 256) % 256 == 0 && low / 256 == 0 && low % 256 == low
  {
    PairParts(high, 0);
    PairParts(0, low);
  }

  lemma CutKept(v: u8, mask: u8)
    requires v <= mask
    ensures Cut(v, mask) == v
  {
  }

  lemma EmptyRangeHeights(s: Screen, reg: nat, b: Bytes)
    requires RegOk(reg) && InStep(s) && Vertical(reg) && VRange(WriteWord(s, reg, Word(b.high, b.low)).r) <= 0
    ensures
      var word, mid := WriteWord(s, reg, Word(b.high, b.low)), Middle(s, reg, b);
      AfterBytes(s, reg, b).y == word.y <==>
      HeightsAgree(s, mid.r, word.r[0x29], b.Data(true) != Pair(s.r, reg), b.Data(false) != Pair(mid.r, reg),
                   Word(b.high, b.low) != Pair(s.r, reg))
  {
    hide Write, Put, Clean, Pair, VStart, VEnd, Halves, Doubles;
    var w, mid := WriteWord(s, reg, Word(b.high, b.low)), Middle(s, reg, b);
    b.Accesses();
    BytesStored(s, reg, b);
    EarlyReturns(s, reg, b);
    EmptyRangeScalesEachTime(s, reg, Word(b.high, b.low), Lanes(true, true));
    EmptyRangeScalesEachTime(mid, reg, b.Data(false), b.Lane(false));
    if VRange(mid.r) > 0 {
      SameMode(s, reg, b);
    } else {
      EmptyRangeScalesEachTime(s, reg, b.Data(true), b.Lane(true));
    }
  }

  /** A range that comes and goes does so without a change of mode. */
  lemma SameMode(s: Screen, reg: nat, b: Bytes)
    requires RegOk(reg) && InStep(s) && Vertical(reg)
    requires VRange(Middle(s, reg, b).r) > 0 >= VRange(WriteWord(s, reg, Word(b.high, b.low)).r)
    ensures Middle(s, reg, b).r[0x29] == WriteWord(s, reg, Word(b.high, b.low)).r[0x29]
  {
    hide Write, Cut, HighMask, LowMask, InStep, Word;
    BytesStored(s, reg, b);
  }

  /** They always leave its width: no byte of a horizontal pair is kept but the low one. */
  lemma WidthsAgree(s: Screen, reg: nat, b: Bytes)
    requires RegOk(reg) && InStep(s)
    ensures AfterBytes(s, reg, b).x == WriteWord(s, reg, Word(b.high, b.low)).x
  {
    hide Write, Put, Clean, Pair, VStart, VEnd, HStart, HEnd;
    var w, mid := WriteWord(s, reg, Word(b.high, b.low)), Middle(s, reg, b);
    b.Accesses();
    BytesStored(s, reg, b);
    AfterBytesIs(s, reg, b);
    BytesAreWord(s, reg, b.high, b.low);
    if HRange(w.r) <= 0 {
      EmptyRangeKeepsWidth(s, reg, Word(b.high, b.low), Lanes(true, true));
      EmptyRangeKeepsWidth(mid, reg, b.Data(false), b.Lane(false));
      if HRange(mid.r) <= 0 {
        EmptyRangeKeepsWidth(s, reg, b.Data(true), b.Lane(true));
      } else {
        NoRangeBetween(s, reg, b);
      }
    }
  }

  /** A range that is there between the two bytes only, was there before. */
  lemma NoRangeBetween(s: Screen, reg: nat, b: Bytes)
    requires RegOk(reg) && InStep(s)
    requires HRange(Middle(s, reg, b).r) > 0 >= HRange(WriteWord(s, reg, Word(b.high, b.low)).r)
    ensures Middle(s, reg, b).x == s.x
  {
    hide Write, Word;
    BytesStored(s, reg, b);
    CleanAt(s, reg);
    CleanAt(Middle(s, reg, b), reg);
  }

  /** From power-on: double height and then half height with no range set leave 512, which a word
   * makes 256 and its two bytes 128. */
  lemma HalvedTwice(start: Screen)
    requires PowerOn(start)
    ensures
      var s := WriteWord(WriteWord(start, 0x28, 0x0004), 0x28, 0x0010);
      && s.y == 512 && WriteWord(s, 0x0c, Word(1, 1)).y == 256
      && WriteByte(WriteByte(s, 0x0c, 1), 0x0d, 1).y == 128
  {
    hide Write, Clean, InStep, Put, Pair, PowerOn, Word;
    PowerOnInStep(start);
    var s := WriteWord(WriteWord(start, 0x28, 0x0004), 0x28, 0x0010);
    AfterMode(start, 0x04, 0);
    AfterMode(WriteWord(start, 0x28, 0x0004), 0x10, 4);
    assert s.y == 512;
    HighStart(s.r);
    StartMoved(s, Word(1, 1), Lanes(true, true));
    StartMoved(s, 256, Lanes(true, false));
    StartMoved(Write(s, 0x0c, 256, Lanes(true, false)), 1, Lanes(false, true));
  }

  lemma HighStart(r: Regs)
    requires VStart(r) == 0
    ensures VStart(Put(r, 0x0c, 256, Lanes(true, false))) == 256 && Word(1, 1) == 257
    ensures Access(Word(1, 1), Lanes(true, true)) && Access(256, Lanes(true, false)) && Access(1, Lanes(false, true))
  {
    PairParts(r[0x0c], r[0x0d]);
    assert r[0x0c] == 0 && r[0x0d] == 0 && HighMask(0x0c) == 3 && Cut(1, 3) == 1;
    hide HighMask, LowMask, Cut;
  }

  /** A mode set over an empty range on otherwise cleared vertical registers. */
  lemma AfterMode(s: Screen, mode: u8, before: u8)
    requires InStep(s) && s.r[0x28] == 0 && s.r[0x29] == before && mode <= 0x1f && mode != before
    requires VStart(s.r) == VEnd(s.r) == 0
    ensures
      var r := WriteWord(s, 0x28, mode);
      && InStep(r) && r.y == Scaled(mode, s.y) && r.r[0x28] == 0 && r.r[0x29] == mode && VStart(r.r) == VEnd(r.r) == 0
  {
    hide Write, Clean, InStep;
    DivModUnique(mode, 256, 0, mode);
    StoresInStep(s, 0x28, mode, Lanes(true, true));
    EmptyRangeScalesEachTime(s, 0x28, mode, Lanes(true, true));
  }

  lemma StartMoved(s: Screen, data: u16, lanes: Lanes)
    requires InStep(s) && Access(data, lanes) && VEnd(s.r) == 0 && s.r[0x29] == 0x10 && data != VStart(s.r)
    ensures
      var r := Write(s, 0x0c, data, lanes);
      && InStep(r) && r.y == CDiv(s.y, 2) && VEnd(r.r) == 0 && r.r[0x29] == 0x10
      && r.r == Put(s.r, 0x0c, data, lanes)
  {
    hide Write, Clean, InStep, Put, Pair;
    PutIsOnlyPair(s.r, 0x0c, data, lanes);
    StoresInStep(s, 0x0c, data, lanes);
    EmptyRangeScalesEachTime(s, 0x0c, data, lanes);
  }

  // ----- register by register

  /** What the high byte of each of the 24 pairs keeps; of the low bytes only that of the mode keeps less than all. */
  const HIGH_MASKS: seq<u8> := [0, 0, 0, 0, 3, 3, 3, 3, 0, 3, 3, 3, 3, 3, 1, 1, 1, 1, 1, 1, 7, 3, 0xff, 0xff]

  lemma MaskTable(reg: nat)
    requires RegOk(reg)
    ensures HighMask(reg) == HIGH_MASKS[reg / 2] && LowMask(reg) == if reg == 40 then 31 else 255
  {
    var k := reg / 2;
    assert reg == 2 * k;
  }

  /** A byte cut to one of these masks has the bits of both. */
  lemma CutBits(v: u8, mask: u8, i: nat)
    requires mask in {0, 1, 3, 7, 31, 255} && i < 8
    ensures Bit(Cut(v, mask), i) == Bit(v, i) * Bit(mask, i)
  {
    hide Bit, FromBits;
    BitsOfByte(v);
    var b, n := ToBits(v), Width(mask);
    LowBits(b, n);
    MaskIs(mask);
    BitsUnique(Trimmed(b, n), i);
    BitsUnique(Trimmed(ONES, n), i);
  }

  const ONES: seq<nat> := [1, 1, 1, 1, 1, 1, 1, 1]

  /** How many bits a mask has. */
  function Width(mask: u8): (n: nat)
    ensures n <= 8
  {
    if mask == 0 then 0 else if mask == 1 then 1 else if mask == 3 then 2 else if mask == 7 then 3
    else if mask == 31 then 5 else 8
  }

  /** Only the lowest n bits. */
  function Trimmed(b: seq<nat>, n: nat): (r: seq<nat>)
    requires Bits(b)
    ensures Bits(r)
  {
    seq(8, i requires 0 <= i < 8 => if i < n then b[i] else 0)
  }

  lemma MaskIs(mask: u8)
    requires mask in {0, 1, 3, 7, 31, 255}
    ensures FromBits(Trimmed(ONES, Width(mask))) == mask
  {
  }

  /** The lowest n bits of a byte are its remainder. */
  lemma LowBits(b: seq<nat>, n: nat)
    requires Bits(b) && n in {0, 1, 2, 3, 5, 8}
    ensures 0 <= FromBits(b) < 256
    ensures
      FromBits(Trimmed(b, n)) == if n == 8 then FromBits(b) else FromBits(b) % [1, 2, 4, 8, 16, 32][n]
  {
    var t5 := b[5] + 2 * b[6] + 4 * b[7];
    var t3 := b[3] + 2 * b[4] + 4 * t5;
    if n == 1 {
      DivModUnique(FromBits(b), 2, b[1] + 2 * b[2] + 4 * t3, b[0]);
    } else if n == 2 {
      DivModUnique(FromBits(b), 4, b[2] + 2 * t3, b[0] + 2 * b[1]);
    } else if n == 3 {
      DivModUnique(FromBits(b), 8, t3, b[0] + 2 * b[1] + 4 * b[2]);
    } else if n == 5 {
      DivModUnique(FromBits(b), 32, t5, b[0] + 2 * b[1] + 4 * b[2] + 8 * b[3] + 16 * b[4]);
    }
  }

  /** A byte access stores the bits its register keeps, early return or not, and leaves every other byte. */
  lemma ByteStored(s: Screen, adr: nat, data: u8, i: nat)
    requires adr < 48 && InStep(s) && i < 8
    ensures
      var r, mask := WriteByte(s, adr, data).r,
                     if adr % 2 == 0 then HIGH_MASKS[adr / 2] else if adr == 41 then 31 else 255;
      && Bit(r[adr], i) == Bit(data, i) * Bit(mask, i)
      && forall k :: 0 <= k < 48 && k != adr ==> r[k] == s.r[k]
  {
    hide Write, Put, InStep, Bit, HighMask, LowMask, Cut;
    var reg := adr - adr % 2;
    MaskTable(reg);
    CutBits(data, if adr % 2 == 0 then HighMask(reg) else LowMask(reg), i);
    PairParts(data, 0);
    PairParts(0, data);
    if adr % 2 == 0 {
      OneByte(s, reg, data as int * 256, Lanes(true, false));
    } else {
      OneByte(s, reg, data, Lanes(false, true));
    }
  }

  lemma OneByte(s: Screen, reg: nat, data: u16, lanes: Lanes)
    requires RegOk(reg) && InStep(s) && Access(data, lanes)
    ensures
      var r := Write(s, reg, data, lanes).r;
      && r[reg] == (if lanes.high then Cut(data / 256, HighMask(reg)) else s.r[reg])
      && r[reg + 1] == (if lanes.low then Cut(data % 256, LowMask(reg)) else s.r[reg + 1])
      && forall k :: 0 <= k < 48 && k != reg && k != reg + 1 ==> r[k] == s.r[k]
  {
    hide Write, Cut, HighMask, LowMask;
    StoresInStep(s, reg, data, lanes);
  }

  /**
   The sizes in the bytes of the registers: 8 pixels for every unit of bytes 4 to 7, and the lines
   of bytes 12 to 15, halved by bit 4 of byte 41 alone and doubled by bit 2 alone.
   */
  lemma SizesInBytes(s: Screen)
    requires InStep(s)
    ensures
      var r := s.r;
      var wide, high := 256 * r[6] as int + r[7] - 256 * r[4] as int - r[5],
                        256 * r[14] as int + r[15] - 256 * r[12] as int - r[13];
      && (wide > 0 ==> s.x == 8 * wide)
      && (high > 0 ==>
          s.y == if Bit(r[41], 4) == Bit(r[41], 2) then high else if Bit(r[41], 4) == 1 then high / 2 else 2 * high)
  {
  }

  // ----- the unit

  /** The pair an address falls in. */
  function RegAt(adr: nat): (reg: nat)
    ensures reg % 2 == 0 && reg < 64
  {
    adr / 2 % 32 * 2
  }

  lemma ByteAddress(adr: nat)
    ensures adr % 64 == if adr % 2 == 1 then RegAt(adr - 1) + 1 else RegAt(adr)
    ensures adr % 64 % 2 == adr % 2 && adr % 64 < 64
  {
    var h := adr / 2;
    DivModUnique(adr, 64, h / 32, h % 32 * 2 + adr % 2);
    if adr % 2 == 1 {
      DivModUnique(adr - 1, 2, h, 0);
    }
  }

  /** A byte access is an access to the word its address falls in. */
  lemma ByteIsAccess(s: Screen, adr: nat, data: u8)
    ensures
      var odd := adr % 2 == 1;
      var reg, word, lanes :=
        RegAt(if odd then adr - 1 else adr), if odd then data else data as int * 256, Lanes(!odd, odd);
      && Access(word, lanes) && (reg < COUNT <==> adr % 64 < COUNT)
      && (reg < COUNT ==> Write(s, reg, word, lanes) == WriteByte(s, adr % 64, data))
  {
    ByteAddress(adr);
    PairParts(0, data);
    PairParts(data, 0);
    hide Write;
  }

  /** Two register files that differ in one pair at most. */
  ghost predicate OnlyPair(before: Regs, now: Regs, reg: nat) {
    && (forall other: nat :: RegOk(other) && other != reg ==> Pair(now, other) == Pair(before, other))
    && (reg != 0x28 ==> now[0x29] == before[0x29])
  }

  lemma PutIsOnlyPair(r: Regs, reg: nat, data: u16, lanes: Lanes)
    requires RegOk(reg)
    ensures OnlyPair(r, Put(r, reg, data, lanes), reg)
  {
    hide HighMask, LowMask, Cut, Word;
    var now := Put(r, reg, data, lanes);
    forall other: nat | RegOk(other) && other != reg
      ensures Pair(now, other) == Pair(r, other)
    {
      assert other + 1 != reg;
    }
  }

  class Controller {
    const regs: array<u8>
    var hStart: u16
    var hEnd: u16
    var vStart: u16
    var vEnd: u16
    var textDotX: int
    var textDotY: int
    var vStep: u8
    var highMode: bool
    var intLine: int
    var textScrollX: int
    var textScrollY: int
    var grphScrollX: seq<int>
    var grphScrollY: seq<int>

    ghost predicate HorizontalSet(r: Regs)
      reads `hStart, `hEnd
    {
      hStart == HStart(r) && hEnd == HEnd(r)
    }

    ghost predicate VerticalSet(r: Regs)
      reads `vStart, `vEnd, `vStep, `highMode
    {
      vStart == VStart(r) && vEnd == VEnd(r) && vStep == StepOf(r[0x29]) && highMode == (r[0x29] / 16 % 2 == 1)
    }

    ghost predicate ScrollSet(r: Regs)
      reads `intLine, `textScrollX, `textScrollY, `grphScrollX, `grphScrollY
    {
      && intLine == Pair(r, 0x12) && textScrollX == Pair(r, 0x14) && textScrollY == Pair(r, 0x16)
      && |grphScrollX| == 4 && |grphScrollY| == 4
      && grphScrollX[0] == Pair(r, 0x18) && grphScrollX[1] == Pair(r, 0x1c)
      && grphScrollX[2] == Pair(r, 0x20) && grphScrollX[3] == Pair(r, 0x24)
      && grphScrollY[0] == Pair(r, 0x1a) && grphScrollY[1] == Pair(r, 0x1e)
      && grphScrollY[2] == Pair(r, 0x22) && grphScrollY[3] == Pair(r, 0x26)
    }

    ghost function Shown(): Screen
      requires regs.Length == COUNT
      reads this, regs
    {
      Screen(regs[..], textDotX, textDotY)
    }

    /** Every derived value is what the registers say, the sizes as far as the ranges are not empty. */
    ghost predicate Valid()
      reads this, regs
    {
      && regs.Length == COUNT && InStep(Shown())
      && HorizontalSet(regs[..]) && VerticalSet(regs[..]) && ScrollSet(regs[..])
    }

    /**
     Every derived value in the bytes of the registers: ranges, line step by mode, interrupt line,
     and the scroll positions of text and of the four graphic pages.
     */
    lemma DerivedValues()
      requires Valid()
      ensures hStart == 256 * regs[4] as int + regs[5] && hEnd == 256 * regs[6] as int + regs[7]
      ensures vStart == 256 * regs[12] as int + regs[13] && vEnd == 256 * regs[14] as int + regs[15]
      ensures vStep == if Bit(regs[41], 4) == Bit(regs[41], 2) then 2 else if Bit(regs[41], 4) == 1 then 1 else 4
      ensures highMode == (Bit(regs[41], 4) == 1) && intLine == 256 * regs[18] as int + regs[19]
      ensures textScrollX == 256 * regs[20] as int + regs[21] && textScrollY == 256 * regs[22] as int + regs[23]
      ensures |grphScrollX| == |grphScrollY| == 4
      ensures
        forall p :: 0 <= p < 4 ==>
          && grphScrollX[p] == 256 * regs[24 + 4 * p] as int + regs[25 + 4 * p]
          && grphScrollY[p] == 256 * regs[26 + 4 * p] as int + regs[27 + 4 * p]
    {
      hide InStep;
    }

    /** The values at power-on. */
    constructor ()
      ensures Valid() && PowerOn(Shown()) && fresh(regs)
    {
      regs := new u8[COUNT](_ => 0);
      hStart, hEnd, vStart, vEnd, textDotX, textDotY := 0, 0, 0, 0, 768, 512;
      vStep, highMode, intLine, textScrollX, textScrollY := 2, false, 0, 0, 0;
      grphScrollX, grphScrollY := [0, 0, 0, 0], [0, 0, 0, 0];
      new;
      NothingSet(Shown());
    }

    lemma NothingSet(s: Screen)
      requires PowerOn(s)
      requires hStart == hEnd == vStart == vEnd == 0 && vStep == 2 && !highMode
      requires intLine == textScrollX == textScrollY == 0 && grphScrollX == grphScrollY == [0, 0, 0, 0]
      ensures InStep(s) && HorizontalSet(s.r) && VerticalSet(s.r) && ScrollSet(s.r)
    {
      PowerOnInStep(s);
      PairAtPowerOn(s, 0x12);
      PairAtPowerOn(s, 0x14);
      PairAtPowerOn(s, 0x16);
      PairAtPowerOn(s, 0x18);
      PairAtPowerOn(s, 0x1a);
      PairAtPowerOn(s, 0x1c);
      PairAtPowerOn(s, 0x1e);
      PairAtPowerOn(s, 0x20);
      PairAtPowerOn(s, 0x22);
      PairAtPowerOn(s, 0x24);
      PairAtPowerOn(s, 0x26);
      hide InStep, Pair, HStart, HEnd, VStart, VEnd, PowerOn;
    }

    /** An access to the register area; the pairs from 0x30 on do not exist. */
    method Write16(adr: nat, data: u16, lanes: Lanes)
      requires Valid() && adr < 0x400 && Access(data, lanes)
      modifies this, regs
      ensures Valid()
      ensures
        var reg := RegAt(adr);
        Shown() == if reg < COUNT then Write(old(Shown()), reg, data, lanes) else old(Shown())
    {
      var reg := RegAt(adr);
      if reg >= COUNT {
        return;
      }
      WriteReg(reg, data, lanes);
    }

    /** A byte access: its value on its own lane of the word. */
    method Write8(adr: nat, data: u8)
      requires Valid() && adr < 0x400
      modifies this, regs
      ensures Valid()
      ensures Shown() == if adr % 64 < COUNT then WriteByte(old(Shown()), adr % 64, data) else old(Shown())
    {
      hide Write, WriteByte, RegAt, Access, InStep,
        Controller.HorizontalSet, Controller.VerticalSet, Controller.ScrollSet;
      ByteIsAccess(Shown(), adr, data);
      if adr % 2 == 1 {
        Write16(adr - 1, data, Lanes(false, true));
      } else {
        Write16(adr, data as int * 256, Lanes(true, false));
      }
    }

    method WriteReg(reg: nat, data: u16, lanes: Lanes)
      requires Valid() && RegOk(reg) && Access(data, lanes)
      modifies this, regs
      ensures Valid() && Shown() == Write(old(Shown()), reg, data, lanes)
    {
      ghost var s := Shown();
      WriteStores(s, reg, data, lanes);
      WriteKeepsInStep(s, reg, data, lanes);
      PutIsOnlyPair(s.r, reg, data, lanes);
      hide InStep, Controller.HorizontalSet, Controller.VerticalSet, Controller.ScrollSet, Resized, Put, OnlyPair;
      hide Merged, Cleaned;
      var before := Word(regs[reg], regs[reg + 1]);
      StoreBytes(reg, data, lanes);
      if data != before {
        ClearUnused(reg);
        Derive(reg, s.r);
      }
    }

    method StoreBytes(reg: nat, data: u16, lanes: Lanes)
      requires regs.Length == COUNT && RegOk(reg)
      modifies regs
      ensures regs[..] == Merged(old(regs[..]), reg, data, lanes)
    {
      if lanes.high {
        regs[reg] := data / 256;
      }
      if lanes.low {
        regs[reg + 1] := data % 256;
      }
    }

    method ClearUnused(reg: nat)
      requires regs.Length == COUNT && RegOk(reg)
      modifies regs
      ensures regs[..] == Cleaned(old(regs[..]), reg)
    {
      hide HighMask, LowMask, Cut;
      regs[reg] := Cut(regs[reg], HighMask(reg));
      regs[reg + 1] := Cut(regs[reg + 1], LowMask(reg));
    }

    /** The switch: what depends on the pair just written. */
    method Derive(reg: nat, ghost before: Regs)
      requires regs.Length == COUNT && RegOk(reg) && OnlyPair(before, regs[..], reg)
      requires HorizontalSet(before) && VerticalSet(before) && ScrollSet(before)
      modifies this
      ensures HorizontalSet(regs[..]) && VerticalSet(regs[..]) && ScrollSet(regs[..])
      ensures Shown() == Resized(old(Shown()), reg)
    {
      ghost var now := regs[..];
      Elsewhere(before, now, reg);
      hide OnlyPair, Controller.HorizontalSet, Controller.VerticalSet, Controller.ScrollSet, Scaled;
      hide VStart, VEnd, HStart, HEnd;
      if reg == 0x04 || reg == 0x06 {
        DeriveHorizontal(reg, before);
      } else if reg == 0x0c || reg == 0x0e || reg == 0x28 {
        DeriveVertical(reg, before);
      } else {
        DeriveScroll(reg, before);
      }
    }

    lemma Elsewhere(before: Regs, now: Regs, reg: nat)
      requires RegOk(reg) && OnlyPair(before, now, reg)
      ensures !Horizontal(reg) && HorizontalSet(before) ==> HorizontalSet(now)
      ensures !Vertical(reg) && VerticalSet(before) ==> VerticalSet(now)
      ensures (Horizontal(reg) || Vertical(reg)) && ScrollSet(before) ==> ScrollSet(now)
    {
      hide Pair, Word, StepOf;
    }

    method DeriveHorizontal(reg: nat, ghost before: Regs)
      requires regs.Length == COUNT && Horizontal(reg) && OnlyPair(before, regs[..], reg) && HorizontalSet(before)
      modifies `hStart, `hEnd, `textDotX
      ensures HorizontalSet(regs[..]) && Shown() == Resized(old(Shown()), reg)
    {
      if reg == 0x04 {
        hStart := Word(regs[0x04], regs[0x05]);
        assert Pair(regs[..], 0x06) == Pair(before, 0x06);
      } else {
        hEnd := Word(regs[0x06], regs[0x07]);
        assert Pair(regs[..], 0x04) == Pair(before, 0x04);
      }
      if hEnd > hStart {
        textDotX := (hEnd - hStart) * 8;
      }
    }

    method DeriveVertical(reg: nat, ghost before: Regs)
      requires regs.Length == COUNT && Vertical(reg) && OnlyPair(before, regs[..], reg) && VerticalSet(before)
      modifies `vStart, `vEnd, `vStep, `highMode, `textDotY
      ensures VerticalSet(regs[..]) && Shown() == Resized(old(Shown()), reg)
    {
      assert reg != 0x0c ==> Pair(regs[..], 0x0c) == Pair(before, 0x0c);
      assert reg != 0x0e ==> Pair(regs[..], 0x0e) == Pair(before, 0x0e);
      if reg == 0x0c {
        vStart := Word(regs[0x0c], regs[0x0d]);
      } else if reg == 0x0e {
        vEnd := Word(regs[0x0e], regs[0x0f]);
      } else {
        highMode := regs[0x29] / 16 % 2 == 1;
      }
      var range := if vEnd > vStart then vEnd - vStart else textDotY;
      Scale(range);
    }

    /** The height from a range, and the line step, by the mode bits. */
    method Scale(range: int)
      requires regs.Length == COUNT
      modifies `vStep, `textDotY
      ensures textDotY == Scaled(regs[0x29], range) && vStep == StepOf(regs[0x29])
    {
      var mode := regs[0x29];
      textDotY := range;
      if mode / 16 % 2 == 1 && mode / 4 % 2 == 0 {
        textDotY, vStep := CDiv(textDotY, 2), 1;
      } else if mode / 16 % 2 == 0 && mode / 4 % 2 == 1 {
        textDotY, vStep := textDotY * 2, 4;
      } else {
        vStep := 2;
      }
    }

    method DeriveScroll(reg: nat, ghost before: Regs)
      requires regs.Length == COUNT && RegOk(reg) && OnlyPair(before, regs[..], reg) && ScrollSet(before)
      modifies `intLine, `textScrollX, `textScrollY, `grphScrollX, `grphScrollY
      ensures ScrollSet(regs[..])
    {
      var value := Word(regs[reg], regs[reg + 1]);
      assert value == Pair(regs[..], reg);
      hide Pair, Word;
      if reg == 0x12 {
        intLine := value;
      } else if reg == 0x14 {
        textScrollX := value;
      } else if reg == 0x16 {
        textScrollY := value;
      } else if reg == 0x18 {
        grphScrollX := grphScrollX[0 := value];
      } else if reg == 0x1a {
        grphScrollY := grphScrollY[0 := value];
      } else if reg == 0x1c {
        grphScrollX := grphScrollX[1 := value];
      } else if reg == 0x1e {
        grphScrollY := grphScrollY[1 := value];
      } else if reg == 0x20 {
        grphScrollX := grphScrollX[2 := value];
      } else if reg == 0x22 {
        grphScrollY := grphScrollY[2 := value];
      } else if reg == 0x24 {
        grphScrollX := grphScrollX[3 := value];
      } else if reg == 0x26 {
        grphScrollY := grphScrollY[3 := value];
      }
    }
  }
}
