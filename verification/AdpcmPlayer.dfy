/**
 Access to the ADPCM-B memory through the address register, and playback: one nibble a
 call, high nibble first, decoded into a 16-bit sample; the stop and limit addresses
 are looked at only between bytes.
 */
module AdpcmPlayer {
  import opened CInt
  import opened AdpcmB

  datatype Config = Config(planar: bool, startaddr: u32, stopaddr: u32, limitaddr: u32, repeat: bool)
  {
    /** What one nibble adds to the address. */
    function Unit(): nat { if planar then 1 else 8 }
  }

  datatype Player = Player(memaddr: u32, x: int, d: int, playing: bool)
  {
    /** The decoder stays in the ranges it clamps to. */
    predicate Valid() {
      -32768 <= x <= 32767 && 127 <= d <= 24576
    }
  }

  /** The byte an address falls into, and the nibble of it that is due. */
  function ByteAt(ram: Ram, c: Config, addr: nat): (v: int)
    ensures 0 <= v < 256
  {
    if c.planar then LoadByte(ram, addr / 2 % RAM_SIZE) else ram[addr / 16 % RAM_SIZE]
  }

  function NibbleAt(ram: Ram, c: Config, addr: nat): (v: int)
    ensures 0 <= v < 16
  {
    Nibble(ByteAt(ram, c, addr), addr / c.Unit() % 2 == 1)
  }

  /** table1: the odd numbers 1..15, then their negatives. */
  function Difference(nibble: nat): int {
    if nibble < 8 then 2 * nibble + 1 else -(2 * (nibble - 8) + 1)
  }

  /** table2 */
  function Scale(nibble: nat): nat {
    var n := if nibble < 8 then nibble else nibble - 8;
    if n < 4 then 57 else if n == 4 then 77 else if n == 5 then 102 else if n == 6 then 128 else 153
  }

  function DecodeX(x: int, d: int, nibble: nat): int {
    Clamp(x + CDiv(Difference(nibble) * d, 8), -32768, 32767)
  }

  function DecodeD(d: int, nibble: nat): int {
    Clamp(CDiv(d * Scale(nibble), 64), 127, 24576)
  }

  /** A step of the decoder: ranges, direction and size of both moves, and nothing that leaves 32 bits. */
  lemma DecoderMoves(x: int, d: int, nibble: nat)
    requires -32768 <= x <= 32767 && 127 <= d <= 24576 && nibble < 16
    ensures
      var x', d' := DecodeX(x, d, nibble), DecodeD(d, nibble);
      && -32768 <= x' <= 32767 && 127 <= d' <= 24576
      && (if nibble < 8 then x' >= x else x' <= x) && 8 * Abs(x' - x) <= 15 * d
      && (if nibble % 8 < 4 then d' <= d else d' >= d)
    ensures InI32(Difference(nibble) * d) && InI32(x + CDiv(Difference(nibble) * d, 8)) && InI32(d * Scale(nibble))
  {
    hide Difference, Scale;
    ProductsOf(nibble, d);
    var move, width := Difference(nibble) * d, d * Scale(nibble);
    assert CDiv(width, 64) >= d <==> width >= 64 * d;
  }

  lemma ProductsOf(nibble: nat, d: int)
    requires 127 <= d <= 24576 && nibble < 16
    ensures if nibble < 8 then 0 <= Difference(nibble) * d <= 15 * d else -15 * d <= Difference(nibble) * d <= 0
    ensures if nibble % 8 < 4 then d * Scale(nibble) == 57 * d else 77 * d <= d * Scale(nibble) <= 153 * d
  {
    var k, s := Difference(nibble), Scale(nibble);
    MulNonNegative(Abs(k), d);
    MulNonNegative(15 - Abs(k), d);
    MulNonNegative(153 - s, d);
    MulDistributes(d, 15, Abs(k));
    MulDistributes(d, 153, s);
    if nibble % 8 >= 4 {
      MulNonNegative(s - 77, d);
      MulDistributes(d, s, 77);
    }
    if nibble >= 8 {
      MulDistributes(d, 0, k);
    }
  }

  /** Two nibbles that differ in their top bit move the sample by the same amount in opposite
   * directions, clamping aside. */
  lemma OppositeNibbles(x: int, d: int, nibble: nat)
    requires nibble < 8 && d >= 0
    ensures
      var up := CDiv(Difference(nibble) * d, 8);
      && DecodeX(x, d, nibble) == Clamp(x + up, -32768, 32767)
      && DecodeX(x, d, nibble + 8) == Clamp(x - up, -32768, 32767)
  {
    var k := Difference(nibble);
    assert Difference(nibble + 8) == -k && -k * d == -(k * d) && k * d >= 0;
  }

  const DIFFERENCES: seq<nat> := [1, 3, 5, 7, 9, 11, 13, 15]
  const SCALES: seq<nat> := [57, 57, 57, 57, 77, 102, 128, 153]

  /** The two tables, by the magnitude of the nibble: eighths of the width to move by, 64ths to change it to. */
  lemma DecoderTables(x: int, d: int, nibble: nat)
    requires d >= 0 && nibble < 16
    ensures
      var move := DIFFERENCES[nibble % 8] * d / 8;
      DecodeX(x, d, nibble) == Clamp(if nibble / 8 == 0 then x + move else x - move, -32768, 32767)
    ensures DecodeD(d, nibble) == Clamp(SCALES[nibble % 8] * d / 64, 127, 24576)
  {
    var k: int := DIFFERENCES[nibble % 8];
    MulNonNegative(k, d);
    assert Difference(nibble) == if nibble < 8 then k else -k;
    assert Scale(nibble) == SCALES[nibble % 8];
    MulDistributes(d, 0, k);
    hide Difference, Scale;
  }

  /** A larger magnitude moves the sample further and, from 3 on, leaves a larger width, where nothing is clamped. */
  lemma LargerMagnitude(x: int, d: int, m: nat)
    requires -32768 <= x <= 32767 && 127 <= d <= 24576 && m < 7
    ensures DecodeX(x, d, m) < DecodeX(x, d, m + 1) || DecodeX(x, d, m) == DecodeX(x, d, m + 1) == 32767
    ensures DecodeX(x, d, m + 8) > DecodeX(x, d, m + 9) || DecodeX(x, d, m + 8) == DecodeX(x, d, m + 9) == -32768
    ensures
      if m < 3 then DecodeD(d, m) == DecodeD(d, m + 1)
      else DecodeD(d, m) < DecodeD(d, m + 1) || DecodeD(d, m) == DecodeD(d, m + 1) == 24576
  {
    hide DecodeX, DecodeD;
    LargerMove(x, d, m);
    LargerWidth(d, m);
  }

  lemma LargerMove(x: int, d: int, m: nat)
    requires -32768 <= x <= 32767 && 127 <= d && m < 7
    ensures DecodeX(x, d, m) < DecodeX(x, d, m + 1) || DecodeX(x, d, m) == DecodeX(x, d, m + 1) == 32767
    ensures DecodeX(x, d, m + 8) > DecodeX(x, d, m + 9) || DecodeX(x, d, m + 8) == DecodeX(x, d, m + 9) == -32768
  {
    hide DecodeX, DecodeD, Clamp;
    DecoderTables(x, d, m);
    DecoderTables(x, d, m + 1);
    DecoderTables(x, d, m + 8);
    DecoderTables(x, d, m + 9);
    var k: nat, k': nat := DIFFERENCES[m], DIFFERENCES[m + 1];
    assert (m + 8) % 8 == m && (m + 9) % 8 == m + 1 && (m + 8) / 8 == (m + 9) / 8 == 1;
    LargerQuotient(d, k, k', 8);
    MulNonNegative(k, d);
    ClampFurther(x, k * d / 8, k' * d / 8);
  }

  lemma ClampFurther(x: int, a: nat, b: nat)
    requires -32768 <= x <= 32767 && a < b
    ensures
      var p, q := Clamp(x + a, -32768, 32767), Clamp(x + b, -32768, 32767);
      p < q || p == q == 32767
    ensures
      var p, q := Clamp(x - a, -32768, 32767), Clamp(x - b, -32768, 32767);
      p > q || p == q == -32768
  {
  }

  lemma LargerWidth(d: int, m: nat)
    requires 127 <= d && m < 7
    ensures
      if m < 3 then DecodeD(d, m) == DecodeD(d, m + 1)
      else DecodeD(d, m) < DecodeD(d, m + 1) || DecodeD(d, m) == DecodeD(d, m + 1) == 24576
  {
    hide DecodeX, DecodeD;
    DecoderTables(0, d, m);
    DecoderTables(0, d, m + 1);
    if m >= 3 {
      LargerQuotient(d, SCALES[m], SCALES[m + 1], 64);
      WiderThanLeast(d, SCALES[m + 1]);
    }
  }

  lemma WiderThanLeast(d: int, s: nat)
    requires d >= 127 && s >= 77
    ensures s * d / 64 > 127
  {
    MulNonNegative(s - 77, d);
    MulAdds(d, s - 77, 77);
  }

  lemma LargerQuotient(d: int, k: nat, k': nat, n: nat)
    requires d >= 127 && k' >= k + 2 && (n == 8 || (n == 64 && k' >= k + 20))
    ensures k * d / n < k' * d / n
  {
    var e: nat := if n == 8 then 2 else 20;
    MulNonNegative(k' - k - e, d);
    MulAdds(d, k' - k - e, k + e);
    MulAdds(d, k, e);
    assert k' * d >= k * d + n;
  }

  /** One call of the player: decode the nibble due, move on, and look at the end addresses after a whole byte. */
  function Play(ram: Ram, c: Config, p: Player): Player {
    var nibble := NibbleAt(ram, c, p.memaddr);
    var x, d, m := DecodeX(p.x, p.d, nibble), DecodeD(p.d, nibble), U32(p.memaddr + c.Unit());
    if m / c.Unit() % 2 == 1 then Player(m, x, d, p.playing)
    else if m == c.stopaddr && c.repeat then Player(c.startaddr, 0, 127, p.playing)
    else
      var m' := if m == c.stopaddr then m % RAM_SIZE else m;
      Player(if m' == c.limitaddr then 0 else m', x, d, p.playing && m != c.stopaddr)
  }

  /** The player right after it is switched on. */
  function Started(c: Config): Player { Player(c.startaddr, 0, 127, true) }

  function RunFrom(ram: Ram, c: Config, p: Player, calls: nat): Player {
    if calls == 0 then p else Play(ram, c, RunFrom(ram, c, p, calls - 1))
  }

  function Run(ram: Ram, c: Config, calls: nat): Player { RunFrom(ram, c, Started(c), calls) }

  lemma {:induction false} RunValid(ram: Ram, c: Config, p: Player, calls: nat)
    requires p.Valid()
    ensures RunFrom(ram, c, p, calls).Valid()
  {
    if calls == 0 {
    } else {
      hide NibbleAt;
      RunValid(ram, c, p, calls - 1);
    }
  }

  lemma {:induction false} RunSplit(ram: Ram, c: Config, p: Player, m: nat, n: nat)
    ensures RunFrom(ram, c, p, m + n) == RunFrom(ram, c, RunFrom(ram, c, p, m), n)
  {
    hide Play;
    if n == 0 {
    } else {
      RunSplit(ram, c, p, m, n - 1);
    }
  }

  // ----- the way to the next end address

  const WORD: nat := 0x1_0000_0000

  /** What a number of calls adds to the address. */
  function Offset(c: Config, calls: nat): nat { if c.planar then calls else 8 * calls }

  /** The way from one address to another, once round the 32-bit counter when they are the same. */
  function Ahead(a: u32, b: u32): (n: nat)
    ensures 0 < n <= WORD
  {
    if b > a then b - a else b - a + WORD
  }

  /** The registers give addresses in units of 64; the power-on limit is the one exception. */
  predicate Aligned(c: Config) {
    c.startaddr % 64 == 0 && c.stopaddr % 64 == 0 && (c.limitaddr % 64 == 0 || c.limitaddr == 0x3_ffff)
  }

  /** From an address on, the stop address comes before the limit address, if that is ever met. */
  predicate StopFirst(c: Config, a: u32) {
    c.limitaddr % 64 != 0 || Ahead(a, c.stopaddr) <= Ahead(a, c.limitaddr)
  }

  /** The way to the end address that comes first. */
  function First(c: Config, a: u32): (n: nat)
    ensures 0 < n <= WORD
  {
    Ahead(a, if StopFirst(c, a) then c.stopaddr else c.limitaddr)
  }

  /** The calls of that way. */
  function Leg(c: Config, a: u32): nat { First(c, a) / c.Unit() }

  lemma AheadIs(a: u32, b: u32, n: nat)
    requires n <= WORD
    ensures U32(a + n) == b && n > 0 <==> n == Ahead(a, b)
  {
    if a + n < WORD {
      DivModUnique(a + n, WORD, 0, a + n);
    } else if a + n < 2 * WORD {
      DivModUnique(a + n, WORD, 1, a + n - WORD);
    }
  }

  lemma LegIs(c: Config, a: u32)
    requires Aligned(c) && a % 64 == 0
    ensures Offset(c, Leg(c, a)) == First(c, a) && Leg(c, a) > 0 && Leg(c, a) % 2 == 0
  {
    var b := if StopFirst(c, a) then c.stopaddr else c.limitaddr;
    var s, t := a / 64, b / 64;
    var u := if b > a then t - s else t - s + 0x400_0000;
    assert First(c, a) == 64 * u;
    if c.planar {
      DivModUnique(64 * u, 2, 32 * u, 0);
    } else {
      DivModUnique(64 * u, 8, 8 * u, 0);
      DivModUnique(8 * u, 2, 4 * u, 0);
    }
  }

  lemma SplitWord(x: nat)
    requires x < 2 * WORD
    ensures U32(x) == if x < WORD then x else x - WORD
  {
    DivModUnique(x, WORD, if x < WORD then 0 else 1, if x < WORD then x else x - WORD);
  }

  lemma WordSum(x: nat, u: nat)
    ensures U32(U32(x) + u) == U32(x + u)
  {
    var q, y := x / WORD, U32(x) + u;
    assert x + u == WORD * q + y;
    DivModUnique(x + u, WORD, q + y / WORD, y % WORD);
  }

  lemma CellParity(c: Config, r: int, n: nat)
    ensures
      var m := 64 * r + Offset(c, n);
      m / c.Unit() % 2 == n % 2 && (n % 2 == 0 ==> m % 2 == 0)
  {
    var h, l := n / 2, n % 2;
    if c.planar {
      DivModUnique(64 * r + n, 2, 32 * r + h, l);
    } else {
      DivModUnique(64 * r + 8 * n, 8, 8 * r + n, 0);
      DivModUnique(8 * r + n, 2, 4 * r + h, l);
      DivModUnique(64 * r + 8 * n, 2, 32 * r + 4 * n, 0);
    }
  }

  /** Where a walk is: on which side of a byte, and one call further. */
  lemma WalkAddress(c: Config, a: u32, calls: nat)
    requires a % 64 == 0 && Offset(c, calls) < WORD
    ensures U32(U32(a + Offset(c, calls)) + c.Unit()) == U32(a + Offset(c, calls + 1))
    ensures
      var m := U32(a + Offset(c, calls + 1));
      m / c.Unit() % 2 == (calls + 1) % 2 && (m / c.Unit() % 2 == 0 ==> m % 2 == 0)
  {
    hide U32;
    var n, s := calls + 1, a / 64;
    var x := a + Offset(c, n);
    assert a == 64 * s && Offset(c, calls) + c.Unit() == Offset(c, n);
    WordSum(a + Offset(c, calls), c.Unit());
    SplitWord(x);
    var r := if x < WORD then s else s - 0x400_0000;
    CellParity(c, r, n);
    assert U32(x) == 64 * r + Offset(c, n);
  }

  /** The decoder fed with the nibbles of consecutive addresses. */
  function DecodedFrom(ram: Ram, c: Config, p: Player, count: nat): (int, int) {
    if count == 0 then (p.x, p.d)
    else
      var (x, d) := DecodedFrom(ram, c, p, count - 1);
      var nibble := NibbleAt(ram, c, U32(p.memaddr + Offset(c, count - 1)));
      (DecodeX(x, d, nibble), DecodeD(d, nibble))
  }

  /** A call short of the next end address goes on to the next nibble. */
  lemma StepOn(ram: Ram, c: Config, a: u32, p: Player, calls: nat)
    requires Aligned(c) && a % 64 == 0 && Offset(c, calls + 1) < First(c, a)
    requires p.playing && p.memaddr == U32(a + Offset(c, calls))
    ensures
      var q, nibble := Play(ram, c, p), NibbleAt(ram, c, p.memaddr);
      q == Player(U32(a + Offset(c, calls + 1)), DecodeX(p.x, p.d, nibble), DecodeD(p.d, nibble), true)
  {
    hide NibbleAt, DecodeX, DecodeD;
    var m := U32(a + Offset(c, calls + 1));
    WalkAddress(c, a, calls);
    AheadIs(a, c.stopaddr, Offset(c, calls + 1));
    AheadIs(a, c.limitaddr, Offset(c, calls + 1));
    assert m != c.stopaddr;
    assert m / c.Unit() % 2 == 0 ==> m != c.limitaddr;
    hide U32, Ahead;
  }

  /** Where a playback that stops leaves the address. */
  function Stopped(c: Config): u32 {
    if c.stopaddr % 0x4_0000 == c.limitaddr then 0 else c.stopaddr % 0x4_0000
  }

  /** The last call before the next end address. */
  lemma StepToEnd(ram: Ram, c: Config, a: u32, p: Player, calls: nat)
    requires Aligned(c) && a % 64 == 0 && calls + 1 == Leg(c, a)
    requires p.playing && p.memaddr == U32(a + Offset(c, calls))
    ensures
      var q, nibble := Play(ram, c, p), NibbleAt(ram, c, p.memaddr);
      if StopFirst(c, a) then
        if c.repeat then q == Started(c)
        else q == Player(Stopped(c), DecodeX(p.x, p.d, nibble), DecodeD(p.d, nibble), false)
      else q == Player(0, DecodeX(p.x, p.d, nibble), DecodeD(p.d, nibble), true)
  {
    hide NibbleAt, DecodeX, DecodeD;
    LegIs(c, a);
    var m := U32(a + Offset(c, calls + 1));
    WalkAddress(c, a, calls);
    AheadIs(a, c.stopaddr, First(c, a));
    AheadIs(a, c.limitaddr, First(c, a));
    assert m == if StopFirst(c, a) then c.stopaddr else c.limitaddr;
    assert StopFirst(c, a) || m != c.stopaddr;
  }

  /** Short of the next end address the player is at its own nibble and has decoded exactly the nibbles before it. */
  lemma {:induction false} Walking(ram: Ram, c: Config, p: Player, calls: nat)
    requires Aligned(c) && p.playing && p.memaddr % 64 == 0 && Offset(c, calls) < First(c, p.memaddr)
    ensures
      var q := RunFrom(ram, c, p, calls);
      q.playing && q.memaddr == U32(p.memaddr + Offset(c, calls)) && (q.x, q.d) == DecodedFrom(ram, c, p, calls)
  {
    hide Play, NibbleAt, DecodeX, DecodeD, Aligned, First;
    if calls == 0 {
    } else {
      Walking(ram, c, p, calls - 1);
      StepOn(ram, c, p.memaddr, RunFrom(ram, c, p, calls - 1), calls - 1);
    }
  }

  /** At the end of a leg it stops, or starts again in repeat mode, or goes on from address 0. */
  lemma LegEnd(ram: Ram, c: Config, p: Player)
    requires Aligned(c) && p.playing && p.memaddr % 64 == 0
    ensures
      var n := Leg(c, p.memaddr);
      var q := RunFrom(ram, c, p, n);
      if StopFirst(c, p.memaddr) && c.repeat then q == Started(c)
      else
        && q.playing == !StopFirst(c, p.memaddr) && (q.x, q.d) == DecodedFrom(ram, c, p, n)
        && q.memaddr == (if q.playing then 0 else Stopped(c))
  {
    hide Play, NibbleAt, DecodeX, DecodeD, Aligned, First, Leg, StopFirst, Config.Unit;
    var n := Leg(c, p.memaddr);
    LegIs(c, p.memaddr);
    OffsetGrows(c, n - 1);
    Walking(ram, c, p, n - 1);
    StepToEnd(ram, c, p.memaddr, RunFrom(ram, c, p, n - 1), n - 1);
  }

  lemma OffsetGrows(c: Config, n: nat)
    ensures Offset(c, n) < Offset(c, n + 1)
    ensures forall m: nat :: m <= n <==> Offset(c, m) <= Offset(c, n)
  {
  }

  // ----- whole playbacks

  /** The decoder fed with the nibbles from the start address on. */
  function Decoded(ram: Ram, c: Config, count: nat): (int, int) { DecodedFrom(ram, c, Started(c), count) }

  lemma Playing(ram: Ram, c: Config, calls: nat)
    requires Aligned(c) && Offset(c, calls) < First(c, c.startaddr)
    ensures
      var p := Run(ram, c, calls);
      && p.playing && (p.x, p.d) == Decoded(ram, c, calls)
      && p.memaddr == (c.startaddr + if c.planar then calls else 8 * calls) % 0x1_0000_0000
  {
    Walking(ram, c, Started(c), calls);
  }

  /** The limit address comes first both from the start address and from address 0. */
  predicate Endless(c: Config) { !StopFirst(c, c.startaddr) && !StopFirst(c, 0) }

  /** For the addresses the registers give: below the stop address, and met before it from the start. */
  lemma EndlessIs(c: Config)
    requires c.stopaddr > 0 && c.limitaddr > 0
    ensures
      Endless(c) <==>
      && c.limitaddr % 64 == 0 && c.limitaddr < c.stopaddr
      && (c.startaddr < c.limitaddr || c.stopaddr <= c.startaddr)
  {
  }

  /** Calls until playback stops: one leg, or a second one from address 0 after the limit address. */
  function Calls(c: Config): nat {
    Leg(c, c.startaddr) + if StopFirst(c, c.startaddr) then 0 else Leg(c, 0)
  }

  /** The decoder fed with the nibbles of the first leg and, when there is one, of the second. */
  function DecodedInAll(ram: Ram, c: Config): (int, int) {
    var (x, d) := Decoded(ram, c, Leg(c, c.startaddr));
    if StopFirst(c, c.startaddr) then (x, d) else DecodedFrom(ram, c, Player(0, x, d, true), Leg(c, 0))
  }

  /** From start to a later stop without a limit between, the whole way is the difference of the two. */
  lemma StraightCalls(c: Config)
    requires c.startaddr < c.stopaddr && !(c.startaddr < c.limitaddr < c.stopaddr && c.limitaddr % 64 == 0)
    ensures StopFirst(c, c.startaddr)
    ensures Calls(c) == if c.planar then c.stopaddr - c.startaddr else (c.stopaddr - c.startaddr) / 8
  {
  }

  lemma LegPlays(ram: Ram, c: Config, p: Player, calls: nat)
    requires Aligned(c) && p.playing && p.memaddr % 64 == 0 && calls < Leg(c, p.memaddr)
    ensures RunFrom(ram, c, p, calls).playing
  {
    hide Play, Aligned, First, Leg, DecodedFrom;
    LegIs(c, p.memaddr);
    OffsetGrows(c, Leg(c, p.memaddr));
    OffsetGrows(c, calls);
    assert Offset(c, calls) < Offset(c, Leg(c, p.memaddr));
    Walking(ram, c, p, calls);
  }

  /** It plays for exactly that many calls, having decoded the nibbles of both legs. */
  lemma Stops(ram: Ram, c: Config)
    requires Aligned(c) && !c.repeat && !Endless(c)
    ensures forall calls :: 0 <= calls < Calls(c) ==> Run(ram, c, calls).playing
    ensures !Run(ram, c, Calls(c)).playing
    ensures (Run(ram, c, Calls(c)).x, Run(ram, c, Calls(c)).d) == DecodedInAll(ram, c)
    ensures
      var masked := c.stopaddr % 0x4_0000;
      Run(ram, c, Calls(c)).memaddr == if masked == c.limitaddr then 0 else masked
  {
    hide Play, First, Leg, StopFirst, DecodedFrom;
    var p, n := Started(c), Leg(c, c.startaddr);
    LegEnd(ram, c, p);
    if !StopFirst(c, c.startaddr) {
      var q := RunFrom(ram, c, p, n);
      LegEnd(ram, c, q);
      RunSplit(ram, c, p, n, Leg(c, 0));
      assert q == Player(0, q.x, q.d, true);
    }
    forall calls | 0 <= calls < Calls(c)
      ensures Run(ram, c, calls).playing
    {
      LegsPlay(ram, c, calls);
    }
  }

  /** Before the end of its legs it plays. */
  lemma LegsPlay(ram: Ram, c: Config, calls: nat)
    requires Aligned(c) && calls < Calls(c)
    ensures Run(ram, c, calls).playing
  {
    hide Play, First, Leg, StopFirst, DecodedFrom;
    var p, n := Started(c), Leg(c, c.startaddr);
    if calls < n {
      LegPlays(ram, c, p, calls);
    } else {
      LegEnd(ram, c, p);
      LegPlays(ram, c, RunFrom(ram, c, p, n), calls - n);
      RunSplit(ram, c, p, n, calls - n);
    }
  }

  lemma {:induction false} NeverEnds(ram: Ram, c: Config, p: Player, calls: nat)
    requires Aligned(c) && p.playing && p.memaddr % 64 == 0 && !StopFirst(c, p.memaddr) && !StopFirst(c, 0)
    ensures RunFrom(ram, c, p, calls).playing
    decreases calls
  {
    hide Play, Aligned, First, Leg, StopFirst, DecodedFrom;
    var n := Leg(c, p.memaddr);
    if calls < n {
      LegPlays(ram, c, p, calls);
    } else {
      LegIs(c, p.memaddr);
      LegEnd(ram, c, p);
      RunSplit(ram, c, p, n, calls - n);
      NeverEnds(ram, c, RunFrom(ram, c, p, n), calls - n);
    }
  }

  /** Playback that does not repeat ends if and only if the limit address does not come first from
   * the start and from 0. */
  lemma StopsIff(ram: Ram, c: Config)
    requires Aligned(c) && !c.repeat
    ensures (exists calls: nat :: !Run(ram, c, calls).playing) <==> !Endless(c)
  {
    hide Play, RunFrom, First, Leg;
    if Endless(c) {
      forall calls: nat
        ensures Run(ram, c, calls).playing
      {
        NeverEnds(ram, c, Started(c), calls);
      }
    } else {
      Stops(ram, c);
    }
  }

  /** Start 64, limit 128, stop 192: this playback never ends. */
  lemma LimitOnTheWay(ram: Ram, calls: nat)
    ensures Run(ram, Config(true, 64, 192, 128, false), calls).playing
  {
    hide Play, RunFrom;
    NeverEnds(ram, Config(true, 64, 192, 128, false), Started(Config(true, 64, 192, 128, false)), calls);
  }

  /** Start 256, stop 128, limit 64: nor does this one, although it runs to the end of the counter first. */
  lemma LimitAfterWrap(ram: Ram, calls: nat)
    ensures Run(ram, Config(true, 256, 128, 64, false), calls).playing
  {
    hide Play, RunFrom;
    NeverEnds(ram, Config(true, 256, 128, 64, false), Started(Config(true, 256, 128, 64, false)), calls);
  }

  /** In repeat mode a playback that reaches its stop address has come back to its beginning, decoder and all. */
  lemma RepeatsFromStart(ram: Ram, c: Config, calls: nat)
    requires Aligned(c) && c.repeat && !Endless(c)
    ensures Run(ram, c, Calls(c)) == Started(c)
    ensures Run(ram, c, Calls(c) + calls) == Run(ram, c, calls)
    ensures Run(ram, c, calls).playing
    decreases calls
  {
    hide Play, First, Leg, StopFirst, DecodedFrom;
    BackAtStart(ram, c);
    RunSplit(ram, c, Started(c), Calls(c), calls);
    if calls < Calls(c) {
      LegsPlay(ram, c, calls);
    } else {
      LegIs(c, c.startaddr);
      RunSplit(ram, c, Started(c), Calls(c), calls - Calls(c));
      RepeatsFromStart(ram, c, calls - Calls(c));
    }
  }

  lemma BackAtStart(ram: Ram, c: Config)
    requires Aligned(c) && c.repeat && !Endless(c)
    ensures Run(ram, c, Calls(c)) == Started(c)
  {
    hide Play, First, Leg, StopFirst, DecodedFrom;
    var n := Leg(c, c.startaddr);
    LegEnd(ram, c, Started(c));
    if !StopFirst(c, c.startaddr) {
      LegEnd(ram, c, RunFrom(ram, c, Started(c), n));
      RunSplit(ram, c, Started(c), n, Leg(c, 0));
    }
  }

  /** The limit address is met on the way from start to stop. */
  predicate LimitBetween(c: Config) {
    c.startaddr < c.limitaddr < c.stopaddr && c.limitaddr % 64 == 0
  }

  /** Between start and stop, the limit address keeps playback below itself for ever. */
  lemma {:induction false} LoopsBelowLimit(ram: Ram, c: Config, calls: nat)
    requires Aligned(c) && LimitBetween(c) && !c.repeat
    ensures
      var p := Run(ram, c, calls);
      p.playing && p.memaddr < c.limitaddr && p.memaddr % c.Unit() == 0
  {
    if calls == 0 {
      DivModUnique(c.startaddr, 8, 8 * (c.startaddr / 64), 0);
    } else {
      LoopsBelowLimit(ram, c, calls - 1);
      NextBelowLimit(ram, c, Run(ram, c, calls - 1));
    }
  }

  lemma NextBelowLimit(ram: Ram, c: Config, p: Player)
    requires LimitBetween(c) && !c.repeat && p.playing && p.memaddr < c.limitaddr && p.memaddr % c.Unit() == 0
    ensures
      var q := Play(ram, c, p);
      q.playing && q.memaddr < c.limitaddr && q.memaddr % c.Unit() == 0
  {
    var u, m := c.Unit(), p.memaddr + c.Unit();
    Even64(c.limitaddr);
    if !c.planar {
      NextMultiple(p.memaddr, c.limitaddr);
    }
    assert m % u == 0 && m <= c.limitaddr && 0 % u == 0 && (m == c.limitaddr ==> m / u % 2 == 0) && U32(m) == m;
    assert m != c.stopaddr;
    hide NibbleAt, DecodeX, DecodeD, LimitBetween, Config.Unit, U32;
  }

  lemma NextMultiple(a: nat, b: nat)
    requires a % 8 == 0 && b % 8 == 0 && a < b
    ensures a + 8 <= b && (a + 8) % 8 == 0
  {
    DivModUnique(a + 8, 8, a / 8 + 1, 0);
  }

  // ----- what is uploaded is what is played

  function Wrap(a: nat): (r: nat)
    ensures r < RAM_SIZE
  {
    a % RAM_SIZE
  }

  /** Consecutive byte writes in 8-bit mode. */
  function Upload(ram: Ram, a: nat, data: seq<u8>): Ram {
    if data == [] then ram
    else StorePlanes(Upload(ram, a, data[..|data| - 1]), Wrap(a + |data| - 1), data[|data| - 1], 8)
  }

  lemma {:induction false} UploadedByte(ram: Ram, a: nat, data: seq<u8>, i: nat)
    requires a < RAM_SIZE && i < |data| <= RAM_SIZE
    ensures LoadByte(Upload(ram, a, data), Wrap(a + i)) == data[i]
    decreases |data|
  {
    var n := |data| - 1;
    hide LoadByte, StorePlanes, Wrap;
    StoreLoad(Upload(ram, a, data[..n]), Wrap(a + n), data[n], Wrap(a + i));
    if i == n {
    } else {
      WrapApart(a + i, a + n);
      UploadedByte(ram, a, data[..n], i);
    }
  }

  lemma WrapApart(x: nat, y: nat)
    requires x < y < x + RAM_SIZE && y < 2 * RAM_SIZE
    ensures Wrap(x) != Wrap(y)
  {
  }

  lemma Even64(x: nat)
    requires x % 64 == 0
    ensures x % 2 == 0 && x % 8 == 0 && x / 8 % 2 == 0
  {
    var q := x / 64;
    DivModUnique(x, 2, 32 * q, 0);
    DivModUnique(x, 8, 8 * q, 0);
    DivModUnique(x / 8, 2, 4 * q, 0);
  }

  lemma HalfSum(x: nat, k: nat)
    requires x % 2 == 0
    ensures (x + k) / 2 == x / 2 + k / 2 && (x + k) % 2 == k % 2
  {
    DivModUnique(x + k, 2, x / 2 + k / 2, k % 2);
  }

  lemma SampledAt(ram: Ram, c: Config, addr: nat)
    requires c.planar
    ensures NibbleAt(ram, c, addr) == Nibble(LoadByte(ram, Wrap(addr / 2)), addr % 2 == 1)
  {
    hide LoadByte;
  }

  lemma WrapSum(x: nat, i: nat)
    ensures Wrap(Wrap(x) + i) == Wrap(x + i)
  {
    var q := x / RAM_SIZE;
    var y := Wrap(x) + i;
    assert x + i == RAM_SIZE * q + y;
    DivModUnique(x + i, RAM_SIZE, q + y / RAM_SIZE, y % RAM_SIZE);
  }

  /** Played in 8-bit mode from where it was uploaded, a sample comes out high nibble first. */
  lemma UploadedNibble(ram: Ram, c: Config, data: seq<u8>, k: nat)
    requires c.planar && c.startaddr % 64 == 0 && k < 2 * |data| && |data| <= RAM_SIZE
    ensures NibbleAt(Upload(ram, Wrap(c.startaddr / 2), data), c, c.startaddr + k) == Nibble(data[k / 2], k % 2 == 1)
  {
    hide LoadByte, StorePlanes, Upload, Nibble, Wrap, NibbleAt;
    var ram', half := Upload(ram, Wrap(c.startaddr / 2), data), k / 2;
    Even64(c.startaddr);
    HalfSum(c.startaddr, k);
    assert half < |data|;
    WrapSum(c.startaddr / 2, half);
    UploadedByte(ram, Wrap(c.startaddr / 2), data, half);
    SampledAt(ram', c, c.startaddr + k);
  }

  // ----- the two ways to keep a byte

  /**
   The byte at an address. In 1-bit mode it is a cell, one for 16 addresses; in 8-bit mode it has
   2 addresses, and its bit k is one bit of a cell of plane k, of which one is for 16 addresses.
   */
  lemma ByteInMemory(ram: Ram, c: Config, addr: nat, k: nat)
    requires k < 8
    ensures !c.planar ==> ByteAt(ram, c, addr) == ram[addr / 16 % 0x4_0000]
    ensures c.planar ==> Bit(ByteAt(ram, c, addr), k) == Bit(ram[0x8000 * k + addr / 16 % 0x8000], addr / 2 % 8)
  {
    hide Bit, FromBits;
    var a := addr / 2 % RAM_SIZE;
    BitsUnique(PlaneBits(ram, a), k);
    HalfAddress(addr);
    MulCell(k);
  }

  lemma MulCell(k: nat)
    ensures k * PLANE == 0x8000 * k
  {
  }

  lemma HalfAddress(addr: nat)
    ensures addr / 2 % 0x4_0000 / 8 == addr / 16 % 0x8000 && addr / 2 % 0x4_0000 % 8 == addr / 2 % 8
  {
    var h := addr / 2;
    var q, r := h / 0x4_0000, h % 0x4_0000;
    assert h == 0x4_0000 * q + r;
    DivModUnique(h, 8, 0x8000 * q + r / 8, r % 8);
    DivModUnique(addr, 16, h / 8, 2 * (h % 8) + addr % 2);
    DivModUnique(h / 8, 0x8000, q, r / 8);
  }

  /** The high nibble of the byte is due first, then the low one: at the even and odd addresses, or
   * the even and odd eights of them. */
  lemma NibbleDue(ram: Ram, c: Config, addr: nat)
    ensures
      var first := if c.planar then addr % 2 == 0 else addr / 8 % 2 == 0;
      NibbleAt(ram, c, addr) == if first then ByteAt(ram, c, addr) / 16 else ByteAt(ram, c, addr) % 16
  {
    hide ByteAt;
  }

  /** In both modes what is written is read back, and every other byte stays. */
  lemma ReadBack(ram: Ram, c: Config, addr: nat, data: u8, addr': nat)
    requires addr < 0x1_0000_0000
    ensures
      var span := if c.planar then 2 else 16;
      var same := addr / span % 0x4_0000 == addr' / span % 0x4_0000;
      ByteAt(Written(ram, c, addr, data), c, addr') == if same then data else ByteAt(ram, c, addr')
  {
    hide LoadByte, StorePlanes;
    StoreLoad(ram, addr / 2 % RAM_SIZE, data, addr' / 2 % RAM_SIZE);
  }

  /** An access moves on by a byte; the stop address wraps it in 22 bits and the limit address sends it to 0. */
  lemma NextAccess(c: Config, addr: u32)
    ensures
      var m := (addr as int + if c.planar then 2 else 16) % 0x1_0000_0000;
      var wrapped := if m == c.stopaddr then m % 0x40_0000 else m;
      Accessed(c, addr) == if wrapped == c.limitaddr then 0 else wrapped
  {
  }

  // ----- an upload as the accesses that make it

  const TURN: nat := 0x40_0000

  /** The address after an access from the register interface: the end addresses wrap it. */
  function Accessed(c: Config, addr: u32): u32 {
    var m := U32(addr + 2 * c.Unit());
    var m' := if m == c.stopaddr then m % TURN else m;
    if m' == c.limitaddr then 0 else m'
  }

  /** The memory after a byte is written at an address in either mode. */
  function Written(ram: Ram, c: Config, addr: u32, data: u8): Ram {
    if c.planar then StorePlanes(ram, addr / 2 % RAM_SIZE, data, 8) else ram[addr / 16 % RAM_SIZE := data]
  }

  /** Memory and address after some accesses, one byte each. */
  function WriteAll(ram: Ram, c: Config, addr: u32, data: seq<u8>): (Ram, u32) {
    if data == [] then (ram, addr)
    else
      var (r, m) := WriteAll(ram, c, addr, data[..|data| - 1]);
      (Written(r, c, m, data[|data| - 1]), Accessed(c, m))
  }

  /** Where an address is within a turn of the memory, as it shows in 8-bit mode. */
  function InTurn(x: nat): (r: nat)
    ensures r < TURN
  {
    x % TURN
  }

  /** An access does not send the address back to 0, except to where it is anyway. */
  predicate PassesLimit(c: Config, addr: nat) {
    InTurn(addr) == InTurn(c.limitaddr) ==> InTurn(c.limitaddr) == 0
  }

  lemma TurnSum(x: nat, y: nat, i: nat)
    requires InTurn(x) == InTurn(y)
    ensures InTurn(x + i) == InTurn(y + i)
  {
    var z := x % TURN + i;
    assert x + i == TURN * (x / TURN) + z && y + i == TURN * (y / TURN) + z;
    DivModUnique(x + i, TURN, x / TURN + z / TURN, z % TURN);
    DivModUnique(y + i, TURN, y / TURN + z / TURN, z % TURN);
  }

  lemma TurnOfWord(x: nat)
    ensures InTurn(U32(x)) == InTurn(x) && InTurn(InTurn(x)) == InTurn(x)
  {
    var r := U32(x);
    DivModUnique(x, TURN, x / WORD * 0x400 + r / TURN, r % TURN);
  }

  lemma HalfOfTurn(x: nat, y: nat)
    requires InTurn(x) == InTurn(y)
    ensures Wrap(x / 2) == Wrap(y / 2)
  {
    HalfInTurn(x);
    HalfInTurn(y);
  }

  lemma HalfInTurn(x: nat)
    ensures Wrap(x / 2) == Wrap(InTurn(x) / 2)
  {
    var q, r := x / TURN, x % TURN;
    assert x == TURN * q + r;
    DivModUnique(x, 2, q * 0x20_0000 + r / 2, r % 2);
    var h := r / 2;
    DivModUnique(q * 0x20_0000 + h, RAM_SIZE, q * 8 + h / RAM_SIZE, h % RAM_SIZE);
  }

  lemma AccessedInTurn(c: Config, addr: u32)
    requires c.planar && PassesLimit(c, addr + 2)
    ensures InTurn(Accessed(c, addr)) == InTurn(addr + 2)
  {
    TurnOfWord(addr + 2);
    TurnOfWord(U32(addr + 2));
    assert InTurn(0) == 0;
    hide U32;
  }

  /** Accesses in 8-bit mode upload their bytes one behind the other, past the stop address too, as
   * long as the limit is not met. */
  lemma {:induction false} WritesAreUpload(ram: Ram, c: Config, addr: u32, data: seq<u8>)
    requires c.planar && forall i :: 0 < i <= |data| ==> PassesLimit(c, addr + 2 * i)
    ensures WriteAll(ram, c, addr, data).0 == Upload(ram, Wrap(addr / 2), data)
    ensures InTurn(WriteAll(ram, c, addr, data).1) == InTurn(addr + 2 * |data|)
  {
    hide StorePlanes, Wrap, InTurn, Accessed, PassesLimit;
    if data == [] {
    } else {
      var rest := data[..|data| - 1];
      WritesAreUpload(ram, c, addr, rest);
      var (r, m) := WriteAll(ram, c, addr, rest);
      LastWrite(r, c, addr, m, |rest|, data[|rest|]);
    }
  }

  lemma LastWrite(ram: Ram, c: Config, addr: u32, m: u32, n: nat, data: u8)
    requires c.planar && InTurn(m) == InTurn(addr + 2 * n) && PassesLimit(c, addr + 2 * (n + 1))
    ensures Written(ram, c, m, data) == StorePlanes(ram, Wrap(Wrap(addr / 2) + n), data, 8)
    ensures InTurn(Accessed(c, m)) == InTurn(addr + 2 * (n + 1))
  {
    hide StorePlanes, InTurn, Accessed;
    HalfOfTurn(m, addr + 2 * n);
    assert (addr + 2 * n) / 2 == addr / 2 + n;
    WrapSum(addr / 2, n);
    TurnSum(m, addr + 2 * n, 2);
    AccessedInTurn(c, m);
  }

  /** What is written byte by byte from the start address on is played from there nibble by nibble. */
  lemma WrittenIsPlayed(ram: Ram, c: Config, data: seq<u8>, k: nat)
    requires c.planar && c.startaddr % 64 == 0 && k < 2 * |data| && |data| <= RAM_SIZE
    requires forall i :: 0 < i <= |data| ==> PassesLimit(c, c.startaddr + 2 * i)
    ensures NibbleAt(WriteAll(ram, c, c.startaddr, data).0, c, c.startaddr + k) == Nibble(data[k / 2], k % 2 == 1)
  {
    hide NibbleAt, WriteAll, Upload, Wrap, PassesLimit, Nibble;
    WritesAreUpload(ram, c, c.startaddr, data);
    UploadedNibble(ram, c, data, k);
  }

  // ----- the unit

  class AdpcmUnit {
    const adpcmbuf: array<u8>
    var adpcmreg: seq<u8>
    var control1: u8
    var control2: u8
    var memaddr: u32
    var startaddr: u32
    var stopaddr: u32
    var limitaddr: u32
    var adpcmx: int
    var adpcmd: int
    var adpcmplay: bool

    predicate Valid()
      reads this
    {
      adpcmbuf.Length == RAM_SIZE && |adpcmreg| == 8 && Aligned(Setting()) && State().Valid()
    }

    function Setting(): Config
      reads this
    {
      Config(control2 / 2 % 2 == 1, startaddr, stopaddr, limitaddr, control1 / 0x10 % 2 == 1)
    }

    function State(): Player
      reads this
    {
      Player(memaddr, adpcmx, adpcmd, adpcmplay)
    }

    /** The mode is bit 1 of the second control register, repeating is bit 4 of the first. */
    lemma SettingBits()
      ensures Setting().planar == (Bit(control2, 1) == 1) && Setting().repeat == (Bit(control1, 4) == 1)
      ensures Setting().startaddr == startaddr && Setting().stopaddr == stopaddr && Setting().limitaddr == limitaddr
    {
    }

    constructor ()
      ensures Valid()
    {
      adpcmbuf := new u8[RAM_SIZE](_ => 0);
      adpcmreg := seq(8, _ => 0);
      control1, control2, memaddr, startaddr, stopaddr, limitaddr := 0, 0, 0, 0, 0, 0x3_ffff;
      adpcmx, adpcmd, adpcmplay := 0, 127, false;
    }

    /** One plane of a byte written in 8-bit mode. */
    method StorePlane(a: nat, bit: nat, ghost data: u8, k: nat, ghost was: Ram)
      requires adpcmbuf.Length == RAM_SIZE && a < RAM_SIZE && k < 8
      requires bit == Bit(data, k) && adpcmbuf[..] == StorePlanes(was, a, data, k)
      modifies adpcmbuf
      ensures adpcmbuf[..] == StorePlanes(was, a, data, k + 1)
    {
      var p := Cell(a, k);
      PutBitLaw(adpcmbuf[p], a % 8, bit, 0);
      adpcmbuf[p] := PutBit(adpcmbuf[p], a % 8, bit);
    }

    method WriteRAM(data: u8)
      requires Valid()
      modifies adpcmbuf, `memaddr
      ensures Valid() && memaddr == Accessed(Setting(), old(memaddr))
      ensures adpcmbuf[..] == Written(old(adpcmbuf[..]), Setting(), old(memaddr), data)
    {
      hide StorePlanes, PutBit, Cell;
      if control2 / 2 % 2 == 0 {
        adpcmbuf[memaddr / 16 % RAM_SIZE] := data;
        memaddr := U32(memaddr + 16);
      } else {
        var a := memaddr / 2 % RAM_SIZE;
        StoreByte(a, data);
        memaddr := U32(memaddr + 2);
      }
      if memaddr == stopaddr {
        memaddr := memaddr % 0x40_0000;
      }
      if memaddr == limitaddr {
        memaddr := 0;
      }
    }

    method StoreByte(a: nat, data: u8)
      requires adpcmbuf.Length == RAM_SIZE && a < RAM_SIZE
      modifies adpcmbuf
      ensures adpcmbuf[..] == StorePlanes(old(adpcmbuf[..]), a, data, 8)
    {
      ghost var was := adpcmbuf[..];
      hide StorePlanes, Cell, PutBit;
      assert adpcmbuf[..] == StorePlanes(was, a, data, 0) by {
        StoreNothing(was, a, data);
      }
      StorePlane(a, data % 2, data, 0, was);
      StorePlane(a, data / 2 % 2, data, 1, was);
      StorePlane(a, data / 4 % 2, data, 2, was);
      StorePlane(a, data / 8 % 2, data, 3, was);
      StorePlane(a, data / 16 % 2, data, 4, was);
      StorePlane(a, data / 32 % 2, data, 5, was);
      StorePlane(a, data / 64 % 2, data, 6, was);
      StorePlane(a, data / 128 % 2, data, 7, was);
    }

    /** Four planes gathered at the bank's bit position, highest plane first, then shifted down. */
    method GatherNibble(a: nat, base: nat) returns (data: nat)
      requires adpcmbuf.Length == RAM_SIZE && a < RAM_SIZE && (base == 0 || base == 4)
      ensures data == Bit(adpcmbuf[Cell(a, base)], a % 8) + 2 * Bit(adpcmbuf[Cell(a, base + 1)], a % 8)
                      + 4 * Bit(adpcmbuf[Cell(a, base + 2)], a % 8) + 8 * Bit(adpcmbuf[Cell(a, base + 3)], a % 8)
      ensures data < 16
    {
      var mask := BitValue(a % 8);
      var b0, b1 := Bit(adpcmbuf[Cell(a, base)], a % 8), Bit(adpcmbuf[Cell(a, base + 1)], a % 8);
      var b2, b3 := Bit(adpcmbuf[Cell(a, base + 2)], a % 8), Bit(adpcmbuf[Cell(a, base + 3)], a % 8);
      data := b3 * mask;
      data := data * 2 + b2 * mask;
      data := data * 2 + b1 * mask;
      data := data * 2 + b0 * mask;
      GatheredShift(mask, b0, b1, b2, b3);
      data := data / mask;
    }

    method GatherByte(a: nat) returns (data: u8)
      requires adpcmbuf.Length == RAM_SIZE && a < RAM_SIZE
      ensures data == LoadByte(adpcmbuf[..], a)
    {
      var high := GatherNibble(a, 4);
      var low := GatherNibble(a, 0);
      Gathered(adpcmbuf[..], a, high, low);
      data := high * 16 + low;
    }

    method ReadRAM() returns (data: u8)
      requires Valid()
      modifies `memaddr
      ensures Valid() && memaddr == Accessed(Setting(), old(memaddr))
      ensures data == ByteAt(adpcmbuf[..], Setting(), old(memaddr))
    {
      hide LoadByte;
      if control2 / 2 % 2 == 0 {
        data := adpcmbuf[memaddr / 16 % RAM_SIZE];
        memaddr := U32(memaddr + 16);
      } else {
        data := GatherByte(memaddr / 2 % RAM_SIZE);
        memaddr := U32(memaddr + 2);
      }
      if memaddr == stopaddr {
        memaddr := memaddr % 0x40_0000;
      }
      if memaddr == limitaddr {
        memaddr := 0;
      }
    }

    /**
     One decoder step. The sample stays in 16 bits and moves by no more than 15/8 of the step
     width, up for the lower eight nibbles and down for the upper; the width stays in its
     range, narrows for small differences and widens for large ones.
     */
    method DecodeADPCMBSample(data: nat)
      requires data < 16 && State().Valid()
      modifies `adpcmx, `adpcmd
      ensures State().Valid()
      ensures if data < 8 then adpcmx >= old(adpcmx) else adpcmx <= old(adpcmx)
      ensures 8 * Abs(adpcmx - old(adpcmx)) <= 15 * old(adpcmd)
      ensures if data % 8 < 4 then adpcmd <= old(adpcmd) else adpcmd >= old(adpcmd)
      ensures adpcmx == DecodeX(old(adpcmx), old(adpcmd), data) && adpcmd == DecodeD(old(adpcmd), data)
    {
      DecoderMoves(adpcmx, adpcmd, data);
      adpcmx := Clamp(adpcmx + CDiv(Difference(data) * adpcmd, 8), -32768, 32767);
      adpcmd := Clamp(CDiv(adpcmd * Scale(data), 64), 127, 24576);
    }

    /** Takes the nibble that is due and moves the address past it. */
    method FetchNibble() returns (data: nat)
      requires Valid()
      modifies `memaddr
      ensures data == NibbleAt(adpcmbuf[..], Setting(), old(memaddr)) && data < 16
      ensures memaddr == U32(old(memaddr) + Setting().Unit())
    {
      hide LoadByte, Bit, Cell, U32, AdpcmUnit.State, Aligned;
      if control2 / 2 % 2 == 0 {
        data := adpcmbuf[memaddr / 16 % RAM_SIZE];
        data := if memaddr / 8 % 2 == 0 then data / 16 else data % 16;
        memaddr := U32(memaddr + 8);
      } else {
        var a := memaddr / 2 % RAM_SIZE;
        data := GatherNibble(a, if memaddr % 2 == 0 then 4 else 0);
        GatheredNibble(adpcmbuf[..], a, memaddr % 2 == 1, data);
        memaddr := U32(memaddr + 1);
      }
    }

    /** One call of the player, and the sample it puts out. */
    method ReadRAMN() returns (sample: int)
      requires Valid()
      modifies `memaddr, `adpcmx, `adpcmd, `adpcmplay
      ensures State() == Play(adpcmbuf[..], Setting(), old(State())) && Valid()
      ensures sample == DecodeX(old(adpcmx), old(adpcmd), NibbleAt(adpcmbuf[..], Setting(), old(memaddr)))
      ensures adpcmx == sample || (adpcmx == 0 && memaddr == startaddr && Setting().repeat)
    {
      hide NibbleAt;
      var data := FetchNibble();
      DecodeADPCMBSample(data);
      sample := adpcmx;
      EndOfCall();
    }

    /** The end of a call: nothing between the nibbles of a byte, else the stop and limit addresses. */
    method EndOfCall()
      requires Valid()
      modifies `memaddr, `adpcmx, `adpcmd, `adpcmplay
      ensures
        var c, m := Setting(), old(memaddr);
        State() ==
        if m / c.Unit() % 2 == 1 then old(State())
        else if m == c.stopaddr && c.repeat then Player(c.startaddr, 0, 127, old(adpcmplay))
        else
          var m' := if m == c.stopaddr then m % RAM_SIZE else m;
          Player(if m' == c.limitaddr then 0 else m', old(adpcmx), old(adpcmd), old(adpcmplay) && m != c.stopaddr)
      ensures Valid()
    {
      if (if control2 / 2 % 2 == 0 then memaddr / 8 % 2 == 1 else memaddr % 2 == 1) {
        return;
      }
      if memaddr == stopaddr {
        if control1 / 0x10 % 2 == 1 {
          memaddr, adpcmx, adpcmd := startaddr, 0, 127;
          return;
        } else {
          memaddr := memaddr % RAM_SIZE;
          adpcmplay := false;
        }
      }
      if memaddr == limitaddr {
        memaddr := 0;
      }
    }

    /** The registers that place and start playback; level and rate registers are not part of the unit. */
    method SetADPCMBReg(addr: nat, data: u8)
      requires Valid()
      modifies this, adpcmbuf
      ensures Valid()
      ensures control1 == (if addr == 0 then data else old(control1))
      ensures control2 == if addr == 1 then data else old(control2)
      ensures adpcmplay == if addr == 0 then data % 2 == 0 && (data / 0x80 == 1 || old(adpcmplay)) else old(adpcmplay)
      ensures startaddr == if addr == 2 || addr == 3 then Word(adpcmreg[1], adpcmreg[0]) * 64 else old(startaddr)
      ensures stopaddr == if addr == 4 || addr == 5 then (Word(adpcmreg[3], adpcmreg[2]) + 1) * 64 else old(stopaddr)
      ensures
        limitaddr == if addr == 12 || addr == 13 then (Word(adpcmreg[7], adpcmreg[6]) + 1) * 64 else old(limitaddr)
      ensures
        adpcmreg ==
        if 2 <= addr <= 5 then old(adpcmreg)[addr - 2 := data]
        else if addr == 12 || addr == 13 then old(adpcmreg)[addr - 6 := data]
        else old(adpcmreg)
      ensures
        var starts, writes := addr == 0 && data / 0x80 == 1 && !old(adpcmplay), addr == 8 && control1 / 0x20 % 4 == 3;
        && (adpcmx, adpcmd) == (if starts then (0, 127) else (old(adpcmx), old(adpcmd)))
        && memaddr == (if starts || addr == 2 || addr == 3 then startaddr
                       else if writes then Accessed(Setting(), old(memaddr))
                       else old(memaddr))
        && adpcmbuf[..] ==
           (if writes then Written(old(adpcmbuf[..]), Setting(), old(memaddr), data) else old(adpcmbuf[..]))
      ensures addr == 0 && data / 0x80 == 1 && data % 2 == 0 && !old(adpcmplay) ==> State() == Started(Setting())
    {
      hide Written, StorePlanes, Accessed;
      if addr == 0 {
        if data / 0x80 == 1 && !adpcmplay {
          adpcmplay, memaddr, adpcmx, adpcmd := true, startaddr, 0, 127;
        }
        if data % 2 == 1 {
          adpcmplay := false;
        }
        control1 := data;
      } else if addr == 1 {
        control2 := data;
      } else if addr == 2 || addr == 3 {
        adpcmreg := adpcmreg[addr - 2 := data];
        startaddr := Word(adpcmreg[1], adpcmreg[0]) * 64;
        memaddr := startaddr;
      } else if addr == 4 || addr == 5 {
        adpcmreg := adpcmreg[addr - 4 + 2 := data];
        stopaddr := (Word(adpcmreg[3], adpcmreg[2]) + 1) * 64;
      } else if addr == 8 {
        if control1 / 0x20 % 4 == 3 {
          WriteRAM(data);
        }
      } else if addr == 12 || addr == 13 {
        adpcmreg := adpcmreg[addr - 12 + 6 := data];
        limitaddr := (Word(adpcmreg[7], adpcmreg[6]) + 1) * 64;
      }
    }
  }

  lemma StoreNothing(ram: Ram, a: nat, data: u8)
    requires a < RAM_SIZE
    ensures StorePlanes(ram, a, data, 0) == ram
  {
  }

  lemma GatheredShift(mask: nat, b0: nat, b1: nat, b2: nat, b3: nat)
    requires mask > 0
    ensures (((b3 * mask) * 2 + b2 * mask) * 2 + b1 * mask) * 2 + b0 * mask == mask * (8 * b3 + 4 * b2 + 2 * b1 + b0)
    ensures ((((b3 * mask) * 2 + b2 * mask) * 2 + b1 * mask) * 2 + b0 * mask) / mask == 8 * b3 + 4 * b2 + 2 * b1 + b0
  {
    var sum := 8 * b3 + 4 * b2 + 2 * b1 + b0;
    assert mask * sum == mask * (8 * b3) + mask * (4 * b2) + mask * (2 * b1) + mask * b0;
    DivModUnique(mask * sum, mask, sum, 0);
  }

  lemma Gathered(ram: Ram, a: nat, high: nat, low: nat)
    requires a < RAM_SIZE
    requires
      low ==
      Bit(ram[Cell(a, 0)], a % 8) + 2 * Bit(ram[Cell(a, 1)], a % 8) +
      4 * Bit(ram[Cell(a, 2)], a % 8) + 8 * Bit(ram[Cell(a, 3)], a % 8)
    requires
      high ==
      Bit(ram[Cell(a, 4)], a % 8) + 2 * Bit(ram[Cell(a, 5)], a % 8) +
      4 * Bit(ram[Cell(a, 6)], a % 8) + 8 * Bit(ram[Cell(a, 7)], a % 8)
    ensures LoadByte(ram, a) == high * 16 + low
  {
    hide Bit, Cell;
    var b := PlaneBits(ram, a);
    assert b[0] == Bit(ram[Cell(a, 0)], a % 8) && b[4] == Bit(ram[Cell(a, 4)], a % 8);
  }

  lemma GatheredNibble(ram: Ram, a: nat, lower: bool, data: nat)
    requires a < RAM_SIZE
    requires
      var base := if lower then 0 else 4;
      data == Bit(ram[Cell(a, base)], a % 8) + 2 * Bit(ram[Cell(a, base + 1)], a % 8)
              + 4 * Bit(ram[Cell(a, base + 2)], a % 8) + 8 * Bit(ram[Cell(a, base + 3)], a % 8)
    ensures data == Nibble(LoadByte(ram, a), lower)
  {
    hide Bit, Cell;
    var b := PlaneBits(ram, a);
    assert b[0] == Bit(ram[Cell(a, 0)], a % 8) && b[4] == Bit(ram[Cell(a, 4)], a % 8);
    DivModUnique(FromBits(b), 16, b[4] + 2 * b[5] + 4 * b[6] + 8 * b[7], b[0] + 2 * b[1] + 4 * b[2] + 8 * b[3]);
  }
}
