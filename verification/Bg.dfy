/**
 The sprite and background unit: its register and pattern memory as the bus sees them,
 and the drawing of one scan line into the line buffers. Addresses are bus addresses;
 the sprite registers are kept byte-swapped, as on a little-endian host.
 */
module Bg {
  import opened CInt
  import opened Pcg
  import opened Layers
  import opened Scanline
  import opened Wrappers

  const BG_REGS := 0x12
  const COLUMNS := 1024 + 100
  const WIDTH := 1600

  /** `i ^ 1` */
  function Swap(i: nat): (r: nat)
    ensures i < 0x400 ==> r < 0x400
  {
    if i % 2 == 0 then i + 1 else i - 1
  }

  /** The byte behind a bus address. */
  datatype Target = SpriteReg(i: nat) | BgReg(r: nat) | Pattern(a: nat) | Nowhere
  {
    predicate Valid() {
      match this
      case SpriteReg(i) => i < 0x400
      case BgReg(r) => r < BG_REGS
      case Pattern(a) => a < BG_SIZE
      case Nowhere => true
    }

    /** The bits of a byte that the target keeps. */
    function Kept(data: u8): u8 {
      match this
      case SpriteReg(i) => KeptBySprite(i % 8, data)
      case BgReg(r) => if r < 8 && r % 2 == 0 then data % 4 else data
      case _ => data
    }
  }

  function Decode(adr: u32): (t: Target)
    ensures t.Valid()
  {
    if 0xeb_0000 <= adr <= 0xeb_03ff then SpriteReg(adr - 0xeb_0000)
    else if 0xeb_0800 <= adr <= 0xeb_0811 then BgReg(adr - 0xeb_0800)
    else if 0xeb_8000 <= adr <= 0xeb_ffff then Pattern(adr - 0xeb_8000)
    else Nowhere
  }

  /** The masks on the eight bytes of a sprite: positions, palette and flips, class. */
  function KeptBySprite(b: nat, data: u8): u8 {
    if b == 0 || b == 2 || b == 7 then data % 4
    else if b == 4 then data / 64 * 64 + data % 16
    else if b == 6 then 0
    else data
  }

  /** Where a plane's map lies: the enable bit and the two select bits of register 9. */
  function PlaneTop(enabled: bool, select: nat): (top: nat)
    ensures top + MAP_SIZE <= BG_SIZE
  {
    if !enabled then 0 else if select != 0 then 0x6000 else 0x4000
  }

  /** The maps that the plane register places. */
  predicate TopsOf(on: u8, top0: nat, top1: nat) {
    top0 == PlaneTop(on % 2 == 1, on / 2 % 4) && top1 == PlaneTop(on / 8 % 2 == 1, on / 16 % 4)
  }

  /** No sprite register holds a bit that the unit does not keep. */
  ghost predicate AllKept(regs: seq<u8>)
    requires |regs| == REGS_SIZE
  {
    forall i :: 0 <= i < 0x400 ==> regs[i] == KeptBySprite(Swap(i % 8), regs[i])
  }

  /** A scroll register is its two bytes, or only the 9 bits of them that an 8x8 plane uses. */
  predicate ScrollOf(scroll: u32, high: u8, low: u8) {
    high < 4 && (scroll == Word(high, low) || scroll == Word(if high < 2 then high else high - 2, low))
  }

  /** `x & mask` for the two masks in use. */
  function Masked(x: nat, mask: nat): (r: u32)
    ensures r < 1024
  {
    if mask == 511 then x % 512 else x % 1024
  }

  class SpriteUnit {
    const bg: array<u8>
    const spriteRegs: array<u8>
    const bgChr8: array<u8>
    const bgChr16: array<u8>
    const lineBuf: array<u32>
    const priBuf: array<u16>
    const trFlag: array<u8>
    var bgRegs: seq<u8>
    var bg0Top: nat
    var bg0End: nat
    var bg1Top: nat
    var bg1End: nat
    var bgChrSize: nat
    var bgAdrMask: nat
    var bg0ScrollX: u32
    var bg0ScrollY: u32
    var bg1ScrollX: u32
    var bg1ScrollY: u32
    var bgHAdjust: int
    var bgVLine: int
    // set by the other chips
    var palette: seq<u32>
    var crtcHStart: u16
    var crtcVStart: u16
    var textDotX: nat
    var vLineBg: int

    ghost predicate ValidArrays()
    {
      && bg.Length == BG_SIZE && spriteRegs.Length == REGS_SIZE
      && bgChr8.Length == CHR8_SIZE && bgChr16.Length == CHR16_SIZE
      && lineBuf.Length == WIDTH && priBuf.Length == WIDTH && trFlag.Length == COLUMNS
      && bg != spriteRegs && bg != bgChr8 && bg != bgChr16 && bg != trFlag
      && spriteRegs != bgChr8 && spriteRegs != bgChr16 && spriteRegs != trFlag
      && bgChr8 != bgChr16 && bgChr8 != trFlag && bgChr16 != trFlag
      && lineBuf as object != priBuf && lineBuf as object != trFlag && priBuf as object != trFlag
      && lineBuf as object != bg && lineBuf as object != spriteRegs && lineBuf as object != bgChr8
      && lineBuf as object != bgChr16
      && priBuf as object != bg && priBuf as object != spriteRegs && priBuf as object != bgChr8
      && priBuf as object != bgChr16
    }

    /** The scroll registers reach the 9 bits an 8x8 plane uses; bit 9 may be masked away. */
    predicate ValidScroll()
      reads this
      requires |bgRegs| == BG_REGS
    {
      && ScrollOf(bg0ScrollX, bgRegs[0], bgRegs[1])
      && ScrollOf(bg0ScrollY, bgRegs[2], bgRegs[3])
      && ScrollOf(bg1ScrollX, bgRegs[4], bgRegs[5])
      && ScrollOf(bg1ScrollY, bgRegs[6], bgRegs[7])
    }

    predicate ValidPlanes()
      reads this
      requires |bgRegs| == BG_REGS
    {
      && TopsOf(bgRegs[9], bg0Top, bg1Top)
      && bg0Top + MAP_SIZE <= BG_SIZE && (bg0Top == 0 == bg0End || bg0End == bg0Top + MAP_SIZE)
      && bg1Top + MAP_SIZE <= BG_SIZE && (bg1Top == 0 == bg1End || bg1End == bg1Top + MAP_SIZE)
      && (bgChrSize == 8 || bgChrSize == 16) && (bgAdrMask == 511 || bgAdrMask == 1023)
    }

    predicate ValidControl()
      reads this
    {
      |bgRegs| == BG_REGS && |palette| == 256 && ValidScroll() && ValidPlanes()
    }

    ghost predicate ValidSprites()
      reads spriteRegs
    {
      spriteRegs.Length == REGS_SIZE && AllKept(spriteRegs[..])
    }

    ghost predicate ValidPatterns()
      reads bg, bgChr8, bgChr16
    {
      && Lengths(bg[..], bgChr8[..], bgChr16[..])
      && Coherent(bg[..], bgChr8[..], bgChr16[..])
    }

    ghost predicate Valid()
      reads this, bg, spriteRegs, bgChr8, bgChr16
    {
      ValidArrays() && ValidControl() && ValidSprites() && ValidPatterns()
    }

    /** Power-on state followed by BG_Init: its register writes all repeat what is there. */
    constructor ()
      ensures Valid()
      ensures bgChrSize == 16 && bgAdrMask == 511
    {
      hide Coherent, AllKept, Blank, SpriteUnit.ValidControl;
      var memory := Zeroes(BG_SIZE);
      var sprites := Zeroes(REGS_SIZE);
      var chr8 := Zeroes(CHR8_SIZE);
      var chr16 := Zeroes(CHR16_SIZE);
      bg, spriteRegs, bgChr8, bgChr16 := memory, sprites, chr8, chr16;
      lineBuf := new u32[WIDTH];
      priBuf := new u16[WIDTH];
      trFlag := new u8[COLUMNS];
      bgRegs := Blank(BG_REGS);
      bg0Top, bg0End, bg1Top, bg1End := 0, 0, 0, 0;
      bgChrSize, bgAdrMask := 16, 511;
      bg0ScrollX, bg0ScrollY, bg1ScrollX, bg1ScrollY := 0, 0, 0, 0;
      bgHAdjust, bgVLine := 0, 0;
      palette := seq(256, _ => 0);
      crtcHStart, crtcVStart, textDotX, vLineBg := 0, 0, 768, 0;
      new;
      ClearedControl();
      assert ValidSprites() by {
        BlankIsKept(spriteRegs[..]);
      }
      assert ValidPatterns() by {
        BlankIsCoherent();
      }
    }

    /** Cleared registers place nothing. */
    lemma ClearedControl()
      requires bgRegs == Blank(BG_REGS) && |palette| == 256
      requires bg0Top == bg0End == bg1Top == bg1End == 0 && bgChrSize == 16 && bgAdrMask == 511
      requires bg0ScrollX == bg0ScrollY == bg1ScrollX == bg1ScrollY == 0
      ensures ValidControl()
    {
      hide ScrollOf, TopsOf;
      NoScroll(bgRegs[0], bgRegs[1]);
      NoScroll(bgRegs[2], bgRegs[3]);
      NoScroll(bgRegs[4], bgRegs[5]);
      NoScroll(bgRegs[6], bgRegs[7]);
      NoPlanes();
      assert bgRegs[9] == 0;
    }

    /** The byte the bus reads back from a target. */
    function Peek(t: Target): u8
      reads this, bg, spriteRegs
      requires ValidArrays() && |bgRegs| == BG_REGS && t.Valid()
    {
      match t
      case SpriteReg(i) => spriteRegs[Swap(i)]
      case BgReg(r) => bgRegs[r]
      case Pattern(a) => bg[a]
      case Nowhere => 0xff
    }

    method Read(adr: u32) returns (data: u8)
      requires Valid()
      ensures data == Peek(Decode(adr))
    {
      if 0xeb_0000 <= adr <= 0xeb_03ff {
        data := spriteRegs[Swap(adr - 0xeb_0000)];
      } else if 0xeb_0800 <= adr <= 0xeb_0811 {
        data := bgRegs[adr - 0xeb_0800];
      } else if 0xeb_8000 <= adr <= 0xeb_ffff {
        data := bg[adr - 0xeb_8000];
      } else {
        data := 0xff;
      }
    }

    /**
     A write changes the byte at its own address and no other byte the bus can read,
     keeps only the bits the register has, and leaves both pattern caches coherent.
     */
    method Write(adr: u32, data: u8)
      requires Valid()
      modifies this, bg, spriteRegs, bgChr8, bgChr16
      ensures Valid()
      ensures forall t: Target :: t.Valid() ==>
                Peek(t) == if t == Decode(adr) && t != Nowhere then t.Kept(data) else old(Peek(t))
      ensures !Decode(adr).BgReg? ==> unchanged(this)
      ensures
        Decode(adr).BgReg? ==>
        if old(bgRegs)[Decode(adr).r] == data then unchanged(this) else Derived(Decode(adr).r, data)
      ensures palette == old(palette) && textDotX == old(textDotX) && vLineBg == old(vLineBg)
      ensures crtcHStart == old(crtcHStart) && crtcVStart == old(crtcVStart)
    {
      hide Swap, KeptBySprite, ScrollOf, Masked, PlaneTop, Coherent, AllKept, SpriteUnit.HAdjust, SpriteUnit.VLine;
      SwapApart();
      match Decode(adr)
      case SpriteReg(i) => WriteSpriteReg(i, data);
      case BgReg(r) => WriteBgReg(r, data);
      case Pattern(a) => WritePattern(a, data);
      case Nowhere =>
    }

    method WriteSpriteReg(i: nat, data: u8)
      requires ValidArrays() && ValidSprites() && i < 0x400
      modifies spriteRegs
      ensures ValidSprites()
      ensures spriteRegs[..] == old(spriteRegs[..])[Swap(i) := KeptBySprite(i % 8, data)]
    {
      var d := data;
      if i % 8 == 0 { d := d % 4; }
      if i % 8 == 2 { d := d % 4; }
      if i % 8 == 4 { d := d / 64 * 64 + d % 16; }
      if i % 8 == 6 { d := 0; }
      if i % 8 == 7 { d := d % 4; }
      assert d == KeptBySprite(i % 8, data);
      KeptTwice(i, data);
      if spriteRegs[Swap(i)] != d {
        spriteRegs[Swap(i)] := d;
      }
    }

    method WritePattern(adr: nat, data: u8)
      requires ValidArrays() && ValidPatterns() && adr < BG_SIZE
      modifies bg, bgChr8, bgChr16
      ensures ValidPatterns()
      ensures bg[..] == old(bg[..])[adr := data]
    {
      if bg[adr] == data {
        return;
      }
      ghost var was8, was16 := bgChr8[..], bgChr16[..];
      bg[adr] := data;
      if adr < 0x2000 {
        bgChr8[adr * 2] := data / 16;
        bgChr8[adr * 2 + 1] := data % 16;
      }
      var bg16chr := Chr16Index(adr);
      Chr16Bijection(adr, 0);
      bgChr16[bg16chr] := data / 16;
      bgChr16[bg16chr + 1] := data % 16;
      StoreKeepsCoherence(old(bg[..]), was8, was16, bgChr8[..], bgChr16[..], adr, data);
    }

    /** What a changed control register changes with it: a scroll value, the planes, or mode and distances. */
    twostate predicate Derived(r: nat, data: u8)
      reads this
      requires r < BG_REGS && |bgRegs| == BG_REGS
    {
      && bg0ScrollX == (if r / 2 == 0 then Masked(Word(bgRegs[0], bgRegs[1]), bgAdrMask) else old(bg0ScrollX))
      && bg0ScrollY == (if r / 2 == 1 then Masked(Word(bgRegs[2], bgRegs[3]), bgAdrMask) else old(bg0ScrollY))
      && bg1ScrollX == (if r / 2 == 2 then Masked(Word(bgRegs[4], bgRegs[5]), bgAdrMask) else old(bg1ScrollX))
      && bg1ScrollY == (if r / 2 == 3 then Masked(Word(bgRegs[6], bgRegs[7]), bgAdrMask) else old(bg1ScrollY))
      && bg1Top == (if r == 9 then PlaneTop(data / 8 % 2 == 1, data / 16 % 4) else old(bg1Top))
      && bg0Top == (if r == 9 then PlaneTop(data % 2 == 1, data / 2 % 4) else old(bg0Top))
      && bgChrSize == (if r == 0x11 then (if data % 4 != 0 then 16 else 8) else old(bgChrSize))
      && bgAdrMask == (if r == 0x11 then bgChrSize * 64 - 1 else old(bgAdrMask))
      && bgHAdjust == (if r == 0x0d || r == 0x11 then HAdjust() else old(bgHAdjust))
      && bgVLine == (if r == 0x0f || r == 0x11 then VLine() else old(bgVLine))
    }

    /**
     The same in numbers: a scroll value is its two bytes, cut to the 512 or 1024 pixels of the
     plane; register 9 places the planes; bits 0 and 1 of register 17 choose tiles of 16x16;
     registers 13, 15 and 17 set the distances; everything else stays.
     */
    twostate lemma DerivedIs(r: nat, data: u8)
      requires r < 18 && |bgRegs| == 18 && Derived(r, data) && (bgAdrMask == 511 || bgAdrMask == 1023)
      ensures
        var size := if bgAdrMask == 511 then 512 else 1024;
        && bg0ScrollX == (if r in {0, 1} then (256 * bgRegs[0] as int + bgRegs[1]) % size else old(bg0ScrollX))
        && bg0ScrollY == (if r in {2, 3} then (256 * bgRegs[2] as int + bgRegs[3]) % size else old(bg0ScrollY))
        && bg1ScrollX == (if r in {4, 5} then (256 * bgRegs[4] as int + bgRegs[5]) % size else old(bg1ScrollX))
        && bg1ScrollY == (if r in {6, 7} then (256 * bgRegs[6] as int + bgRegs[7]) % size else old(bg1ScrollY))
      ensures
        if r == 17 then
          bgChrSize == (if Bit(data, 0) == Bit(data, 1) == 0 then 8 else 16) && bgAdrMask == 64 * bgChrSize - 1
        else bgChrSize == old(bgChrSize) && bgAdrMask == old(bgAdrMask)
      ensures bgHAdjust == if r == 13 || r == 17 then HAdjust() else old(bgHAdjust)
      ensures bgVLine == if r == 15 || r == 17 then VLine() else old(bgVLine)
      ensures r != 9 ==> bg0Top == old(bg0Top) && bg1Top == old(bg1Top)
    {
      hide SpriteUnit.HAdjust, SpriteUnit.VLine, PlaneTop;
    }

    method WriteBgReg(r: nat, data: u8)
      requires ValidControl() && r < BG_REGS
      modifies this
      ensures ValidControl()
      ensures bgRegs == old(bgRegs)[r := BgReg(r).Kept(data)]
      ensures palette == old(palette) && textDotX == old(textDotX) && vLineBg == old(vLineBg)
      ensures crtcHStart == old(crtcHStart) && crtcVStart == old(crtcVStart)
      ensures old(bgRegs)[r] == data ==> unchanged(this)
      ensures old(bgRegs)[r] != data ==> Derived(r, data)
    {
      hide Masked, ScrollOf, Word, PlaneTop, SpriteUnit.HAdjust, SpriteUnit.VLine;
      KeptAlready(r);
      if bgRegs[r] == data {
        return;
      }
      if r < 8 {
        WriteScroll(r, data);
      } else if r == 9 {
        WritePlanes(data);
      } else {
        WriteMode(r, data);
      }
    }

    /** What a register holds it keeps. */
    lemma KeptAlready(r: nat)
      requires ValidControl() && r < BG_REGS
      ensures BgReg(r).Kept(bgRegs[r]) == bgRegs[r] && bgRegs[r := bgRegs[r]] == bgRegs
    {
      hide TopsOf, ScrollOf, KeptBySprite, SpriteUnit.ValidPlanes;
      HighBytes();
    }

    lemma HighBytes()
      requires |bgRegs| == BG_REGS && ValidScroll()
      ensures bgRegs[0] < 4 && bgRegs[2] < 4 && bgRegs[4] < 4 && bgRegs[6] < 4
    {
    }

    method WriteScroll(r: nat, data: u8)
      requires |bgRegs| == BG_REGS && ValidScroll() && (bgAdrMask == 511 || bgAdrMask == 1023) && r < 8
      modifies `bgRegs, `bg0ScrollX, `bg0ScrollY, `bg1ScrollX, `bg1ScrollY
      ensures |bgRegs| == BG_REGS && ValidScroll()
      ensures bgRegs == old(bgRegs)[r := if r % 2 == 0 then data % 4 else data]
      ensures bg0ScrollX == if r / 2 == 0 then Masked(Word(bgRegs[0], bgRegs[1]), bgAdrMask) else old(bg0ScrollX)
      ensures bg0ScrollY == if r / 2 == 1 then Masked(Word(bgRegs[2], bgRegs[3]), bgAdrMask) else old(bg0ScrollY)
      ensures bg1ScrollX == if r / 2 == 2 then Masked(Word(bgRegs[4], bgRegs[5]), bgAdrMask) else old(bg1ScrollX)
      ensures bg1ScrollY == if r / 2 == 3 then Masked(Word(bgRegs[6], bgRegs[7]), bgAdrMask) else old(bg1ScrollY)
    {
      hide ScrollOf, Masked, Word;
      HighBytes();
      bgRegs := bgRegs[r := if r % 2 == 0 then data % 4 else data];
      if r == 0x00 || r == 0x01 {
        bg0ScrollX := Masked(Word(bgRegs[0], bgRegs[1]), bgAdrMask);
        MaskedScroll(bgRegs[0], bgRegs[1], bgAdrMask);
      } else if r == 0x02 || r == 0x03 {
        bg0ScrollY := Masked(Word(bgRegs[2], bgRegs[3]), bgAdrMask);
        MaskedScroll(bgRegs[2], bgRegs[3], bgAdrMask);
      } else if r == 0x04 || r == 0x05 {
        bg1ScrollX := Masked(Word(bgRegs[4], bgRegs[5]), bgAdrMask);
        MaskedScroll(bgRegs[4], bgRegs[5], bgAdrMask);
      } else {
        bg1ScrollY := Masked(Word(bgRegs[6], bgRegs[7]), bgAdrMask);
        MaskedScroll(bgRegs[6], bgRegs[7], bgAdrMask);
      }
    }

    method WritePlanes(data: u8)
      requires ValidControl()
      modifies `bgRegs, `bg0Top, `bg0End, `bg1Top, `bg1End
      ensures ValidControl()
      ensures bgRegs == old(bgRegs)[9 := data]
      ensures bg1Top == PlaneTop(data / 8 % 2 == 1, data / 16 % 4)
      ensures bg0Top == PlaneTop(data % 2 == 1, data / 2 % 4)
    {
      hide ScrollOf, Word;
      bgRegs := bgRegs[9 := data];
      if data / 8 % 2 == 1 {
        if data / 16 % 4 != 0 {
          bg1Top, bg1End := 0x6000, 0x8000;
        } else {
          bg1Top, bg1End := 0x4000, 0x6000;
        }
      } else {
        bg1Top, bg1End := 0, 0;
      }
      if data % 2 == 1 {
        if data / 2 % 4 != 0 {
          bg0Top, bg0End := 0x6000, 0x8000;
        } else {
          bg0Top, bg0End := 0x4000, 0x6000;
        }
      } else {
        bg0Top, bg0End := 0, 0;
      }
    }

    method WriteMode(r: nat, data: u8)
      requires ValidControl() && (r == 8 || 10 <= r < BG_REGS)
      modifies `bgRegs, `bgChrSize, `bgAdrMask, `bgHAdjust, `bgVLine
      ensures ValidControl()
      ensures bgRegs == old(bgRegs)[r := data]
      ensures bgHAdjust == if r == 0x0d || r == 0x11 then HAdjust() else old(bgHAdjust)
      ensures bgVLine == if r == 0x0f || r == 0x11 then VLine() else old(bgVLine)
      ensures bgChrSize == if r == 0x11 then (if data % 4 != 0 then 16 else 8) else old(bgChrSize)
      ensures bgAdrMask == if r == 0x11 then bgChrSize * 64 - 1 else old(bgAdrMask)
    {
      hide TopsOf, ScrollOf, Word;
      bgRegs := bgRegs[r := data];
      if r == 0x0d {
        bgHAdjust := HAdjust();
      } else if r == 0x0f {
        bgVLine := VLine();
      } else if r == 0x11 {
        bgChrSize := if data % 4 != 0 then 16 else 8;
        bgAdrMask := if data % 4 != 0 then 1023 else 511;
        bgHAdjust := HAdjust();
        bgVLine := VLine();
      }
    }

    // ----- drawing

    method PaintSpritePixel(t: nat, n: nat, pal: nat, ghost ply: nat)
      requires ValidArrays() && |palette| == 256 && t < COLUMNS && n < SPRITES && pal < 256
      modifies lineBuf, trFlag, priBuf
      ensures forall c :: 0 <= c < WIDTH ==>
                Column(c) ==
                if c == t then PaintSpot(Spot(ply, palette[pal]), ply, n, old(Column(c))) else old(Column(c))
    {
      if priBuf[t] >= n * 8 {
        lineBuf[t] := palette[pal];
        trFlag[t] := SetDrawn(trFlag[t]);
        priBuf[t] := n * 8;
      }
    }

    /** Everything a scan line is drawn from. */
    ghost function SceneNow(): Scene
      reads this, bg, spriteRegs
    {
      Scene(bg[..], spriteRegs[..], palette, bgHAdjust, bgVLine, vLineBg, textDotX)
    }

    /** One column of the buffers; behind the flags of the text layer nothing is flagged. */
    ghost function Column(t: nat): Pixel
      reads lineBuf, trFlag, priBuf
      requires ValidArrays() && t < WIDTH
    {
      Pixel(lineBuf[t], if t < COLUMNS then trFlag[t] else 0, priBuf[t])
    }

    /** A 16-bit sprite register. */
    function SpriteWord(i: nat): u16
      reads spriteRegs
      requires spriteRegs.Length == REGS_SIZE && i < 4 * SPRITES
    {
      Word(spriteRegs[2 * i + 1], spriteRegs[2 * i])
    }

    /** The sprites of one class, last to first: each column keeps the lowest one that improves it. */
    method SpriteDrawLine(ply: nat, ghost s: Scene)
      requires Valid() && s == SceneNow()
      modifies lineBuf, trFlag, priBuf
      ensures forall t :: 0 <= t < WIDTH ==> Column(t) == SpriteLayer(s.StripAt(t), ply, old(Column(t)))
    {
      hide Scene.SpotAt, Scene.StripAt;
      var n := 127;
      while n >= 0
        invariant -1 <= n < SPRITES
        invariant forall t :: 0 <= t < WIDTH ==> Column(t) == SpritesDownTo(s.StripAt(t), ply, n + 1, old(Column(t)))
      {
        label before:
        DrawSprite(n, ply, s);
        forall t | 0 <= t < WIDTH
          ensures Column(t) == SpritesDownTo(s.StripAt(t), ply, n, old(Column(t)))
        {
          PassStep(s, ply, n, t, old(Column(t)), old@before(Column(t)));
        }
        n := n - 1;
      }
      forall t | 0 <= t < WIDTH
        ensures Column(t) == SpriteLayer(s.StripAt(t), ply, old(Column(t)))
      {
        SpritePassIsLayer(s.StripAt(t), ply, old(Column(t)));
      }
    }

    method DrawSprite(n: nat, ply: nat, ghost s: Scene)
      requires Valid() && n < SPRITES && s == SceneNow()
      modifies lineBuf, trFlag, priBuf
      ensures forall t :: 0 <= t < WIDTH ==> Column(t) == PaintSpot(s.SpotAt(n, t), ply, n, old(Column(t)))
    {
      NotSeen(s, n, ply);
      var hit, t, y := Placed(n, ply);
      hide Scene.SpotAt, PaintSpot, Scene.OnLine, Scene.Left, Scene.Row, Scene.Ply, Scene.Word;
      if hit {
        DrawSpriteRow(n, t, y, s);
      }
    }

    lemma WordIs(i: nat)
      requires Valid() && i < 4 * SPRITES
      ensures SpriteWord(i) == SceneNow().Word(i)
    {
    }

    /** Whether sprite n is of the class and on the line, and where. */
    method Placed(n: nat, ply: nat) returns (hit: bool, t: nat, y: u32)
      requires Valid() && n < SPRITES
      ensures hit <==> SceneNow().Ply(n) == ply && SceneNow().OnLine(n)
      ensures hit ==> t == SceneNow().Left(n) && y == SceneNow().Row(n)
    {
      hide Coherent, AllKept, ScrollOf, Scene.Word, SpriteUnit.SpriteWord, U32;
      hit, t, y := false, 0, 0;
      ghost var s := SceneNow();
      WordIs(4 * n);
      WordIs(4 * n + 1);
      WordIs(4 * n + 3);
      if SpriteWord(4 * n + 3) % 4 == ply {
        t := (SpriteWord(4 * n) + bgHAdjust) % 0x400;
        assert t == s.Left(n);
        if t >= textDotX + 16 {
          return;
        }
        y := U32(16 - (SpriteWord(4 * n + 1) % 0x400 - vLineBg + bgVLine));
        assert y == s.Row(n);
        hit := y <= 15;
      }
    }

    method DrawSpriteRow(n: nat, left: nat, y: nat, ghost s: Scene)
      requires Valid() && n < SPRITES && s == SceneNow()
      requires s.OnLine(n) && left == s.Left(n) && y == s.Row(n)
      modifies lineBuf, trFlag, priBuf
      ensures forall t :: 0 <= t < WIDTH ==> Column(t) == PaintSpot(s.SpotAt(n, t), s.Ply(n), n, old(Column(t)))
    {
      hide PaintSpot, Scene.OnLine, Scene.Left, Scene.Chr, Scene.FlipsX, Scene.FlipsY, Scene.Bank, Scene.Row;
      hide Scene.Ply, Scene.SpotOf, RowStart, CellSpot, Scene.Word, Coherent, AllKept, ScrollOf;
      OnLineBounds(s, n);
      ClearKeeps(s.Ply(n), n);
      var p, d, bank := RowOf(n, y);
      SpriteRowCached(s, bgChr8[..], bgChr16[..], n, p, d);
      DrawSpriteCells(n, left, p, d, bank, s.Ply(n));
    }

    /** Where the row starts in BGCHR16, which way it runs, and its palette bank. */
    method RowOf(n: nat, y: nat) returns (p: nat, d: int, bank: nat)
      requires Valid() && n < SPRITES && y < 16
      ensures p == RowStart(SceneNow().Chr(n), y, SceneNow().FlipsX(n), SceneNow().FlipsY(n))
      ensures d == (if SceneNow().FlipsX(n) then -1 else 1) && bank == SceneNow().Bank(n)
    {
      var ctrl := SpriteWord(4 * n + 2);
      var chr, hflip, vflip := ctrl % 0x100, ctrl / 0x4000 % 2 == 1, ctrl / 0x8000 == 1;
      assert ctrl == SceneNow().Ctrl(n);
      p := RowStart(chr, y, hflip, vflip);
      d := if hflip then -1 else 1;
      bank := ctrl / 0x100 % 16;
    }

    /** The row walk: sixteen cells of BGCHR16 from p on in direction d, transparent where 0. */
    method DrawSpriteCells(n: nat, left: nat, p0: nat, d: int, bank: nat, ghost ply: nat)
      requires ValidArrays() && |palette| == 256 && n < SPRITES && left < 0x400 && bank < 16
      requires WalkFits(p0, d, 16, CHR16_SIZE)
      requires forall i :: 0 <= i < 16 ==> bgChr16[Walk(p0, d, i)] < 16
      modifies lineBuf, trFlag, priBuf
      ensures forall c :: 0 <= c < WIDTH ==>
                Column(c) ==
                if left <= c < left + 16
                then PaintSpot(CellSpot(palette, bgChr16[Walk(p0, d, c - left)], bank, ply), ply, n, old(Column(c)))
                else old(Column(c))
    {
      var p: int := p0;
      var i, t := 0, left;
      while i < 16
        invariant 0 <= i <= 16 && t == left + i && p == Walk(p0, d, i)
        invariant forall c :: 0 <= c < WIDTH ==>
                    Column(c) ==
                    if left <= c < t
                    then PaintSpot(CellSpot(palette, bgChr16[Walk(p0, d, c - left)], bank, ply), ply, n, old(Column(c)))
                    else old(Column(c))
      {
        var pal := bgChr16[p] % 16;
        if pal != 0 {
          PaintSpritePixel(t, n, pal + bank * 16, ply);
        }
        i, t, p := i + 1, t + 1, p + d;
      }
    }

    /** The cells of one tile: a zero nibble is see-through or takes the tile's own colour 0. */
    method DrawTileCells(chr: array<u8>, p0: nat, d: int, bl: u8, edi0: nat, cnt: nat, glassy: bool)
      requires ValidArrays() && |palette| == 256 && (chr == bgChr8 || chr == bgChr16)
      requires WalkFits(p0, d, cnt, chr.Length) && edi0 + cnt < COLUMNS
      requires forall j :: 0 <= j < cnt ==> chr[Walk(p0, d, j)] < 16
      modifies lineBuf, trFlag, priBuf
      ensures forall c :: 0 <= c < WIDTH ==>
                Column(c) ==
                if edi0 < c <= edi0 + cnt
                then PlaneLayer(glassy, CellGlyph(palette, chr[Walk(p0, d, c - edi0 - 1)], bl), old(Column(c)))
                else old(Column(c))
    {
      var esi: int := p0;
      var j, edi := 0, edi0;
      while j < cnt
        invariant 0 <= j <= cnt && edi == edi0 + j && esi == Walk(p0, d, j)
        invariant forall c :: 0 <= c < WIDTH ==>
                    Column(c) ==
                    if edi0 < c <= edi
                    then PlaneLayer(glassy, CellGlyph(palette, chr[Walk(p0, d, c - edi0 - 1)], bl), old(Column(c)))
                    else old(Column(c))
      {
        PaintTilePixel(edi + 1, chr[esi], bl, glassy);
        j, esi, edi := j + 1, esi + d, edi + 1;
      }
    }

    /** The attribute's low nibble is the high nibble of the code; the cell has only a low one. */
    method PaintTilePixel(t: nat, cell: u8, bl: u8, glassy: bool)
      requires ValidArrays() && |palette| == 256 && t < COLUMNS && cell < 16
      modifies lineBuf, trFlag, priBuf
      ensures forall c :: 0 <= c < WIDTH ==>
                Column(c) ==
                if c == t then PlaneLayer(glassy, CellGlyph(palette, cell, bl), old(Column(c))) else old(Column(c))
    {
      var dat := bl % 16 * 16 + cell;
      CodeNibble(bl, cell);
      if glassy {
        if cell != 0 {
          lineBuf[t] := palette[dat];
          trFlag[t] := SetDrawn(trFlag[t]);
        }
      } else if dat != 0 {
        if dat % 16 != 0 || !Drawn(trFlag[t]) {
          lineBuf[t] := palette[dat];
          trFlag[t] := SetDrawn(trFlag[t]);
        }
      }
    }

    /** The 8x8 tile walk draws exactly the plane pixel under every column it reaches. */
    method DrawLoopX8(bgTop: nat, scrollX: u32, scrollY: u32, adjust: int, glassy: bool, ghost s: Scene)
      requires Valid() && s == SceneNow() && bgTop + MAP_SIZE <= BG_SIZE
      requires Plane(8, bgTop, scrollX, scrollY, adjust).End(s) <= COLUMNS
      modifies lineBuf, trFlag, priBuf
      ensures forall c :: 0 <= c < WIDTH ==>
                Column(c) ==
                PlaneLayer(glassy, Plane(8, bgTop, scrollX, scrollY, adjust).GlyphAt(s, c), old(Column(c)))
    {
      hide Plane.First, Plane.Y, Plane.GlyphAt, Plane.Entry, PlaneLayer, Coherent, AllKept, ScrollOf, U32;
      ghost var p := Plane(8, bgTop, scrollX, scrollY, adjust);
      var ebp, edx, edi, ecx := LoopStart8(bgTop, scrollX, scrollY, adjust);
      var i: int := textDotX / 8;
      ghost var k, tile := 0, (p.scrollX - p.adjust) / 8;
      OutsideWindow(s, p);
      while i >= 0
        invariant -1 <= i && k == textDotX / 8 - i && 0 <= ecx < 128 && p.Valid()
        invariant 0 <= edi && edi + 1 == p.First() + k * 8 && ecx == (tile + k) % 64 * 2
        invariant forall c :: 0 <= c < WIDTH ==>
                    Column(c) ==
                    if p.First() <= c <= edi then PlaneLayer(glassy, p.GlyphAt(s, c), old(Column(c)))
                    else old(Column(c))
      {
        EntryAt(s, p, (tile + k) % 64);
        DrawTile8(ecx + edx, ebp, edi, glassy, s, p, k);
        NextTile(tile + k);
        ecx := (ecx + 2) % 128;
        i, k, edi := i - 1, k + 1, edi + 8;
      }
      assert edi + 1 == p.End(s);
    }

    /** Row, map row, first column less one, and map column of a walk. */
    method LoopStart8(bgTop: nat, scrollX: u32, scrollY: u32, adjust: int)
      returns (ebp: nat, edx: nat, edi: int, ecx: int)
      requires Valid() && bgTop + MAP_SIZE <= BG_SIZE
      ensures
        var s, p := SceneNow(), Plane(8, bgTop, scrollX, scrollY, adjust);
        && ebp == p.Y(s) % 8 * 8 && edx == p.Entry(s, 0) && bgTop <= edx
        && 0 <= edi && edi + 1 == p.First() && 0 <= ecx < 128 && ecx == (p.scrollX - p.adjust) / 8 % 64 * 2
    {
      hide Coherent, AllKept, ScrollOf;
      ghost var s, p := SceneNow(), Plane(8, bgTop, scrollX, scrollY, adjust);
      var y, x := U32(scrollY as int + vLineBg - bgVLine), U32(scrollX as int - adjust);
      ebp, edx := y % 8 * 8, bgTop + y / 8 % 64 * 128;
      edi, ecx := 15 - x % 8, x / 8 % 64 * 2;
      PlaneRow(s, p, y);
      Wrapped(scrollX as int - adjust, 8);
    }

    method DrawTile8(entry: nat, ebp: nat, edi: nat, glassy: bool, ghost s: Scene, ghost p: Plane, ghost k: nat)
      requires Valid() && s == SceneNow() && p.Valid() && p.End(s) <= COLUMNS && p.size == 8 && k <= textDotX / 8
      requires edi + 1 == p.First() + k * 8 && ebp == p.Y(s) % 8 * 8
      requires entry == p.Entry(s, ((p.scrollX - p.adjust) / 8 + k) % 64)
      modifies lineBuf, trFlag, priBuf
      ensures forall c :: 0 <= c < WIDTH ==>
                Column(c) ==
                if edi < c <= edi + 8 then PlaneLayer(glassy, p.GlyphAt(s, c), old(Column(c))) else old(Column(c))
    {
      assert s.Valid() && |palette| == 256;
      hide Plane.GlyphAt, Plane.Entry, Plane.Y, TileStart, TileStep, PlaneLayer, CellGlyph, Coherent;
      hide SpriteUnit.ValidControl, SpriteUnit.ValidSprites, Plane.First;
      var bl, si := bg[entry], bg[entry + 1] as int * 64;
      var esi, d := TileStart(bl, si, 8, ebp), TileStep(bl);
      TileCached8(s, p, bgChr8[..], bgChr16[..], k, esi, d);
      TileColumns8(s, p, bgChr8[..], k, edi, esi, d, bl);
      DrawTileCells(bgChr8, esi, d, bl, edi, 8, glassy);
    }

    /** The 16x16 tile walk draws exactly the plane pixel under every column it reaches. */
    method DrawLoopX16(bgTop: nat, scrollX: u32, scrollY: u32, adjust: int, glassy: bool, ghost s: Scene)
      requires Valid() && s == SceneNow() && bgTop + MAP_SIZE <= BG_SIZE
      requires Plane(16, bgTop, scrollX, scrollY, adjust).End(s) <= COLUMNS
      modifies lineBuf, trFlag, priBuf
      ensures forall c :: 0 <= c < WIDTH ==>
                Column(c) ==
                PlaneLayer(glassy, Plane(16, bgTop, scrollX, scrollY, adjust).GlyphAt(s, c), old(Column(c)))
    {
      hide Plane.First, Plane.Y, Plane.GlyphAt, Plane.Entry, PlaneLayer, Coherent, AllKept, ScrollOf, U32;
      ghost var p := Plane(16, bgTop, scrollX, scrollY, adjust);
      var ebp, edx, edi, ecx := LoopStart16(bgTop, scrollX, scrollY, adjust);
      var i: int := textDotX / 16;
      ghost var k, tile := 0, (p.scrollX - p.adjust) / 16;
      OutsideWindow(s, p);
      while i >= 0
        invariant -1 <= i && k == textDotX / 16 - i && 0 <= ecx < 128 && p.Valid()
        invariant 0 <= edi && edi + 1 == p.First() + k * 16 && ecx == (tile + k) % 64 * 2
        invariant forall c :: 0 <= c < WIDTH ==>
                    Column(c) ==
                    if p.First() <= c <= edi then PlaneLayer(glassy, p.GlyphAt(s, c), old(Column(c)))
                    else old(Column(c))
      {
        EntryAt(s, p, (tile + k) % 64);
        DrawTile16(ecx + edx, ebp, edi, glassy, s, p, k);
        NextTile(tile + k);
        ecx := (ecx + 2) % 128;
        i, k, edi := i - 1, k + 1, edi + 16;
      }
      assert edi + 1 == p.End(s);
    }

    /** Row, map row, first column less one, and map column of a walk. */
    method LoopStart16(bgTop: nat, scrollX: u32, scrollY: u32, adjust: int)
      returns (ebp: nat, edx: nat, edi: int, ecx: int)
      requires Valid() && bgTop + MAP_SIZE <= BG_SIZE
      ensures
        var s, p := SceneNow(), Plane(16, bgTop, scrollX, scrollY, adjust);
        && ebp == p.Y(s) % 16 * 16 && edx == p.Entry(s, 0) && bgTop <= edx
        && 0 <= edi && edi + 1 == p.First() && 0 <= ecx < 128 && ecx == (p.scrollX - p.adjust) / 16 % 64 * 2
    {
      hide Coherent, AllKept, ScrollOf;
      ghost var s, p := SceneNow(), Plane(16, bgTop, scrollX, scrollY, adjust);
      var y, x := U32(scrollY as int + vLineBg - bgVLine), U32(scrollX as int - adjust);
      ebp, edx := y % 16 * 16, bgTop + y / 16 % 64 * 128;
      edi, ecx := 15 - x % 16, x / 16 % 64 * 2;
      PlaneRow(s, p, y);
      Wrapped(scrollX as int - adjust, 16);
    }

    method DrawTile16(entry: nat, ebp: nat, edi: nat, glassy: bool, ghost s: Scene, ghost p: Plane, ghost k: nat)
      requires Valid() && s == SceneNow() && p.Valid() && p.End(s) <= COLUMNS && p.size == 16 && k <= textDotX / 16
      requires edi + 1 == p.First() + k * 16 && ebp == p.Y(s) % 16 * 16
      requires entry == p.Entry(s, ((p.scrollX - p.adjust) / 16 + k) % 64)
      modifies lineBuf, trFlag, priBuf
      ensures forall c :: 0 <= c < WIDTH ==>
                Column(c) ==
                if edi < c <= edi + 16 then PlaneLayer(glassy, p.GlyphAt(s, c), old(Column(c))) else old(Column(c))
    {
      assert s.Valid() && |palette| == 256;
      hide Plane.GlyphAt, Plane.Entry, Plane.Y, TileStart, TileStep, PlaneLayer, CellGlyph, Coherent;
      hide SpriteUnit.ValidControl, SpriteUnit.ValidSprites, Plane.First;
      var bl, si := bg[entry], bg[entry + 1] as int * 256;
      var esi, d := TileStart(bl, si, 16, ebp), TileStep(bl);
      TileCached16(s, p, bgChr8[..], bgChr16[..], k, esi, d);
      TileColumns16(s, p, bgChr16[..], k, edi, esi, d, bl);
      DrawTileCells(bgChr16, esi, d, bl, edi, 16, glassy);
    }

    function Bg1Plane(): (p: Option<Plane>)
      reads this
      requires ValidControl()
      ensures p.Some? ==> p.value.Valid()
    {
      if bgRegs[9] / 8 % 2 == 1 && bgChrSize == 8 then Some(Plane(8, bg1Top, bg1ScrollX, bg1ScrollY, bgHAdjust))
      else None
    }

    /** The see-through 16x16 variant ignores the horizontal adjustment. */
    function Bg0Plane(glassy: bool): (p: Option<Plane>)
      reads this
      requires ValidControl()
      ensures p.Some? ==> p.value.Valid()
    {
      if bgRegs[9] % 2 == 0 then None
      else if bgChrSize == 8 then Some(Plane(8, bg0Top, bg0ScrollX, bg0ScrollY, bgHAdjust))
      else Some(Plane(16, bg0Top, bg0ScrollX, bg0ScrollY, if glassy then 0 else bgHAdjust))
    }

    /** The column a line starts from: the backdrop or what the text layer left, with no sprite yet. */
    ghost function Fresh(opaq: bool, t: nat): Pixel
      reads this, lineBuf, trFlag
      requires ValidArrays() && t < WIDTH && |palette| == 256
    {
      Pixel(if opaq then palette[0] else lineBuf[t], if t < COLUMNS then trFlag[t] else 0, 0xffff)
    }

    method ResetLine(opaq: bool)
      requires ValidArrays() && |palette| == 256 && textDotX + 16 <= WIDTH
      modifies lineBuf, priBuf
      ensures forall t :: 16 <= t < textDotX + 16 ==> Column(t) == old(Fresh(opaq, t))
    {
      var i := 16;
      while i < textDotX + 16
        invariant 16 <= i <= textDotX + 16
        invariant forall t :: 16 <= t < i ==> Column(t) == old(Fresh(opaq, t))
        invariant forall t :: i <= t < WIDTH ==> lineBuf[t] == old(lineBuf[t])
      {
        if opaq {
          lineBuf[i] := palette[0];
        }
        priBuf[i] := 0xffff;
        i := i + 1;
      }
    }

    method DrawBg1(glassy: bool, ghost s: Scene)
      requires Valid() && s == SceneNow() && PlaneFits(s, Bg1Plane())
      modifies lineBuf, trFlag, priBuf
      ensures forall c :: 0 <= c < WIDTH ==>
                Column(c) == PlaneLayer(glassy, PlaneGlyph(s, Bg1Plane(), c), old(Column(c)))
    {
      if bgRegs[9] / 8 % 2 == 1 && bgChrSize == 8 {
        DrawLoopX8(bg1Top, bg1ScrollX, bg1ScrollY, bgHAdjust, glassy, s);
      }
    }

    method DrawBg0(glassy: bool, ghost s: Scene)
      requires Valid() && s == SceneNow() && PlaneFits(s, Bg0Plane(glassy))
      modifies lineBuf, trFlag, priBuf
      ensures forall c :: 0 <= c < WIDTH ==>
                Column(c) == PlaneLayer(glassy, PlaneGlyph(s, Bg0Plane(glassy), c), old(Column(c)))
    {
      if bgRegs[9] % 2 == 1 {
        if bgChrSize == 8 {
          DrawLoopX8(bg0Top, bg0ScrollX, bg0ScrollY, bgHAdjust, glassy, s);
        } else {
          DrawLoopX16(bg0Top, bg0ScrollX, bg0ScrollY, if glassy then 0 else bgHAdjust, glassy, s);
        }
      }
    }

    /**
     One scan line. Every visible column is the picture of the five layers over that
     column; so its priority is 8 times the lowest sprite of any class that is opaque
     there, and its colour is that of the layer seen from the front. The line has to fit
     the buffers, and the planes that are on the columns that have text flags.
     */
    method DrawLine(opaq: bool, gd: bool)
      requires Valid() && textDotX + 16 <= WIDTH
      requires PlaneFits(SceneNow(), Bg1Plane()) && PlaneFits(SceneNow(), Bg0Plane(!gd))
      modifies lineBuf, trFlag, priBuf
      ensures forall t :: 16 <= t < textDotX + 16 ==>
                Column(t) == ColumnAfter(SceneNow(), !gd, Bg1Plane(), Bg0Plane(!gd), t, old(Fresh(opaq, t)))
      ensures forall t :: 16 <= t < textDotX + 16 ==>
                var n := Lowest(SceneNow().StripAt(t), {1, 2, 3}, 0);
                priBuf[t] == if n < SPRITES then n * 8 else 0xffff
      ensures forall t :: 16 <= t < textDotX + 16 ==>
                lineBuf[t] ==
                SeenColour(SceneNow().StripAt(t), !gd, PlaneGlyph(SceneNow(), Bg1Plane(), t),
                           PlaneGlyph(SceneNow(), Bg0Plane(!gd), t),
                           Drawn(old(Column(t)).flags), if opaq then palette[0] else old(lineBuf[t]))
    {
      hide SpriteLayer, PlaneLayer, PlaneGlyph, Scene.StripAt, Bg1Plane, Bg0Plane, SeenColour, Lowest;
      ghost var s := SceneNow();
      ResetLine(opaq);
      SpriteDrawLine(1, s);
      DrawBg1(!gd, s);
      SpriteDrawLine(2, s);
      DrawBg0(!gd, s);
      SpriteDrawLine(3, s);
      forall t | 16 <= t < textDotX + 16
        ensures Column(t) == ColumnAfter(s, !gd, Bg1Plane(), Bg0Plane(!gd), t, old(Fresh(opaq, t)))
        ensures
          var r, n :=
            ColumnAfter(s, !gd, Bg1Plane(), Bg0Plane(!gd), t, old(Fresh(opaq, t))), Lowest(s.StripAt(t), {1, 2, 3}, 0);
          && r.pri == (if n < SPRITES then n * 8 else 0xffff)
          && r.colour ==
             SeenColour(s.StripAt(t), !gd, PlaneGlyph(s, Bg1Plane(), t), PlaneGlyph(s, Bg0Plane(!gd), t),
                        Drawn(old(Column(t)).flags), old(Fresh(opaq, t)).colour)
      {
        var bg1, bg0 := PlaneGlyph(s, Bg1Plane(), t), PlaneGlyph(s, Bg0Plane(!gd), t);
        LineIsFrontToBack(s.StripAt(t), !gd, bg1, bg0, old(Fresh(opaq, t)));
      }
    }

    /**
     The planes in the registers: bits 0 and 3 of register 9 switch them on, bits 1 and 2, or 4
     and 5, move the map from 0x4000 to 0x6000. There is no BG1 of 16x16 tiles.
     */
    lemma PlanesInRegisters(glassy: bool)
      requires ValidControl()
      ensures
        var on := bgRegs[9];
        var top1 := if Bit(on, 4) == Bit(on, 5) == 0 then 0x4000 else 0x6000;
        var top0 := if Bit(on, 1) == Bit(on, 2) == 0 then 0x4000 else 0x6000;
        var adjust0 := if bgChrSize == 16 && glassy then 0 else bgHAdjust;
        && Bg1Plane() ==
           (if Bit(on, 3) == 1 && bgChrSize == 8 then Some(Plane(8, top1, bg1ScrollX, bg1ScrollY, bgHAdjust)) else None)
        && Bg0Plane(glassy) ==
           (if Bit(on, 0) == 1 then Some(Plane(bgChrSize, top0, bg0ScrollX, bg0ScrollY, adjust0)) else None)
    {
      TwoBits(bgRegs[9] / 2);
      TwoBits(bgRegs[9] / 16);
      HalveTwice(bgRegs[9], 2);
      HalveTwice(bgRegs[9], 16);
    }

    /** The distances between planes and display: 8 pixels a column less 4, whole or half lines, towards 0. */
    lemma Adjustments()
      requires |bgRegs| == BG_REGS
      ensures HAdjust() == 8 * bgRegs[13] as int - 8 * crtcHStart as int - 32
      ensures
        var d, v := bgRegs[15] as int - crtcVStart as int, VLine();
        if Bit(bgRegs[17], 2) == 1 then v == d
        else 2 * Abs(v) <= Abs(d) <= 2 * Abs(v) + 1 && (d >= 0 ==> v >= 0) && (d <= 0 ==> v <= 0)
    {
    }

    /**
     A sprite as the bus sees it: x, y, flips and bank, pattern, nothing, class, high bytes first.
     */
    lemma SpriteOnBus(n: nat, t: nat)
      requires Valid() && n < 128
      ensures
        var x0, x1, y0, y1 :=
          Peek(SpriteReg(8 * n)), Peek(SpriteReg(8 * n + 1)), Peek(SpriteReg(8 * n + 2)), Peek(SpriteReg(8 * n + 3));
        var ctrl, chr, ply := Peek(SpriteReg(8 * n + 4)), Peek(SpriteReg(8 * n + 5)), Peek(SpriteReg(8 * n + 7));
        var left := (256 * x0 as int + x1 + bgHAdjust) % 1024;
        var row := (vLineBg + 16 - bgVLine - (256 * (y0 as int % 4) + y1)) % 0x1_0000_0000;
        SceneNow().SpotAt(n, t) ==
        if left >= textDotX + 16 || row > 15 || t < left || t > left + 15 then Clear
        else
          var v := Dot16(bg[..], chr, if Bit(ctrl, 6) == 1 then 15 - (t - left) else t - left,
                         if Bit(ctrl, 7) == 1 then 15 - row else row);
          if v == 0 then Clear else Spot(ply % 4, palette[16 * (ctrl % 16) + v])
    {
      hide Scene.SpotAt, Dot16, Bit, Coherent, AllKept, ScrollOf;
      SpriteInBytes(SceneNow(), n, t);
      SwapIs(4 * n);
      SwapIs(4 * n + 1);
      SwapIs(4 * n + 2);
      SwapIs(4 * n + 3);
    }

    /** The horizontal distance between the planes and the display, in pixels. */
    function HAdjust(): int
      reads this
      requires |bgRegs| == BG_REGS
    {
      (bgRegs[0x0d] - (crtcHStart as int + 4)) * 8
    }

    /** The vertical distance, halved unless register 11h selects 512 lines. */
    function VLine(): int
      reads this
      requires |bgRegs| == BG_REGS
    {
      CDiv(bgRegs[0x0f] - crtcVStart as int, if bgRegs[0x11] / 4 % 2 == 1 then 1 else 2)
    }
  }

  // ----- registers and addresses bit by bit

  /** Sprite memory holds its words with their bytes exchanged. */
  lemma SwapIs(k: nat)
    ensures Swap(2 * k) == 2 * k + 1 && Swap(2 * k + 1) == 2 * k
  {
  }

  lemma TwoBits(x: nat)
    ensures x % 4 == x % 2 + 2 * (x / 2 % 2)
  {
  }

  /** The scroll values are cut to the size of the plane. */
  lemma MaskedIs(x: nat)
    ensures Masked(x, 511) == x % 512 && Masked(x, 1023) == x % 1024
  {
  }

  /** What the bus decodes: sprites from 0xeb0000, control from 0xeb0800, patterns from 0xeb8000, and nothing else. */
  lemma DecodeIs(adr: u32, k: nat)
    ensures k < 0x400 ==> Decode(0xeb_0000 + k) == SpriteReg(k)
    ensures k < 0x12 ==> Decode(0xeb_0800 + k) == BgReg(k)
    ensures k < 0x8000 ==> Decode(0xeb_8000 + k) == Pattern(k)
    ensures
      Decode(adr) == Nowhere <==>
      adr < 0xeb_0000 || 0xeb_03ff < adr < 0xeb_0800 || 0xeb_0811 < adr < 0xeb_8000 || adr > 0xeb_ffff
  {
  }

  const SPRITE_MASKS: seq<u8> := [0x03, 0xff, 0x03, 0xff, 0xcf, 0xff, 0x00, 0x03]

  /** The eight bytes of a sprite and the bytes of the control registers keep the bits of these masks. */
  lemma KeptBits(k: nat, r: nat, a: nat, data: u8, i: nat)
    requires i < 8
    ensures Bit(SpriteReg(k).Kept(data), i) == Bit(SPRITE_MASKS[k % 8], i) * Bit(data, i)
    ensures Bit(BgReg(r).Kept(data), i) == (if r in {0, 2, 4, 6} && i >= 2 then 0 else Bit(data, i))
    ensures Pattern(a).Kept(data) == data
  {
    LowBits(data, i);
    MiddleBits(data, i);
    AllOrNothing(i);
  }

  lemma AllOrNothing(i: nat)
    requires i < 8
    ensures Bit(0xff, i) == 1 && Bit(0, i) == 0
  {
  }

  lemma LowBits(data: u8, i: nat)
    requires i < 8
    ensures Bit(data % 4, i) == (if i < 2 then Bit(data, i) else 0) && Bit(3, i) == if i < 2 then 1 else 0
  {
    hide Bit;
    BitsOfByte(data);
    var b := ToBits(data);
    var h := b[2] + 2 * b[3] + 4 * b[4] + 8 * b[5] + 16 * b[6] + 32 * b[7];
    DivModUnique(data, 4, h, b[0] + 2 * b[1]);
    BitsUnique([b[0], b[1], 0, 0, 0, 0, 0, 0], i);
    BitsUnique([1, 1, 0, 0, 0, 0, 0, 0], i);
  }

  lemma MiddleBits(data: u8, i: nat)
    requires i < 8
    ensures Bit(data / 64 * 64 + data % 16, i) == (if i == 4 || i == 5 then 0 else Bit(data, i))
    ensures Bit(0xcf, i) == if i == 4 || i == 5 then 0 else 1
  {
    hide Bit;
    BitsOfByte(data);
    var b := ToBits(data);
    var l, m, h := b[0] + 2 * b[1] + 4 * b[2] + 8 * b[3], b[4] + 2 * b[5], b[6] + 2 * b[7];
    DivModUnique(data, 64, h, 16 * m + l);
    DivModUnique(data, 16, 4 * h + m, l);
    BitsUnique([b[0], b[1], b[2], b[3], 0, 0, b[6], b[7]], i);
    BitsUnique([1, 1, 1, 1, 0, 0, 1, 1], i);
  }

  /** One sprite more of a pass. */
  lemma PassStep(s: Scene, ply: nat, n: nat, t: nat, first: Pixel, px: Pixel)
    requires s.Valid() && n < SPRITES
    requires px == SpritesDownTo(s.StripAt(t), ply, n + 1, first)
    ensures PaintSpot(s.SpotAt(n, t), ply, n, px) == SpritesDownTo(s.StripAt(t), ply, n, first)
  {
    assert s.StripAt(t)[n] == s.SpotAt(n, t);
  }

  lemma ClearKeeps(ply: nat, n: nat)
    requires n < SPRITES
    ensures forall px: Pixel :: PaintSpot(Clear, ply, n, px) == px
  {
  }

  lemma OnLineBounds(s: Scene, n: nat)
    requires s.Valid() && n < SPRITES && s.OnLine(n)
    ensures s.Left(n) < 0x400 && s.Row(n) < 16
  {
  }

  /** A sprite of another class, or off the line, leaves every pixel as it is. */
  lemma NotSeen(s: Scene, n: nat, ply: nat)
    requires s.Valid() && n < SPRITES
    ensures s.Ply(n) != ply || !s.OnLine(n) ==>
              forall t: nat, px: Pixel :: PaintSpot(s.SpotAt(n, t), ply, n, px) == px
  {
    hide Scene.Row, Scene.Left, Scene.SpriteNibble, Scene.Bank;
  }

  /** The cell a walk in direction d reaches after i steps. */
  function Walk(p: int, d: int, i: int): int { if d == 1 then p + i else p - i }

  /** A walk of `count` steps stays inside a buffer. */
  predicate WalkFits(p: int, d: int, count: nat, size: nat) {
    (d == 1 && 0 <= p && p + count <= size) || (d == -1 && count <= p + 1 <= size)
  }

  function CellSpot(palette: seq<u32>, cell: u8, bank: nat, ply: nat): Spot
    requires |palette| == 256 && bank < 16
  {
    if cell % 16 == 0 then Clear else Spot(ply, palette[bank * 16 + cell % 16])
  }

  /** First cell of a row walk over a 16x16 pattern, flipped or not. */
  function RowStart(chr: u8, y: nat, hflip: bool, vflip: bool): int {
    chr * 256 + (if vflip then 240 - y * 16 else y * 16) + if hflip then 15 else 0
  }

  lemma RowCell(bg: seq<u8>, chr8: seq<u8>, chr16: seq<u8>, chr: u8, y: nat, hflip: bool, vflip: bool, i: nat)
    requires Lengths(bg, chr8, chr16) && Coherent(bg, chr8, chr16)
    requires y < 16 && i < 16
    ensures
      var p, d := RowStart(chr, y, hflip, vflip), if hflip then -1 else 1;
      && WalkFits(p, d, 16, CHR16_SIZE)
      && chr16[Walk(p, d, i)] == Pixel16(bg, chr, if hflip then 15 - i else i, if vflip then 15 - y else y)
  {
    Chr16Pixel(bg, chr8, chr16, chr, if hflip then 15 - i else i, if vflip then 15 - y else y);
  }

  /** The cells of the row walk are the pixels of the sprite. */
  lemma SpriteRowCached(s: Scene, chr8: seq<u8>, chr16: seq<u8>, n: nat, p: int, d: int)
    requires s.Valid() && Lengths(s.bg, chr8, chr16) && Coherent(s.bg, chr8, chr16)
    requires n < SPRITES && s.OnLine(n)
    requires p == RowStart(s.Chr(n), s.Row(n), s.FlipsX(n), s.FlipsY(n)) && d == if s.FlipsX(n) then -1 else 1
    ensures WalkFits(p, d, 16, CHR16_SIZE)
    ensures forall i :: 0 <= i < 16 ==>
              && chr16[Walk(p, d, i)] < 16
              && s.SpotOf(n, i) == CellSpot(s.palette, chr16[Walk(p, d, i)], s.Bank(n), s.Ply(n))
  {
    hide Pixel16, RowStart, Coherent, Scene.Chr, Scene.Row, Scene.FlipsX, Scene.FlipsY, Scene.Bank, Scene.Ply;
    RowCell(s.bg, chr8, chr16, s.Chr(n), s.Row(n), s.FlipsX(n), s.FlipsY(n), 0);
    forall i | 0 <= i < 16
      ensures chr16[Walk(p, d, i)] == s.SpriteNibble(n, i)
    {
      RowCell(s.bg, chr8, chr16, s.Chr(n), s.Row(n), s.FlipsX(n), s.FlipsY(n), i);
    }
  }

  function CellGlyph(palette: seq<u32>, cell: u8, bl: u8): Glyph
    requires |palette| == 256 && cell < 16
  {
    Glyph(bl % 16 * 16 + cell, palette[bl % 16 * 16 + cell])
  }

  lemma CodeNibble(bl: u8, cell: u8)
    requires cell < 16
    ensures (bl % 16 * 16 + cell) % 16 == cell
  {
    DivModUnique(bl % 16 * 16 + cell, 16, bl % 16, cell);
  }

  /** Where a tile row starts in the cache: attribute bits 6 and 7 flip it. */
  function TileStart(bl: u8, si: nat, size: nat, ebp: nat): int
  {
    if bl < 0x40 then si + ebp
    else if (bl - 0x40) / 0x80 % 2 == 1 then si + size * size - 1 - ebp
    else if bl < 0x80 then si + ebp + size - 1
    else si + size * (size - 1) - ebp
  }

  function TileStep(bl: u8): int {
    if bl < 0x40 then 1 else if (bl - 0x40) / 0x80 % 2 == 1 || bl < 0x80 then -1 else 1
  }

  lemma TileFlips(bl: u8)
    ensures (bl / 64 % 2 == 1) == (0x40 <= bl < 0x80 || 0xc0 <= bl)
    ensures (bl / 128 == 1) == (bl >= 0x80)
    ensures bl >= 0x40 ==> ((bl - 0x40) / 0x80 % 2 == 1) == (bl >= 0xc0)
  {
  }

  /** The map row and the pixel row of a plane on this line, from the 32-bit sum. */
  lemma PlaneRow(s: Scene, p: Plane, y: u32)
    requires s.Valid() && p.Valid() && y == U32(p.scrollY as int + s.vLineBg - s.vLine)
    ensures p.Y(s) / p.size == y / p.size % 64 && p.Y(s) % p.size == y % p.size
  {
    Wrapped(p.scrollY as int + s.vLineBg - s.vLine, p.size);
    TileOf(p.scrollY as int + s.vLineBg - s.vLine, p.size);
  }

  lemma NextTile(tile: int)
    ensures (tile % 64 * 2 + 2) % 128 == (tile + 1) % 64 * 2
  {
    var q, r := tile / 64, tile % 64;
    if r == 63 {
      DivModUnique(tile + 1, 64, q + 1, 0);
    } else {
      DivModUnique(tile + 1, 64, q, r + 1);
    }
  }

  /** A plane that is on ends within the columns that have text flags. */
  predicate PlaneFits(s: Scene, p: Option<Plane>)
    requires p.Some? ==> p.value.Valid()
  {
    p.Some? ==> p.value.End(s) <= COLUMNS
  }

  /** It does on every line of up to 1092 pixels, and on none that is wider than those columns. */
  lemma LineFits(s: Scene, p: Plane)
    requires p.Valid()
    ensures s.textDotX + 32 <= COLUMNS ==> PlaneFits(s, Some(p))
    ensures PlaneFits(s, Some(p)) ==> s.textDotX < COLUMNS
  {
    var n := s.textDotX / p.size;
    if p.size == 8 {
      assert s.textDotX == 8 * n + s.textDotX % 8;
    } else {
      assert s.textDotX == 16 * n + s.textDotX % 16;
    }
  }

  /** Two bytes to a map entry. */
  lemma EntryAt(s: Scene, p: Plane, tile: nat)
    requires p.Valid() && tile < 64
    ensures p.Entry(s, tile) == p.Entry(s, 0) + 2 * tile
  {
  }

  lemma OutsideWindow(s: Scene, p: Plane)
    requires s.Valid() && p.Valid()
    ensures forall c :: !(p.First() <= c < p.End(s)) ==> p.GlyphAt(s, c) == Outside
    ensures forall glassy: bool, px: Pixel :: PlaneLayer(glassy, Outside, px) == px
  {
  }

  lemma TileCell8(bg: seq<u8>, chr8: seq<u8>, chr16: seq<u8>, bl: u8, chr: u8, y: nat, j: nat)
    requires Lengths(bg, chr8, chr16) && Coherent(bg, chr8, chr16) && y < 8 && j < 8
    ensures
      var p, d := TileStart(bl, chr * 64, 8, y * 8), TileStep(bl);
      && WalkFits(p, d, 8, CHR8_SIZE)
      && chr8[Walk(p, d, j)] ==
         Pixel8(bg, chr, if bl / 64 % 2 == 1 then 7 - j else j, if bl / 128 == 1 then 7 - y else y)
  {
    TileFlips(bl);
    Chr8Pixel(bg, chr8, chr16, chr, if bl / 64 % 2 == 1 then 7 - j else j, if bl / 128 == 1 then 7 - y else y);
  }

  lemma TileCell16(bg: seq<u8>, chr8: seq<u8>, chr16: seq<u8>, bl: u8, chr: u8, y: nat, j: nat)
    requires Lengths(bg, chr8, chr16) && Coherent(bg, chr8, chr16) && y < 16 && j < 16
    ensures
      var p, d := TileStart(bl, chr * 256, 16, y * 16), TileStep(bl);
      && WalkFits(p, d, 16, CHR16_SIZE)
      && chr16[Walk(p, d, j)] ==
         Pixel16(bg, chr, if bl / 64 % 2 == 1 then 15 - j else j, if bl / 128 == 1 then 15 - y else y)
  {
    TileFlips(bl);
    Chr16Pixel(bg, chr8, chr16, chr, if bl / 64 % 2 == 1 then 15 - j else j, if bl / 128 == 1 then 15 - y else y);
  }

  lemma TilePixel8(s: Scene, p: Plane, chr8: seq<u8>, chr16: seq<u8>, tile: nat, esi: int, d: int, j: nat)
    requires s.Valid() && p.Valid() && p.size == 8 && Lengths(s.bg, chr8, chr16) && Coherent(s.bg, chr8, chr16)
    requires tile < 64 && j < 8
    requires
      var e := p.Entry(s, tile);
      esi == TileStart(s.bg[e], s.bg[e + 1] as int * 64, 8, p.Y(s) % 8 * 8) && d == TileStep(s.bg[e])
    ensures WalkFits(esi, d, 8, CHR8_SIZE)
    ensures chr8[Walk(esi, d, j)] < 16
    ensures p.TileCode(s, tile, j) == s.bg[p.Entry(s, tile)] % 16 * 16 + chr8[Walk(esi, d, j)]
  {
    hide Coherent, Pixel8, Plane.Entry, Plane.Y, TileStart, TileStep;
    var e := p.Entry(s, tile);
    TileCell8(s.bg, chr8, chr16, s.bg[e], s.bg[e + 1], p.Y(s) % 8, j);
  }

  /** The cells of the k-th 8x8 tile are the glyphs of its eight columns. */
  lemma TileCached8(s: Scene, p: Plane, chr8: seq<u8>, chr16: seq<u8>, k: nat, esi: int, d: int)
    requires s.Valid() && p.Valid() && p.size == 8 && Lengths(s.bg, chr8, chr16) && Coherent(s.bg, chr8, chr16)
    requires k <= s.textDotX / 8
    requires
      var e := p.Entry(s, ((p.scrollX - p.adjust) / 8 + k) % 64);
      esi == TileStart(s.bg[e], s.bg[e + 1] as int * 64, 8, p.Y(s) % 8 * 8) && d == TileStep(s.bg[e])
    ensures WalkFits(esi, d, 8, CHR8_SIZE)
    ensures forall j :: 0 <= j < 8 ==>
              && chr8[Walk(esi, d, j)] < 16
              && p.GlyphAt(s, p.First() + k * 8 + j) ==
                 CellGlyph(s.palette, chr8[Walk(esi, d, j)], s.bg[p.Entry(s, ((p.scrollX - p.adjust) / 8 + k) % 64)])
  {
    hide Coherent, Pixel8, Plane.Entry, Plane.Y, Plane.X, Plane.TileCode, TileStart, TileStep, Plane.GlyphAt;
    var e := p.Entry(s, ((p.scrollX - p.adjust) / 8 + k) % 64);
    TileCell8(s.bg, chr8, chr16, s.bg[e], s.bg[e + 1], p.Y(s) % 8, 0);
    forall j | 0 <= j < 8
      ensures chr8[Walk(esi, d, j)] < 16
      ensures p.GlyphAt(s, p.First() + k * 8 + j) == CellGlyph(s.palette, chr8[Walk(esi, d, j)], s.bg[e])
    {
      TilePixel8(s, p, chr8, chr16, ((p.scrollX - p.adjust) / 8 + k) % 64, esi, d, j);
      GlyphOfWalk(s, p, k, j);
    }
  }

  lemma TilePixel16(s: Scene, p: Plane, chr8: seq<u8>, chr16: seq<u8>, tile: nat, esi: int, d: int, j: nat)
    requires s.Valid() && p.Valid() && p.size == 16 && Lengths(s.bg, chr8, chr16) && Coherent(s.bg, chr8, chr16)
    requires tile < 64 && j < 16
    requires
      var e := p.Entry(s, tile);
      esi == TileStart(s.bg[e], s.bg[e + 1] as int * 256, 16, p.Y(s) % 16 * 16) && d == TileStep(s.bg[e])
    ensures WalkFits(esi, d, 16, CHR16_SIZE)
    ensures chr16[Walk(esi, d, j)] < 16
    ensures p.TileCode(s, tile, j) == s.bg[p.Entry(s, tile)] % 16 * 16 + chr16[Walk(esi, d, j)]
  {
    hide Coherent, Pixel16, Plane.Entry, Plane.Y, TileStart, TileStep;
    var e := p.Entry(s, tile);
    TileCell16(s.bg, chr8, chr16, s.bg[e], s.bg[e + 1], p.Y(s) % 16, j);
  }

  /** The cells of the k-th 8x8 tile are the glyphs of its eight columns. */
  lemma TileColumns8(s: Scene, p: Plane, chr: seq<u8>, k: nat, edi: nat, esi: int, d: int, bl: u8)
    requires s.Valid() && p.Valid() && edi + 1 == p.First() + k * 8 && WalkFits(esi, d, 8, |chr|)
    requires forall j :: 0 <= j < 8 ==> chr[Walk(esi, d, j)] < 16
    requires
      forall j :: 0 <= j < 8 ==> p.GlyphAt(s, p.First() + k * 8 + j) == CellGlyph(s.palette, chr[Walk(esi, d, j)], bl)
    ensures forall c: int :: edi < c <= edi + 8 ==>
              chr[Walk(esi, d, c - edi - 1)] < 16 && p.GlyphAt(s, c) ==
              CellGlyph(s.palette, chr[Walk(esi, d, c - edi - 1)], bl)
  {
    hide Plane.GlyphAt, CellGlyph, Plane.First;
    forall c: int | edi < c <= edi + 8
      ensures chr[Walk(esi, d, c - edi - 1)] < 16
      ensures p.GlyphAt(s, c) == CellGlyph(s.palette, chr[Walk(esi, d, c - edi - 1)], bl)
    {
      assert c == p.First() + k * 8 + (c - edi - 1);
    }
  }

  /** And those of the k-th 16x16 tile of its sixteen. */
  lemma TileColumns16(s: Scene, p: Plane, chr: seq<u8>, k: nat, edi: nat, esi: int, d: int, bl: u8)
    requires s.Valid() && p.Valid() && edi + 1 == p.First() + k * 16 && WalkFits(esi, d, 16, |chr|)
    requires forall j :: 0 <= j < 16 ==> chr[Walk(esi, d, j)] < 16
    requires
      forall j :: 0 <= j < 16 ==>
        p.GlyphAt(s, p.First() + k * 16 + j) == CellGlyph(s.palette, chr[Walk(esi, d, j)], bl)
    ensures forall c: int :: edi < c <= edi + 16 ==>
              chr[Walk(esi, d, c - edi - 1)] < 16 && p.GlyphAt(s, c) ==
              CellGlyph(s.palette, chr[Walk(esi, d, c - edi - 1)], bl)
  {
    hide Plane.GlyphAt, CellGlyph, Plane.First;
    forall c: int | edi < c <= edi + 16
      ensures chr[Walk(esi, d, c - edi - 1)] < 16
      ensures p.GlyphAt(s, c) == CellGlyph(s.palette, chr[Walk(esi, d, c - edi - 1)], bl)
    {
      assert c == p.First() + k * 16 + (c - edi - 1);
    }
  }

  lemma TileCached16(s: Scene, p: Plane, chr8: seq<u8>, chr16: seq<u8>, k: nat, esi: int, d: int)
    requires s.Valid() && p.Valid() && p.size == 16 && Lengths(s.bg, chr8, chr16) && Coherent(s.bg, chr8, chr16)
    requires k <= s.textDotX / 16
    requires
      var e := p.Entry(s, ((p.scrollX - p.adjust) / 16 + k) % 64);
      esi == TileStart(s.bg[e], s.bg[e + 1] as int * 256, 16, p.Y(s) % 16 * 16) && d == TileStep(s.bg[e])
    ensures WalkFits(esi, d, 16, CHR16_SIZE)
    ensures forall j :: 0 <= j < 16 ==>
              && chr16[Walk(esi, d, j)] < 16
              && p.GlyphAt(s, p.First() + k * 16 + j) ==
                 CellGlyph(s.palette, chr16[Walk(esi, d, j)], s.bg[p.Entry(s, ((p.scrollX - p.adjust) / 16 + k) % 64)])
  {
    hide Coherent, Pixel16, Plane.Entry, Plane.Y, Plane.X, Plane.TileCode, TileStart, TileStep, Plane.GlyphAt;
    var e := p.Entry(s, ((p.scrollX - p.adjust) / 16 + k) % 64);
    TileCell16(s.bg, chr8, chr16, s.bg[e], s.bg[e + 1], p.Y(s) % 16, 0);
    forall j | 0 <= j < 16
      ensures chr16[Walk(esi, d, j)] < 16
      ensures p.GlyphAt(s, p.First() + k * 16 + j) == CellGlyph(s.palette, chr16[Walk(esi, d, j)], s.bg[e])
    {
      TilePixel16(s, p, chr8, chr16, ((p.scrollX - p.adjust) / 16 + k) % 64, esi, d, j);
      GlyphOfWalk(s, p, k, j);
    }
  }

  function Blank(n: nat): (s: seq<u8>)
    ensures |s| == n
  {
    seq(n, _ => 0)
  }

  method Zeroes(n: nat) returns (a: array<u8>)
    ensures fresh(a) && a[..] == Blank(n)
  {
    a := new u8[n](_ => 0);
  }

  lemma NoScroll(high: u8, low: u8)
    requires high == 0 && low == 0
    ensures ScrollOf(0, high, low)
  {
  }

  lemma NoPlanes()
    ensures TopsOf(0, 0, 0)
  {
    assert 0 / 8 % 2 == 0;
  }

  lemma BlankIsKept(regs: seq<u8>)
    requires regs == Blank(REGS_SIZE)
    ensures AllKept(regs)
  {
    forall i | 0 <= i < 0x400
      ensures regs[i] == KeptBySprite(Swap(i % 8), regs[i])
    {
      assert regs[i] == 0;
    }
  }

  lemma BlankIsCoherent()
    ensures Coherent(Blank(BG_SIZE), Blank(CHR8_SIZE), Blank(CHR16_SIZE))
  {
    forall i | 0 <= i < CHR16_SIZE
      ensures Chr16Address(i) < BG_SIZE
    {
      Chr16Bijection(0, i);
    }
  }

  lemma SwapTwice(i: nat)
    ensures Swap(Swap(i)) == i && Swap(i) % 8 == Swap(i % 8) && Swap(Swap(i) % 8) == i % 8
    ensures i < 0x400 ==> Swap(i) < 0x400
  {
    SwapBack(i);
    SwapBack(i % 8);
    SwapInEight(i / 8, i % 8);
  }

  lemma SwapApart()
    ensures forall i: nat, j: nat :: Swap(i) == Swap(j) ==> i == j
  {
    forall i: nat, j: nat | Swap(i) == Swap(j)
      ensures i == j
    {
      SwapBack(i);
      SwapBack(j);
    }
  }

  lemma SwapBack(i: nat)
    ensures Swap(Swap(i)) == i
  {
    var h, l := i / 2, i % 2;
    DivModUnique(2 * h + 1 - l, 2, h, 1 - l);
  }

  lemma SwapInEight(q: nat, b: nat)
    requires b < 8
    ensures Swap(b) < 8 && Swap(8 * q + b) == 8 * q + Swap(b) && Swap(8 * q + b) % 8 == Swap(b)
  {
    DivModUnique(8 * q + b, 2, 4 * q + b / 2, b % 2);
    DivModUnique(8 * q + Swap(b), 8, q, Swap(b));
  }

  lemma KeptTwice(i: nat, data: u8)
    ensures Swap(Swap(i) % 8) == i % 8
    ensures KeptBySprite(i % 8, KeptBySprite(i % 8, data)) == KeptBySprite(i % 8, data)
  {
    var b := i % 8;
    SwapTwice(i);
    DivModUnique(data / 64 * 64 + data % 16, 64, data / 64, data % 16);
    DivModUnique(data / 64 * 64 + data % 16, 16, data / 64 * 4, data % 16);
  }

  lemma MaskedScroll(high: u8, low: u8, mask: nat)
    requires high < 4
    ensures ScrollOf(Masked(Word(high, low), mask), high, low)
  {
  }
}
