/**
 What the sprites and the background planes show at each column of a scan line, as a
 function of sprite memory, pattern memory and the scroll registers (`Scene`). Nothing
 here walks: every pixel is sampled from packed pattern memory at its own coordinates.
 */
module Scanline {
  import opened CInt
  import opened Pcg
  import opened Layers
  import opened Wrappers

  const REGS_SIZE := 0x800
  const MAP_SIZE := 0x2000

  datatype Scene = Scene(
    bg: seq<u8>, spriteRegs: seq<u8>, palette: seq<u32>,
    hAdjust: int, vLine: int, vLineBg: int, textDotX: nat)
  {
    predicate Valid() {
      |bg| == BG_SIZE && |spriteRegs| == REGS_SIZE && |palette| == 256
    }

    /** A 16-bit register of the little-endian host layout. */
    function Word(i: nat): u16
      requires Valid() && i < 4 * SPRITES
    {
      CInt.Word(spriteRegs[2 * i + 1], spriteRegs[2 * i])
    }

    function Ctrl(n: nat): u16
      requires Valid() && n < SPRITES
    {
      Word(4 * n + 2)
    }

    function Chr(n: nat): u8
      requires Valid() && n < SPRITES
    {
      Ctrl(n) % 0x100
    }

    function Bank(n: nat): (bank: nat)
      requires Valid() && n < SPRITES
      ensures bank < 16
    {
      Ctrl(n) / 0x100 % 16
    }

    predicate FlipsX(n: nat)
      requires Valid() && n < SPRITES
    {
      Ctrl(n) / 0x4000 % 2 == 1
    }

    predicate FlipsY(n: nat)
      requires Valid() && n < SPRITES
    {
      Ctrl(n) / 0x8000 == 1
    }

    /** The priority class of sprite n: 0 is hidden, 1..3 name the pass that draws it. */
    function Ply(n: nat): nat
      requires Valid() && n < SPRITES
    {
      Word(4 * n + 3) % 4
    }

    /** The buffer column of the left edge of sprite n. */
    function Left(n: nat): nat
      requires Valid() && n < SPRITES
    {
      (Word(4 * n) + hAdjust) % 0x400
    }

    /** The row of sprite n that falls on this line; it misses the line when above 15. */
    function Row(n: nat): u32
      requires Valid() && n < SPRITES
    {
      U32(16 - (Word(4 * n + 1) % 0x400 - vLineBg + vLine))
    }

    predicate OnLine(n: nat)
      requires Valid() && n < SPRITES
    {
      Left(n) < textDotX + 16 && Row(n) < 16
    }

    /** The pixel of sprite n in its column x on this line. */
    function SpriteNibble(n: nat, x: nat): (v: int)
      requires Valid() && n < SPRITES && x < 16 && OnLine(n)
      ensures 0 <= v < 16
    {
      Pixel16(bg, Chr(n), if FlipsX(n) then 15 - x else x, if FlipsY(n) then 15 - Row(n) else Row(n))
    }

    function SpotOf(n: nat, x: nat): Spot
      requires Valid() && n < SPRITES && x < 16 && OnLine(n)
    {
      if SpriteNibble(n, x) == 0 then Clear
      else Spot(Ply(n), palette[Bank(n) * 16 + SpriteNibble(n, x)])
    }

    function SpotAt(n: nat, t: nat): Spot
      requires Valid() && n < SPRITES
    {
      if OnLine(n) && Left(n) <= t < Left(n) + 16 then SpotOf(n, t - Left(n)) else Clear
    }

    /** Every sprite at column t. */
    function StripAt(t: nat): Strip
      requires Valid()
    {
      seq(SPRITES, n requires 0 <= n < SPRITES => SpotAt(n, t))
    }
  }

  /** Pixel (x, y) of a 16x16 pattern in pattern memory. */
  function Pixel16(bg: seq<u8>, chr: u8, x: nat, y: nat): (v: int)
    requires |bg| == BG_SIZE && x < 16 && y < 16
    ensures 0 <= v < 16
  {
    Nibble(bg[chr * 128 + x / 8 * 64 + y * 4 + x % 8 / 2], x % 2 == 1)
  }

  /** Pixel (x, y) of an 8x8 pattern in pattern memory. */
  function Pixel8(bg: seq<u8>, chr: u8, x: nat, y: nat): (v: int)
    requires |bg| == BG_SIZE && x < 8 && y < 8
    ensures 0 <= v < 16
  {
    Nibble(bg[chr * 32 + y * 4 + x / 2], x % 2 == 1)
  }

  /** A coherent BGCHR16 holds each 16x16 pattern in raster order. */
  lemma Chr16Pixel(bg: seq<u8>, chr8: seq<u8>, chr16: seq<u8>, chr: u8, x: nat, y: nat)
    requires Lengths(bg, chr8, chr16) && Coherent(bg, chr8, chr16)
    requires x < 16 && y < 16
    ensures chr16[chr * 256 + y * 16 + x] == Pixel16(bg, chr, x, y)
  {
    var cell := chr * 256 + y * 16 + x;
    assert chr16[cell] == Nibble(bg[Chr16Address(cell)], cell % 2 == 1);
    IndexDigits(cell, x % 8 / 2, x % 2, y, x / 8, chr);
  }

  /** A coherent BGCHR8 holds each 8x8 pattern in raster order. */
  lemma Chr8Pixel(bg: seq<u8>, chr8: seq<u8>, chr16: seq<u8>, chr: u8, x: nat, y: nat)
    requires Lengths(bg, chr8, chr16) && Coherent(bg, chr8, chr16)
    requires x < 8 && y < 8
    ensures chr8[chr * 64 + y * 8 + x] == Pixel8(bg, chr, x, y)
  {
    var cell := chr * 64 + y * 8 + x;
    assert cell / 2 == chr * 32 + y * 4 + x / 2 && cell % 2 == x % 2;
    assert chr8[cell] == Nibble(bg[cell / 2], cell % 2 == 1);
  }

  /** A plane of 64x64 tiles of 8x8 or 16x16 pixels. */
  datatype Plane = Plane(size: nat, top: nat, scrollX: u32, scrollY: u32, adjust: int)
  {
    predicate Valid() {
      (size == 8 || size == 16) && top + MAP_SIZE <= BG_SIZE
    }

    /** The plane coordinates under column t of the line. */
    function X(t: int): (x: nat)
      requires Valid()
      ensures x < 64 * size
    {
      (t - 16 + scrollX - adjust) % (64 * size)
    }

    function Y(s: Scene): (y: nat)
      requires Valid()
      ensures y < 64 * size
    {
      (scrollY + s.vLineBg - s.vLine) % (64 * size)
    }

    /** First column the tile walk writes: the first tile starts left of column 16. */
    function First(): nat
      requires Valid()
    {
      16 - (scrollX - adjust) % size
    }

    /** One past the last column the tile walk writes. */
    function End(s: Scene): nat
      requires Valid()
    {
      First() + (s.textDotX / size + 1) * size
    }

    /** The map entry of a tile: attributes, then pattern number. */
    function Entry(s: Scene, tileX: nat): (e: nat)
      requires Valid() && tileX < 64
      ensures e + 1 < top + MAP_SIZE
    {
      assert Y(s) / size < 64 by {
        if size == 8 {
          assert Y(s) < 512;
        } else {
          assert Y(s) < 1024;
        }
      }
      top + Y(s) / size * 128 + tileX * 2
    }

    /** The palette code of pixel x of a tile: the attribute's low nibble, then the pattern pixel. */
    function TileCode(s: Scene, tileX: nat, x: nat): (v: int)
      requires Valid() && s.Valid() && tileX < 64 && x < size
      ensures 0 <= v < 256
    {
      var attr, chr := s.bg[Entry(s, tileX)], s.bg[Entry(s, tileX) + 1];
      var y := Y(s) % size;
      var x', y' := if attr / 64 % 2 == 1 then size - 1 - x else x, if attr / 128 == 1 then size - 1 - y else y;
      attr % 16 * 16 + if size == 8 then Pixel8(s.bg, chr, x', y') else Pixel16(s.bg, chr, x', y')
    }

    function GlyphAt(s: Scene, t: int): Glyph
      requires Valid() && s.Valid()
    {
      if First() <= t < End(s) then
        var code := TileCode(s, X(t) / size, X(t) % size);
        Glyph(code, s.palette[code])
      else
        Outside
    }
  }

  /** The tile walk covers the visible columns iff the line ends on a tile or starts far enough in one. */
  lemma WindowCovered(s: Scene, p: Plane)
    requires p.Valid()
    ensures p.First() <= 16
    ensures p.End(s) >= s.textDotX + 16 <==> s.textDotX % p.size <= p.size - (p.scrollX - p.adjust) % p.size
    ensures s.textDotX % p.size == 0 ==> p.End(s) >= s.textDotX + 16
  {
    if p.size == 8 {
      assert s.textDotX == s.textDotX / 8 * 8 + s.textDotX % 8;
    } else {
      assert s.textDotX == s.textDotX / 16 * 16 + s.textDotX % 16;
    }
  }

  // ----- the tile walk, in the coordinates of the plane

  lemma Wrapped(z: int, size: nat)
    requires size == 8 || size == 16
    ensures U32(z) / size % 64 == z / size % 64 && U32(z) % size == z % size
  {
    var q := z / 0x1_0000_0000;
    var w := U32(z);
    assert z == 0x1_0000_0000 * q + w;
    if size == 8 {
      DivModUnique(z, 8, 0x2000_0000 * q + w / 8, w % 8);
      DivModUnique(z / 8, 64, 0x80_0000 * q + w / 8 / 64, w / 8 % 64);
    } else {
      DivModUnique(z, 16, 0x1000_0000 * q + w / 16, w % 16);
      DivModUnique(z / 16, 64, 0x40_0000 * q + w / 16 / 64, w / 16 % 64);
    }
  }

  /** Coordinate z of a plane of 64 tiles: its tile and its pixel within the tile. */
  lemma TileOf(z: int, size: nat)
    requires size == 8 || size == 16
    ensures z % (64 * size) / size == z / size % 64 && z % (64 * size) % size == z % size
  {
    var tile := z / size;
    if size == 8 {
      DivModUnique(z, 512, tile / 64, tile % 64 * 8 + z % 8);
      DivModUnique(tile % 64 * 8 + z % 8, 8, tile % 64, z % 8);
    } else {
      DivModUnique(z, 1024, tile / 64, tile % 64 * 16 + z % 16);
      DivModUnique(tile % 64 * 16 + z % 16, 16, tile % 64, z % 16);
    }
  }

  /** Pixel j of the k-th tile of the walk. */
  lemma WalkColumn(p: Plane, k: nat, j: nat)
    requires p.Valid() && j < p.size
    ensures
      var c := p.First() + k * p.size + j;
      p.X(c) / p.size == ((p.scrollX - p.adjust) / p.size + k) % 64 && p.X(c) % p.size == j
  {
    var z := p.scrollX - p.adjust;
    var c := p.First() + k * p.size + j;
    TileOf(c - 16 + z, p.size);
    if p.size == 8 {
      DivModUnique(c - 16 + z, 8, z / 8 + k, j);
    } else {
      DivModUnique(c - 16 + z, 16, z / 16 + k, j);
    }
  }

  lemma GlyphOfWalk(s: Scene, p: Plane, k: nat, j: nat)
    requires s.Valid() && p.Valid() && j < p.size && k <= s.textDotX / p.size
    ensures
      var code := p.TileCode(s, ((p.scrollX - p.adjust) / p.size + k) % 64, j);
      p.GlyphAt(s, p.First() + k * p.size + j) == Glyph(code, s.palette[code])
  {
    hide Plane.TileCode, Plane.X;
    WalkColumn(p, k, j);
    if p.size == 8 {
      assert k * 8 + j < (s.textDotX / 8 + 1) * 8;
    } else {
      assert k * 16 + j < (s.textDotX / 16 + 1) * 16;
    }
  }

  function PlaneGlyph(s: Scene, p: Option<Plane>, t: int): Glyph
    requires s.Valid() && (p.Some? ==> p.value.Valid())
  {
    if p.Some? then p.value.GlyphAt(s, t) else Outside
  }

  /** The picture: all five layers over one column of the line. */
  function ColumnAfter(s: Scene, glassy: bool, bg1: Option<Plane>, bg0: Option<Plane>, t: nat, px: Pixel): Pixel
    requires s.Valid() && (bg1.Some? ==> bg1.value.Valid()) && (bg0.Some? ==> bg0.value.Valid())
  {
    LinePixel(s.StripAt(t), glassy, PlaneGlyph(s, bg1, t), PlaneGlyph(s, bg0, t), px)
  }

  // ----- the picture in the bytes of memory

  /** Pixel (x, y) of a 16x16 pattern: 128 bytes of two columns of 8x8 blocks, high nibbles on the left. */
  function Dot16(bg: seq<u8>, chr: u8, x: nat, y: nat): int
    requires |bg| == 0x8000 && x < 16 && y < 16
  {
    var byte := bg[128 * chr + (if x < 8 then 0 else 64) + 4 * y + (if x < 8 then x else x - 8) / 2];
    if x % 2 == 0 then byte / 16 else byte % 16
  }

  /** Pixel (x, y) of an 8x8 pattern of 32 bytes. */
  function Dot8(bg: seq<u8>, chr: u8, x: nat, y: nat): int
    requires |bg| == 0x8000 && x < 8 && y < 8
  {
    var byte := bg[32 * chr + 4 * y + x / 2];
    if x % 2 == 0 then byte / 16 else byte % 16
  }

  lemma DotIsPixel(bg: seq<u8>, chr: u8, x: nat, y: nat)
    requires |bg| == 0x8000
    ensures x < 16 && y < 16 ==> Dot16(bg, chr, x, y) == Pixel16(bg, chr, x, y)
    ensures x < 8 && y < 8 ==> Dot8(bg, chr, x, y) == Pixel8(bg, chr, x, y)
  {
    if x < 16 {
      DivModUnique(x, 8, if x < 8 then 0 else 1, if x < 8 then x else x - 8);
    }
  }

  /** A word and its two bytes; bits 6 and 7 of the high one are its top bits. */
  lemma WordParts(b: u8, low: u8)
    ensures
      var w := CInt.Word(b, low);
      && w == 256 * b as int + low && w % 0x100 == low && w / 0x100 % 16 == b % 16
      && w % 4 == low % 4 && w % 0x400 == 256 * (b as int % 4) + low
      && (Bit(b, 6) == 1) == (w / 0x4000 % 2 == 1) && (Bit(b, 7) == 1) == (w / 0x8000 == 1)
  {
    hide Bit;
    var w := CInt.Word(b, low);
    TopBits(b);
    DivModUnique(w, 0x100, b, low);
    DivModUnique(w, 0x4000, b / 64, b % 64 * 0x100 + low);
    DivModUnique(w, 0x8000, b / 128, b % 128 * 0x100 + low);
    DivModUnique(w, 4, b * 64 + low / 4, low % 4);
    DivModUnique(w, 0x400, b / 4, b % 4 * 0x100 + low);
  }

  /**
   A sprite as its eight bytes of little-endian memory have it: x, y, pattern, flips and bank,
   class. Bit 6 of the sixth byte mirrors the columns and bit 7 the rows; its low nibble is the
   palette bank.
   */
  lemma SpriteInBytes(s: Scene, n: nat, t: nat)
    requires s.Valid() && n < 128
    ensures
      var b := s.spriteRegs[8 * n..8 * n + 8];
      var left := (256 * b[1] as int + b[0] + s.hAdjust) % 1024;
      var row := (s.vLineBg + 16 - s.vLine - (256 * (b[3] as int % 4) + b[2])) % 0x1_0000_0000;
      s.SpotAt(n, t) ==
      if left >= s.textDotX + 16 || row > 15 || t < left || t > left + 15 then Clear
      else
        var v := Dot16(s.bg, b[4], if Bit(b[5], 6) == 1 then 15 - (t - left) else t - left,
                       if Bit(b[5], 7) == 1 then 15 - row else row);
        if v == 0 then Clear else Spot(b[6] % 4, s.palette[16 * (b[5] % 16) + v])
  {
    hide Pixel16, Dot16, Bit, CInt.Word, Scene.Word, Scene.Left, Scene.Row, Scene.Chr, Scene.Bank, Scene.FlipsX,
      Scene.FlipsY, Scene.Ply, Scene.Ctrl;
    SpriteFields(s, n);
    if s.OnLine(n) && s.Left(n) <= t < s.Left(n) + 16 {
      var x := t - s.Left(n);
      DotIsPixel(s.bg, s.Chr(n), if s.FlipsX(n) then 15 - x else x, if s.FlipsY(n) then 15 - s.Row(n) else s.Row(n));
    }
  }

  lemma SpriteFields(s: Scene, n: nat)
    requires s.Valid() && n < 128
    ensures
      var b := s.spriteRegs[8 * n..8 * n + 8];
      && s.Left(n) == (256 * b[1] as int + b[0] + s.hAdjust) % 1024
      && s.Row(n) == (s.vLineBg + 16 - s.vLine - (256 * (b[3] as int % 4) + b[2])) % 0x1_0000_0000
      && s.Chr(n) == b[4] && s.Bank(n) == b[5] % 16 && s.Ply(n) == b[6] % 4
      && s.FlipsX(n) == (Bit(b[5], 6) == 1) && s.FlipsY(n) == (Bit(b[5], 7) == 1)
  {
    hide Bit, Scene.Word, CInt.Word;
    SpriteWords(s, n);
    var b := s.spriteRegs[8 * n..8 * n + 8];
    WordParts(b[1], b[0]);
    WordParts(b[3], b[2]);
    WordParts(b[5], b[4]);
    WordParts(b[7], b[6]);
  }

  /** Where the four words of a sprite stand. */
  lemma SpriteWords(s: Scene, n: nat)
    requires s.Valid() && n < 128
    ensures
      var b := s.spriteRegs[8 * n..8 * n + 8];
      && s.Word(4 * n) == CInt.Word(b[1], b[0]) && s.Word(4 * n + 1) == CInt.Word(b[3], b[2])
      && s.Word(4 * n + 2) == CInt.Word(b[5], b[4]) && s.Word(4 * n + 3) == CInt.Word(b[7], b[6])
  {
  }

  /** A byte with one bit, of the given value, changed. */
  function Toggled(b: u8, value: nat): u8
    requires value == 64 || value == 128
  {
    if b / value % 2 == 1 then b - value else b + value
  }

  lemma ToggledBits(b: u8)
    ensures Bit(Toggled(b, 64), 6) == 1 - Bit(b, 6) && Bit(Toggled(b, 64), 7) == Bit(b, 7)
    ensures Bit(Toggled(b, 128), 7) == 1 - Bit(b, 7) && Bit(Toggled(b, 128), 6) == Bit(b, 6)
    ensures Toggled(b, 64) % 16 == b % 16 && Toggled(b, 128) % 16 == b % 16
  {
    var h, m, r := b / 128, b / 64 % 2, b % 64;
    assert b == 128 * h + 64 * m + r;
    BitsOfParts(h, m, r);
    BitsOfParts(h, 1 - m, r);
    BitsOfParts(1 - h, m, r);
  }

  lemma BitsOfParts(h: nat, m: nat, r: nat)
    requires h < 2 && m < 2 && r < 64
    ensures
      var b := 128 * h + 64 * m + r;
      b / 128 == h && b / 64 % 2 == m && Bit(b, 7) == h && Bit(b, 6) == m && b % 16 == r % 16 && b / 128 % 2 == h
  {
    var b := 128 * h + 64 * m + r;
    DivModUnique(b, 128, h, 64 * m + r);
    DivModUnique(b, 64, 2 * h + m, r);
    DivModUnique(b, 16, 8 * h + 4 * m + r / 16, r % 16);
  }

  /** Bit 6 of the control byte mirrors the sprite's sixteen columns about its own middle, and does nothing else. */
  lemma MirroredSprite(s: Scene, n: nat, x: nat)
    requires s.Valid() && n < 128 && x < 16
    ensures
      var b := s.spriteRegs[8 * n..8 * n + 8];
      var left := (256 * b[1] as int + b[0] + s.hAdjust) % 1024;
      var s' := s.(spriteRegs := s.spriteRegs[8 * n + 5 := Toggled(b[5], 64)]);
      && s'.SpotAt(n, left + x) == s.SpotAt(n, left + 15 - x)
      && forall m, t :: 0 <= m < 128 && m != n && t >= 0 ==> s'.SpotAt(m, t) == s.SpotAt(m, t)
  {
    hide Scene.SpotAt, Bit, Toggled, Dot16;
    var b := s.spriteRegs[8 * n..8 * n + 8];
    var left := (256 * b[1] as int + b[0] + s.hAdjust) % 1024;
    var s' := s.(spriteRegs := s.spriteRegs[8 * n + 5 := Toggled(b[5], 64)]);
    ToggledBits(b[5]);
    SpriteInBytes(s, n, left + 15 - x);
    SpriteInBytes(s', n, left + x);
    OtherSprites(s, s', n);
  }

  /** Bit 7 mirrors its rows: what is shown is the row as far from the other end, and nothing else changes. */
  lemma UpturnedSprite(s: Scene, n: nat, t: nat)
    requires s.Valid() && n < 128
    ensures
      var b := s.spriteRegs[8 * n..8 * n + 8];
      var row := s.vLineBg + 16 - s.vLine - (256 * (b[3] as int % 4) + b[2]);
      var s' := s.(spriteRegs := s.spriteRegs[8 * n + 5 := Toggled(b[5], 128)]);
      && (0 <= row <= 15 ==> s'.SpotAt(n, t) == s.(vLineBg := s.vLineBg + 15 - 2 * row).SpotAt(n, t))
      && forall m, u :: 0 <= m < 128 && m != n && u >= 0 ==> s'.SpotAt(m, u) == s.SpotAt(m, u)
  {
    hide Scene.SpotAt, Bit, Toggled, Dot16;
    var b := s.spriteRegs[8 * n..8 * n + 8];
    var row := s.vLineBg + 16 - s.vLine - (256 * (b[3] as int % 4) + b[2]);
    var s' := s.(spriteRegs := s.spriteRegs[8 * n + 5 := Toggled(b[5], 128)]);
    ToggledBits(b[5]);
    RowBits(row);
    RowBits(15 - row);
    SpriteInBytes(s.(vLineBg := s.vLineBg + 15 - 2 * row), n, t);
    SpriteInBytes(s', n, t);
    OtherSprites(s, s', n);
  }

  lemma RowBits(row: int)
    ensures 0 <= row <= 15 ==> row % 0x1_0000_0000 == row
  {
  }

  /** What a sprite shows depends on no bytes of sprite memory but its own. */
  lemma OtherSprites(s: Scene, s': Scene, n: nat)
    requires s.Valid() && s'.Valid() && s' == s.(spriteRegs := s'.spriteRegs)
    requires forall i :: 0 <= i < 0x400 && i / 8 != n ==> s'.spriteRegs[i] == s.spriteRegs[i]
    ensures forall m, t :: 0 <= m < 128 && m != n && t >= 0 ==> s'.SpotAt(m, t) == s.SpotAt(m, t)
  {
    hide Scene.SpotAt, Bit, Dot16;
    forall m, t | 0 <= m < 128 && m != n && t >= 0
      ensures s'.SpotAt(m, t) == s.SpotAt(m, t)
    {
      SpriteInBytes(s, m, t);
      SpriteInBytes(s', m, t);
      assert s'.spriteRegs[8 * m..8 * m + 8] == s.spriteRegs[8 * m..8 * m + 8] by {
        forall i | 8 * m <= i < 8 * m + 8
          ensures s'.spriteRegs[i] == s.spriteRegs[i]
        {
          DivModUnique(i, 8, m, i - 8 * m);
        }
      }
    }
  }

  lemma TopBits(b: u8)
    ensures (Bit(b, 6) == 1) == (b / 64 % 2 == 1) && (Bit(b, 7) == 1) == (b / 128 == 1)
  {
  }

  /**
   A plane in the bytes of memory: under column t lies the point scrolled to, in a map of 64x64
   entries of two bytes. Bit 6 of the first mirrors the tile's columns, bit 7 its rows, the low
   nibble is the palette bank; the second is the pattern.
   */
  lemma PlaneInBytes8(s: Scene, p: Plane, t: int)
    requires s.Valid() && p.Valid() && p.size == 8
    ensures
      var first := 16 - (p.scrollX - p.adjust) % 8;
      var last := first + (s.textDotX / 8 + 1) * 8 - 1;
      var x: nat, y: nat := (t - 16 + p.scrollX - p.adjust) % 512, (p.scrollY + s.vLineBg - s.vLine) % 512;
      var tx, ty, dx, dy := x / 8, y / 8, x % 8, y % 8;
      p.GlyphAt(s, t) ==
      if t < first || t > last then Outside
      else
        assert ty < 64 && tx < 64;
        var attr, chr := s.bg[p.top + 128 * ty + 2 * tx], s.bg[p.top + 128 * ty + 2 * tx + 1];
        var code := 16 * (attr % 16) + Dot8(s.bg, chr, if Bit(attr, 6) == 1 then 7 - dx else dx,
                                           if Bit(attr, 7) == 1 then 7 - dy else dy);
        Glyph(code, s.palette[code])
  {
    hide Pixel8, Pixel16, Dot8, Dot16, Bit;
    var e := p.Entry(s, p.X(t) / 8);
    var attr, chr, dx, dy := s.bg[e], s.bg[e + 1], p.X(t) % 8, p.Y(s) % 8;
    TopBits(attr);
    DotIsPixel(s.bg, chr, if attr / 64 % 2 == 1 then 7 - dx else dx, if attr / 128 == 1 then 7 - dy else dy);
  }

  lemma PlaneInBytes16(s: Scene, p: Plane, t: int)
    requires s.Valid() && p.Valid() && p.size == 16
    ensures
      var first := 16 - (p.scrollX - p.adjust) % 16;
      var last := first + (s.textDotX / 16 + 1) * 16 - 1;
      var x: nat, y: nat := (t - 16 + p.scrollX - p.adjust) % 1024, (p.scrollY + s.vLineBg - s.vLine) % 1024;
      var tx, ty, dx, dy := x / 16, y / 16, x % 16, y % 16;
      p.GlyphAt(s, t) ==
      if t < first || t > last then Outside
      else
        assert ty < 64 && tx < 64;
        var attr, chr := s.bg[p.top + 128 * ty + 2 * tx], s.bg[p.top + 128 * ty + 2 * tx + 1];
        var code := 16 * (attr % 16) + Dot16(s.bg, chr, if Bit(attr, 6) == 1 then 15 - dx else dx,
                                           if Bit(attr, 7) == 1 then 15 - dy else dy);
        Glyph(code, s.palette[code])
  {
    hide Pixel8, Pixel16, Dot8, Dot16, Bit;
    var e := p.Entry(s, p.X(t) / 16);
    var attr, chr, dx, dy := s.bg[e], s.bg[e + 1], p.X(t) % 16, p.Y(s) % 16;
    TopBits(attr);
    DotIsPixel(s.bg, chr, if attr / 64 % 2 == 1 then 15 - dx else dx, if attr / 128 == 1 then 15 - dy else dy);
  }
}
