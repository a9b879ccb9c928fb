/**
 The priority rules of one column of a scan line. A column is a `Pixel`; the sprites
 contribute at most one spot each, a background plane at most one code; five layers
 are painted back to front.
 */
module Layers {
  import opened CInt

  const SPRITES := 128

  /** One column of BG_LineBuf32, Text_TrFlag and BG_PriBuf. */
  datatype Pixel = Pixel(colour: u32, flags: u8, pri: u16)

  predicate Drawn(flags: u8) { flags / 2 % 2 == 1 }

  /** `flags | 2` */
  function SetDrawn(flags: u8): (r: u8)
    ensures Drawn(r)
  {
    if Drawn(flags) then flags else flags + 2
  }

  /** What one sprite shows at the column; `ply` is its priority class. */
  datatype Spot = Clear | Spot(ply: nat, colour: u32)

  /** All the sprites at one column. */
  type Strip = s: seq<Spot> | |s| == SPRITES witness seq(SPRITES, _ => Clear)

  /** What a background plane shows at the column. */
  datatype Glyph = Outside | Glyph(code: u8, colour: u32)

  // ----- one sprite pass

  function PaintSpot(spot: Spot, ply: nat, n: nat, px: Pixel): Pixel
    requires n < SPRITES
  {
    if spot.Spot? && spot.ply == ply && px.pri >= n * 8
    then Pixel(spot.colour, SetDrawn(px.flags), n * 8)
    else px
  }

  /** The sprites 127 down to k painted in that order over px. */
  function SpritesDownTo(strip: Strip, ply: nat, k: nat, px: Pixel): Pixel
    requires k <= SPRITES
    decreases SPRITES - k
  {
    if k == SPRITES then px else PaintSpot(strip[k], ply, k, SpritesDownTo(strip, ply, k + 1, px))
  }

  predicate Shows(strip: Strip, plies: set<nat>, n: nat)
    requires n < SPRITES
  {
    strip[n].Spot? && strip[n].ply in plies
  }

  /** The lowest-numbered sprite from k up with a spot of the given classes; 128 if there is none. */
  function Lowest(strip: Strip, plies: set<nat>, k: nat): (n: nat)
    requires k <= SPRITES
    ensures k <= n <= SPRITES
    ensures n < SPRITES ==> Shows(strip, plies, n)
    ensures forall m :: k <= m < n ==> !Shows(strip, plies, m)
    decreases SPRITES - k
  {
    if k == SPRITES || Shows(strip, plies, k) then k else Lowest(strip, plies, k + 1)
  }

  /** The declarative sprite pass: the lowest sprite of the class, if it improves the priority. */
  function SpriteLayer(strip: Strip, ply: nat, px: Pixel): Pixel {
    PaintLowest(strip, Lowest(strip, {ply}, 0), px)
  }

  function PaintLowest(strip: Strip, n: nat, px: Pixel): Pixel
    requires n < SPRITES ==> strip[n].Spot?
  {
    if n < SPRITES && n * 8 <= px.pri then Pixel(strip[n].colour, SetDrawn(px.flags), n * 8) else px
  }

  lemma {:induction false} SpritesDownToLowest(strip: Strip, ply: nat, k: nat, px: Pixel)
    requires k <= SPRITES
    ensures
      SpritesDownTo(strip, ply, k, px) == PaintLowest(strip, Lowest(strip, {ply}, k), px)
    decreases SPRITES - k
  {
    if k == SPRITES {
    } else {
      SpritesDownToLowest(strip, ply, k + 1, px);
    }
  }

  /** Painting the sprites from 127 down to 0 equals picking the lowest one of the class. */
  lemma SpritePassIsLayer(strip: Strip, ply: nat, px: Pixel)
    ensures SpritesDownTo(strip, ply, 0, px) == SpriteLayer(strip, ply, px)
  {
    SpritesDownToLowest(strip, ply, 0, px);
  }

  // ----- one background plane

  /** A glassy plane skips zero nibbles; the other one also lets a zero nibble cover undrawn columns. */
  predicate Covers(glassy: bool, g: Glyph, drawn: bool) {
    g.Glyph? && if glassy then g.code % 16 != 0 else g.code != 0 && (g.code % 16 != 0 || !drawn)
  }

  function PlaneLayer(glassy: bool, g: Glyph, px: Pixel): Pixel {
    if Covers(glassy, g, Drawn(px.flags)) then Pixel(g.colour, SetDrawn(px.flags), px.pri) else px
  }

  // ----- the line

  /** The five layers back to front: sprites, BG1, sprites, BG0, sprites. */
  function LinePixel(strip: Strip, glassy: bool, g1: Glyph, g0: Glyph, px: Pixel): Pixel {
    var p1 := SpriteLayer(strip, 1, px);
    var p2 := PlaneLayer(glassy, g1, p1);
    var p3 := SpriteLayer(strip, 2, p2);
    var p4 := PlaneLayer(glassy, g0, p3);
    SpriteLayer(strip, 3, p4)
  }

  /** What is seen at a column. */
  datatype Seen = Backdrop | SpriteSeen(n: nat) | Bg1Seen | Bg0Seen

  /**
   The same line read front to back. Only the front sprite, the lowest-numbered one of
   any class with a spot here, can be seen; its class decides between which planes it lies.
   */
  function FrontToBack(strip: Strip, glassy: bool, g1: Glyph, g0: Glyph, drawn: bool): Seen {
    var n := Lowest(strip, {1, 2, 3}, 0);
    var drawn1 := drawn || Lowest(strip, {1}, 0) < SPRITES;
    var drawn2 := drawn1 || Covers(glassy, g1, drawn1) || Lowest(strip, {2}, 0) < SPRITES;
    if n < SPRITES && strip[n].ply == 3 then SpriteSeen(n)
    else if Covers(glassy, g0, drawn2) then Bg0Seen
    else if n < SPRITES && strip[n].ply == 2 then SpriteSeen(n)
    else if Covers(glassy, g1, drawn1) then Bg1Seen
    else if n < SPRITES then SpriteSeen(n)
    else Backdrop
  }

  function SeenColour(strip: Strip, glassy: bool, g1: Glyph, g0: Glyph, drawn: bool, backdrop: u32): u32 {
    match FrontToBack(strip, glassy, g1, g0, drawn)
    case Backdrop => backdrop
    case SpriteSeen(n) => strip[n].colour
    case Bg1Seen => g1.colour
    case Bg0Seen => g0.colour
  }

  lemma LowestOfClasses(strip: Strip)
    ensures
      var n, s1, s2, s3 :=
        Lowest(strip, {1, 2, 3}, 0), Lowest(strip, {1}, 0), Lowest(strip, {2}, 0), Lowest(strip, {3}, 0);
      && n == Min(s1, Min(s2, s3))
      && (s1 == s2 ==> s1 == SPRITES) && (s1 == s3 ==> s1 == SPRITES) && (s2 == s3 ==> s2 == SPRITES)
  {
    var n, s1, s2, s3 :=
      Lowest(strip, {1, 2, 3}, 0), Lowest(strip, {1}, 0), Lowest(strip, {2}, 0), Lowest(strip, {3}, 0);
    assert s1 < SPRITES ==> Shows(strip, {1, 2, 3}, s1);
    assert s2 < SPRITES ==> Shows(strip, {1, 2, 3}, s2);
    assert s3 < SPRITES ==> Shows(strip, {1, 2, 3}, s3);
    assert n < SPRITES ==> Shows(strip, {1}, n) || Shows(strip, {2}, n) || Shows(strip, {3}, n);
  }

  /**
   The painter's order and the front-to-back reading agree: the priority left behind is
   8 times the lowest-numbered sprite of any class, the colour is that of the layer seen.
   */
  lemma LineIsFrontToBack(strip: Strip, glassy: bool, g1: Glyph, g0: Glyph, px: Pixel)
    requires px.pri == 0xffff
    ensures
      var r, n := LinePixel(strip, glassy, g1, g0, px), Lowest(strip, {1, 2, 3}, 0);
      && r.pri == (if n < SPRITES then n * 8 else 0xffff)
      && r.colour == SeenColour(strip, glassy, g1, g0, Drawn(px.flags), px.colour)
  {
    LowestOfClasses(strip);
    StackOfFive(strip, Lowest(strip, {1, 2, 3}, 0), Lowest(strip, {1}, 0), Lowest(strip, {2}, 0), Lowest(strip, {3}, 0),
                glassy, g1, g0, px);
  }

  lemma StackOfFive(strip: Strip, n: nat, s1: nat, s2: nat, s3: nat, glassy: bool, g1: Glyph, g0: Glyph, px: Pixel)
    requires px.pri == 0xffff && s1 <= SPRITES && s2 <= SPRITES && s3 <= SPRITES && n == Min(s1, Min(s2, s3))
    requires (s1 < SPRITES ==> strip[s1].Spot? && strip[s1].ply == 1)
    requires (s2 < SPRITES ==> strip[s2].Spot? && strip[s2].ply == 2)
    requires (s3 < SPRITES ==> strip[s3].Spot? && strip[s3].ply == 3)
    ensures
      var p2 := PlaneLayer(glassy, g1, PaintLowest(strip, s1, px));
      var p4 := PlaneLayer(glassy, g0, PaintLowest(strip, s2, p2));
      var p5 := PaintLowest(strip, s3, p4);
      var drawn1 := Drawn(px.flags) || s1 < SPRITES;
      var drawn2 := drawn1 || Covers(glassy, g1, drawn1) || s2 < SPRITES;
      && p5.pri == (if n < SPRITES then n * 8 else 0xffff)
      && p5.colour ==
         if n < SPRITES && strip[n].ply == 3 then strip[n].colour
         else if Covers(glassy, g0, drawn2) then g0.colour
         else if n < SPRITES && strip[n].ply == 2 then strip[n].colour
         else if Covers(glassy, g1, drawn1) then g1.colour
         else if n < SPRITES then strip[n].colour
         else px.colour
  {
  }

  // ----- the rules one by one

  /** Marking a column sets bit 1 of its flags and no other; marked is what has that bit. */
  lemma FlagBits(flags: u8, i: nat)
    requires i < 8
    ensures Bit(SetDrawn(flags), i) == if i == 1 then 1 else Bit(flags, i)
    ensures Drawn(flags) <==> Bit(flags, 1) == 1
  {
    var h, m, l := flags / 4, flags / 2 % 2, flags % 2;
    assert flags == 4 * h + 2 * m + l;
    var g := 4 * h + 2 + l;
    DivModUnique(g, 4, h, 2 + l);
    DivModUnique(g, 2, 2 * h + 1, l);
    HigherBits(flags, h);
    HigherBits(g, h);
  }

  lemma HigherBits(b: int, h: nat)
    requires 0 <= b && b / 4 == h
    ensures forall i :: 2 <= i < 8 ==> Bit(b, i) == Bit(h, i - 2)
  {
    forall i | 2 <= i < 8
      ensures Bit(b, i) == Bit(h, i - 2)
    {
      Quarters(b, h);
    }
  }

  lemma Quarters(b: nat, h: nat)
    requires b / 4 == h
    ensures b / 8 == h / 2 && b / 16 == h / 4 && b / 32 == h / 8 && b / 64 == h / 16 && b / 128 == h / 32
  {
    var r := b % 4;
    DivModUnique(b, 8, h / 2, 4 * (h % 2) + r);
    DivModUnique(b, 16, h / 4, 4 * (h % 4) + r);
    DivModUnique(b, 32, h / 8, 4 * (h % 8) + r);
    DivModUnique(b, 64, h / 16, 4 * (h % 16) + r);
    DivModUnique(b, 128, h / 32, 4 * (h % 32) + r);
  }

  /** A sprite of the class of the pass takes every column whose priority is not below 8 times its number. */
  lemma SpotRule(ply: nat, colour: u32, pass: nat, n: nat, px: Pixel)
    requires n < 128
    ensures
      PaintSpot(Spot(ply, colour), pass, n, px) ==
      if ply == pass && 8 * n <= px.pri then Pixel(colour, SetDrawn(px.flags), 8 * n) else px
    ensures PaintSpot(Clear, pass, n, px) == px
  {
  }

  /**
   A plane takes a column with every point whose low nibble is not 0. With a low nibble of 0 the
   see-through plane leaves it, and the other one takes it when nothing has been drawn there and
   its palette bank is not 0.
   */
  lemma GlyphRule(code: u8, colour: u32, px: Pixel)
    ensures
      var taken := Pixel(colour, SetDrawn(px.flags), px.pri);
      && PlaneLayer(true, Glyph(code, colour), px) == (if code % 16 == 0 then px else taken)
      && PlaneLayer(false, Glyph(code, colour), px) ==
         (if code % 16 != 0 then taken else if code / 16 != 0 && Bit(px.flags, 1) == 0 then taken else px)
    ensures forall glassy :: PlaneLayer(glassy, Outside, px) == px
  {
  }

  /** BG0 lies before BG1; a sprite of class 3 before both, of class 2 between them, of class 1 behind both. */
  lemma OrderOfLayers(strip: Strip, n: nat, glassy: bool, g1: Glyph, g0: Glyph, px: Pixel)
    requires px.pri == 0xffff && n < SPRITES && strip[n].Spot? && 1 <= strip[n].ply <= 3
    requires forall m :: 0 <= m < SPRITES && m != n ==> strip[m] == Clear
    requires (g0.Glyph? ==> g0.code % 16 != 0) && (g1.Glyph? ==> g1.code % 16 != 0)
    ensures
      LinePixel(strip, glassy, g1, g0, px).colour ==
      if g0.Glyph? && strip[n].ply < 3 then g0.colour
      else if g1.Glyph? && strip[n].ply < 2 then g1.colour
      else strip[n].colour
  {
    hide Lowest, SetDrawn, Drawn;
    OnlySprite(strip, n, 1);
    OnlySprite(strip, n, 2);
    OnlySprite(strip, n, 3);
  }

  lemma OnlySprite(strip: Strip, n: nat, ply: nat)
    requires n < SPRITES && strip[n].Spot? && forall m :: 0 <= m < SPRITES && m != n ==> strip[m] == Clear
    ensures Lowest(strip, {ply}, 0) == if strip[n].ply == ply then n else SPRITES
  {
    assert strip[n].ply == ply ==> Shows(strip, {ply}, n);
  }
}
