/**
 The pattern memory of the sprite unit and its two unpacked caches. Pattern memory
 packs two 4-bit pixels per byte, and a 16x16 pattern is four consecutive 8x8 blocks
 (top left, bottom left, top right, bottom right); BGCHR8 and BGCHR16 hold one pixel
 per cell, the latter in raster order.
 */
module Pcg {
  import opened CInt

  const BG_SIZE := 0x8000
  const CHR8_SIZE := 0x4000
  const CHR16_SIZE := 0x1_0000

  /** `bg16chr`: the BGCHR16 cell of the first pixel of the byte at `adr`. */
  function Chr16Index(adr: nat): nat {
    adr % 4 * 2 + adr / 4 % 16 * 16 + adr / 64 % 2 * 8 + adr / 128 * 256
  }

  /** The byte that holds the pixel of a BGCHR16 cell. */
  function Chr16Address(cell: nat): nat {
    cell / 256 * 128 + cell / 8 % 2 * 64 + cell / 16 % 16 * 4 + cell % 8 / 2
  }

  predicate Lengths(bg: seq<u8>, chr8: seq<u8>, chr16: seq<u8>) {
    |bg| == BG_SIZE && |chr8| == CHR8_SIZE && |chr16| == CHR16_SIZE
  }

  /** Both caches hold exactly the nibbles of pattern memory. */
  ghost predicate Coherent(bg: seq<u8>, chr8: seq<u8>, chr16: seq<u8>)
    requires Lengths(bg, chr8, chr16)
  {
    && (forall i :: 0 <= i < CHR8_SIZE ==> chr8[i] == Nibble(bg[i / 2], i % 2 == 1))
    && (forall i :: 0 <= i < CHR16_SIZE ==>
          Chr16Address(i) < BG_SIZE && chr16[i] == Nibble(bg[Chr16Address(i)], i % 2 == 1))
  }

  /** The map is a bijection from [0, 0x8000) onto the even cells of BGCHR16. */
  lemma Chr16Bijection(adr: nat, cell: nat)
    ensures adr < BG_SIZE ==>
              Chr16Index(adr) % 2 == 0 && Chr16Index(adr) + 1 < CHR16_SIZE && Chr16Address(Chr16Index(adr)) == adr
    ensures cell < CHR16_SIZE ==>
              Chr16Address(cell) < BG_SIZE && Chr16Index(Chr16Address(cell)) == cell - cell % 2
  {
    AddressOfIndex(adr, 0);
    IndexOfAddress(cell);
  }

  lemma AddressOfIndex(adr: nat, low: nat)
    requires low < 2
    ensures Chr16Index(adr) % 2 == 0 && Chr16Address(Chr16Index(adr) + low) == adr
    ensures adr < BG_SIZE ==> Chr16Index(adr) + 1 < CHR16_SIZE
  {
    hide Chr16Index, Chr16Address;
    var a, b, c, d := adr % 4, adr / 4 % 16, adr / 64 % 2, adr / 128;
    AddressDigits(adr);
    IndexIs(adr, a, b, c, d);
    AddressIs(low + 2 * a + 16 * b + 8 * c + 256 * d, a, low, b, c, d);
    DivModUnique(2 * a + 16 * b + 8 * c + 256 * d, 2, a + 8 * b + 4 * c + 128 * d, 0);
  }

  lemma IndexOfAddress(cell: nat)
    ensures Chr16Index(Chr16Address(cell)) == cell - cell % 2
    ensures cell < CHR16_SIZE ==> Chr16Address(cell) < BG_SIZE
  {
    hide Chr16Index, Chr16Address;
    var a, b, c, d := cell % 8 / 2, cell / 16 % 16, cell / 8 % 2, cell / 256;
    CellDigits(cell);
    AddressIs(cell, a, cell % 2, b, c, d);
    IndexIs(a + 4 * b + 64 * c + 128 * d, a, b, c, d);
  }

  lemma IndexIs(adr: nat, a: nat, b: nat, c: nat, d: nat)
    requires a < 4 && b < 16 && c < 2 && adr == a + 4 * b + 64 * c + 128 * d
    ensures Chr16Index(adr) == 2 * a + 16 * b + 8 * c + 256 * d
  {
    ByteDigits(adr, a, b, c, d);
  }

  lemma AddressIs(cell: nat, a: nat, low: nat, b: nat, c: nat, d: nat)
    requires a < 4 && low < 2 && b < 16 && c < 2 && cell == low + 2 * a + 16 * b + 8 * c + 256 * d
    ensures Chr16Address(cell) == a + 4 * b + 64 * c + 128 * d
  {
    IndexDigits(cell, a, low, b, c, d);
  }

  lemma AddressDigits(adr: nat)
    ensures adr == adr % 4 + 4 * (adr / 4 % 16) + 64 * (adr / 64 % 2) + 128 * (adr / 128)
  {
    var p, q := adr / 4, adr / 64;
    DivModUnique(p, 16, q, p - 16 * q);
    DivModUnique(q, 2, adr / 128, q - 2 * (adr / 128));
  }

  lemma CellDigits(cell: nat)
    ensures cell == cell % 2 + 2 * (cell % 8 / 2) + 8 * (cell / 8 % 2) + 16 * (cell / 16 % 16) + 256 * (cell / 256)
  {
    var p, q, r := cell / 8, cell / 16, cell / 256;
    DivModUnique(p, 2, q, p - 2 * q);
    DivModUnique(q, 16, r, q - 16 * r);
    var low := cell % 8;
    assert low == cell - 8 * p;
    assert low % 2 == cell % 2;
  }

  lemma IndexDigits(cell: nat, a: nat, low: nat, b: nat, c: nat, d: nat)
    requires a < 4 && low < 2 && b < 16 && c < 2
    requires cell == low + 2 * a + 16 * b + 8 * c + 256 * d
    ensures cell % 2 == low && cell % 8 / 2 == a && cell / 8 % 2 == c && cell / 16 % 16 == b && cell / 256 == d
  {
    DivModUnique(cell, 256, d, low + 2 * a + 16 * b + 8 * c);
    DivModUnique(cell, 16, b + 16 * d, low + 2 * a + 8 * c);
    DivModUnique(cell, 8, c + 2 * (b + 16 * d), low + 2 * a);
    DivModUnique(cell, 2, a + 4 * (c + 2 * (b + 16 * d)), low);
    DivModUnique(b + 16 * d, 16, d, b);
    DivModUnique(c + 2 * (b + 16 * d), 2, b + 16 * d, c);
  }

  lemma ByteDigits(adr: nat, a: nat, b: nat, c: nat, d: nat)
    requires a < 4 && b < 16 && c < 2
    requires adr == a + 4 * b + 64 * c + 128 * d
    ensures adr % 4 == a && adr / 4 % 16 == b && adr / 64 % 2 == c && adr / 128 == d
  {
    DivModUnique(adr, 128, d, a + 4 * b + 64 * c);
    DivModUnique(adr, 64, c + 2 * d, a + 4 * b);
    DivModUnique(adr, 4, b + 16 * (c + 2 * d), a);
    DivModUnique(b + 16 * (c + 2 * d), 16, c + 2 * d, b);
    DivModUnique(c + 2 * d, 2, d, c);
  }

  /** What one byte write does to the caches keeps them coherent. */
  lemma StoreKeepsCoherence(bg: seq<u8>, chr8: seq<u8>, chr16: seq<u8>,
                            chr8': seq<u8>, chr16': seq<u8>, adr: nat, data: u8)
    requires Lengths(bg, chr8, chr16) && Coherent(bg, chr8, chr16)
    requires adr < BG_SIZE && Chr16Index(adr) + 1 < CHR16_SIZE
    requires chr8' == if adr < 0x2000 then chr8[adr * 2 := data / 16][adr * 2 + 1 := data % 16] else chr8
    requires chr16' == chr16[Chr16Index(adr) := data / 16][Chr16Index(adr) + 1 := data % 16]
    ensures Coherent(bg[adr := data], chr8', chr16')
  {
    var bg' := bg[adr := data];
    forall i | 0 <= i < CHR8_SIZE
      ensures chr8'[i] == Nibble(bg'[i / 2], i % 2 == 1)
    {
      assert chr8[i] == Nibble(bg[i / 2], i % 2 == 1);
    }
    forall i | 0 <= i < CHR16_SIZE
      ensures Chr16Address(i) < BG_SIZE && chr16'[i] == Nibble(bg'[Chr16Address(i)], i % 2 == 1)
    {
      CellAfterStore(bg, chr16, adr, data, i, Chr16Index(adr), Chr16Address(i));
    }
  }

  lemma CellAfterStore(bg: seq<u8>, chr16: seq<u8>, adr: nat, data: u8, i: nat, cell: nat, source: nat)
    requires |bg| == BG_SIZE && |chr16| == CHR16_SIZE && adr < BG_SIZE && i < CHR16_SIZE
    requires cell == Chr16Index(adr) && source == Chr16Address(i)
    requires source < BG_SIZE ==> chr16[i] == Nibble(bg[source], i % 2 == 1)
    ensures cell + 1 < CHR16_SIZE && source < BG_SIZE
    ensures chr16[cell := data / 16][cell + 1 := data % 16][i] == Nibble(bg[adr := data][source], i % 2 == 1)
  {
    AddressOfIndex(adr, 0);
    AddressOfIndex(adr, 1);
    IndexOfAddress(i);
    if source == adr {
      assert i == cell || i == cell + 1;
    } else {
      assert i != cell && i != cell + 1;
    }
  }
}
