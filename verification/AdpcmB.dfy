/**
 The ADPCM-B unit of the OPNA: 256 KB of sample memory that is either a plain byte array
 (1-bit DRAM mode) or eight bit planes of 32 KB (8-bit mode), and the player that walks
 it nibble by nibble.
 */
module AdpcmB {
  import opened CInt

  const RAM_SIZE := 0x4_0000
  const PLANE := 0x8000

  // ----- bits of a cell

  /** `(cell & ~mask) | (bit << bank)` */
  function PutBit(cell: u8, bank: nat, bit: nat): (r: int)
    requires bank < 8 && bit < 2
  {
    cell - Bit(cell, bank) * BitValue(bank) + bit * BitValue(bank)
  }

  /** Replacing one bit leaves the other seven alone. */
  lemma PutBitLaw(cell: u8, bank: nat, bit: nat, i: nat)
    requires bank < 8 && bit < 2 && i < 8
    ensures 0 <= PutBit(cell, bank, bit) < 256
    ensures Bit(PutBit(cell, bank, bit), i) == if i == bank then bit else Bit(cell, i)
  {
    BitsOfByte(cell);
    var b := ToBits(cell)[bank := bit];
    assert FromBits(b) == PutBit(cell, bank, bit);
    BitsUnique(b, i);
  }

  // ----- sample memory

  type Ram = r: seq<u8> | |r| == RAM_SIZE witness seq(RAM_SIZE, _ => 0)

  /** The cell of plane k that holds a bit of byte `a`. */
  function Cell(a: nat, k: nat): (c: nat)
    requires a < RAM_SIZE && k < 8
    ensures c < RAM_SIZE
  {
    a / 8 + k * PLANE
  }

  function PlaneBits(ram: Ram, a: nat): (b: seq<nat>)
    requires a < RAM_SIZE
    ensures Bits(b)
  {
    seq(8, k requires 0 <= k < 8 => Bit(ram[Cell(a, k)], a % 8))
  }

  /** The byte the eight planes hold between them. */
  function LoadByte(ram: Ram, a: nat): (v: int)
    requires a < RAM_SIZE
    ensures 0 <= v < 256
  {
    BitsUnique(PlaneBits(ram, a), 0);
    FromBits(PlaneBits(ram, a))
  }

  /** The first k planes of a byte stored. */
  function StorePlanes(ram: Ram, a: nat, data: u8, k: nat): Ram
    requires a < RAM_SIZE && k <= 8
  {
    if k == 0 then ram
    else
      var r := StorePlanes(ram, a, data, k - 1);
      PutBitLaw(r[Cell(a, k - 1)], a % 8, Bit(data, k - 1), 0);
      r[Cell(a, k - 1) := PutBit(r[Cell(a, k - 1)], a % 8, Bit(data, k - 1))]
  }

  lemma CellsApart(a: nat, k: nat, a': nat, k': nat)
    requires a < RAM_SIZE && a' < RAM_SIZE && k < 8 && k' < 8
    ensures Cell(a, k) == Cell(a', k') <==> a / 8 == a' / 8 && k == k'
  {
    DivModUnique(Cell(a, k), PLANE, k, a / 8);
    DivModUnique(Cell(a', k'), PLANE, k', a' / 8);
  }

  lemma {:induction false} StoredBit(ram: Ram, a: nat, data: u8, k: nat, a': nat, j: nat)
    requires a < RAM_SIZE && a' < RAM_SIZE && k <= 8 && j < 8
    ensures
      Bit(StorePlanes(ram, a, data, k)[Cell(a', j)], a' % 8) ==
      if a' == a && j < k then Bit(data, j) else Bit(ram[Cell(a', j)], a' % 8)
  {
    if k == 0 {
    } else {
      hide Bit, PutBit, Cell;
      StoredBit(ram, a, data, k - 1, a', j);
      var r := StorePlanes(ram, a, data, k - 1);
      PutBitLaw(r[Cell(a, k - 1)], a % 8, Bit(data, k - 1), a' % 8);
      CellsApart(a, k - 1, a', j);
    }
  }

  /** In 8-bit mode the memory behaves as 2^18 independent bytes. */
  lemma StoreLoad(ram: Ram, a: nat, data: u8, a': nat)
    requires a < RAM_SIZE && a' < RAM_SIZE
    ensures LoadByte(StorePlanes(ram, a, data, 8), a') == if a' == a then data else LoadByte(ram, a')
  {
    var r := StorePlanes(ram, a, data, 8);
    hide Bit, StorePlanes, FromBits;
    forall k | 0 <= k < 8
      ensures PlaneBits(r, a')[k] == if a' == a then Bit(data, k) else PlaneBits(ram, a')[k]
    {
      StoredBit(ram, a, data, 8, a', k);
    }
    if a' == a {
      BitsOfByte(data);
      assert PlaneBits(r, a') == ToBits(data);
    } else {
      assert PlaneBits(r, a') == PlaneBits(ram, a');
    }
  }
}
