/** The flat byte array behind a row group's hot columns, addressed by 64-bit
    little-endian words when a block is ingested and by single bytes when a
    column is promoted. Both are read through one bit-addressed view, `Cell`. */
module PlaneMemory {
  import opened Bits

  const SLOTS := 32
  const PLANES := 64
  const ROWS := 65536
  const PLANE_BYTES := 8192

  predicate IsPlanes(bytes: seq<u8>) { |bytes| == SLOTS * PLANES * PLANE_BYTES }

  function Zeros(): (bytes: seq<u8>)
    ensures IsPlanes(bytes)
  {
    seq(SLOTS * PLANES * PLANE_BYTES, _ => 0)
  }

  /** Bit `row` of plane `plane` of column `slot`. */
  predicate Cell(bytes: seq<u8>, slot: nat, plane: nat, row: nat)
    requires IsPlanes(bytes) && slot < SLOTS && plane < PLANES && row < ROWS
  {
    Bit(bytes[(slot * PLANES + plane) * PLANE_BYTES + row / 8], row % 8)
  }

  /** The 64-bit value column `slot` holds for `row`. */
  function Decode(bytes: seq<u8>, slot: nat, row: nat): (v: u64)
    requires IsPlanes(bytes) && slot < SLOTS && row < ROWS
    ensures forall p | 0 <= p < PLANES :: Bit(v, p) == Cell(bytes, slot, p, row)
  {
    var bs := seq(PLANES, p requires 0 <= p < PLANES => Cell(bytes, slot, p, row));
    assert forall p | 0 <= p < PLANES :: Bit(OfBits(bs), p) == Cell(bytes, slot, p, row) by {
      forall p | 0 <= p < PLANES ensures Bit(OfBits(bs), p) == Cell(bytes, slot, p, row) { BitOfBits(bs, p); }
    }
    OfBitsBound(bs);
    Pow2Values();
    OfBits(bs)
  }

  /** A column entry is determined by its cells. */
  lemma DecodeIs(bytes: seq<u8>, slot: nat, row: nat, v: u64)
    requires IsPlanes(bytes) && slot < SLOTS && row < ROWS
    requires forall p | 0 <= p < PLANES :: Cell(bytes, slot, p, row) == Bit(v, p)
    ensures Decode(bytes, slot, row) == v
  {
    Pow2Values();
    SameBits(Decode(bytes, slot, row), v, 64);
  }

  /** Little-endian bytes of a word. */
  function BytesOf(v: nat, n: nat): (bs: seq<u8>)
    ensures |bs| == n
  {
    if n == 0 then [] else [v % 256] + BytesOf(v / 256, n - 1)
  }

  lemma BitOfByte(v: nat, i: nat)
    ensures i < 8 ==> Bit(v % 256, i) == Bit(v, i)
    ensures i >= 8 ==> Bit(v / 256, i - 8) == Bit(v, i)
  {
    Pow2Values();
    TruncIsMod(v, 8);
    BitTrunc(v, 8, i);
    if i >= 8 {
      assert v / 2 / 2 / 2 / 2 == v / 16;
      BitFour(v, i);
      BitFour(v / 16, i - 4);
    }
  }

  lemma BitFour(v: nat, i: nat)
    requires i >= 4
    ensures Bit(v, i) == Bit(v / 16, i - 4)
  {
    assert Bit(v, i) == Bit(v / 2, i - 1) == Bit(v / 2 / 2, i - 2) == Bit(v / 2 / 2 / 2, i - 3);
    assert v / 2 / 2 / 2 / 2 == v / 16;
  }

  lemma {:induction false} BitOfBytes(v: nat, n: nat, i: nat)
    requires i < 8 * n
    ensures Bit(BytesOf(v, n)[i / 8], i % 8) == Bit(v, i)
    decreases n
  {
    BitOfByte(v, i);
    if i >= 8 {
      BitOfBytes(v / 256, n - 1, i - 8);
      assert (i - 8) / 8 == i / 8 - 1 && (i - 8) % 8 == i % 8;
    }
  }

  /** A 64-bit store at a byte address. */
  function StoreWord(bytes: seq<u8>, at: nat, v: u64): (r: seq<u8>)
    requires at + 8 <= |bytes|
    ensures |r| == |bytes|
  {
    bytes[..at] + BytesOf(v, 8) + bytes[at + 8..]
  }

  /** Where ingestion stores plane `plane` of block `block`: a word index within the column's base. */
  function WordAddress(slot: nat, plane: nat, block: nat): nat {
    slot * 64 * 8192 + 8 * (plane * 1024 + block)
  }

  lemma WordInBounds(slot: nat, plane: nat, block: nat)
    requires slot < SLOTS && plane < PLANES && block < 1024
    ensures WordAddress(slot, plane, block) + 8 <= SLOTS * PLANES * PLANE_BYTES
  {
  }

  /** A word store rewrites the 64 rows of one block in one plane of one column, and nothing else. */
  lemma StoreWordCells(bytes: seq<u8>, slot: nat, plane: nat, block: nat, v: u64, s: nat, p: nat, r: nat)
    requires IsPlanes(bytes) && slot < SLOTS && plane < PLANES && block < 1024
    requires s < SLOTS && p < PLANES && r < ROWS
    ensures WordAddress(slot, plane, block) + 8 <= |bytes|
    ensures Cell(StoreWord(bytes, WordAddress(slot, plane, block), v), s, p, r) ==
            if s == slot && p == plane && r / 64 == block then Bit(v, r % 64) else Cell(bytes, s, p, r)
  {
    var at := WordAddress(slot, plane, block);
    var a := (s * PLANES + p) * PLANE_BYTES + r / 8;
    if s == slot && p == plane && r / 64 == block {
      assert a == at + (r % 64) / 8;
      assert (r % 64) % 8 == r % 8;
      BitOfBytes(v, 8, r % 64);
    } else {
      assert a < at || at + 8 <= a;
    }
  }

  /** Where promotion sets a bit: a byte index within the column's base. */
  function ByteAddress(slot: nat, plane: nat, row: nat): nat {
    slot * 64 * 8192 + plane * 8192 + row / 8
  }

  /** `bytes[at] |= 1 << pos` */
  function OrByte(bytes: seq<u8>, at: nat, pos: nat): (r: seq<u8>)
    requires at < |bytes| && pos < 8
    ensures |r| == |bytes|
  {
    Pow2Values();
    Pow2Below(pos, 8);
    OrBound(bytes[at], Pow2(pos), 8);
    bytes[at := Or(bytes[at], Pow2(pos))]
  }

  lemma {:induction false} Pow2Below(j: nat, k: nat)
    requires j < k
    ensures Pow2(j) < Pow2(k)
  {
    if j > 0 { Pow2Below(j - 1, k - 1); }
  }

  /** A byte-addressed OR sets the same cell the word addressing would, and nothing else. */
  lemma OrByteCells(bytes: seq<u8>, slot: nat, plane: nat, row: nat, s: nat, p: nat, r: nat)
    requires IsPlanes(bytes) && slot < SLOTS && plane < PLANES && row < ROWS
    requires s < SLOTS && p < PLANES && r < ROWS
    ensures ByteAddress(slot, plane, row) < |bytes|
    ensures Cell(OrByte(bytes, ByteAddress(slot, plane, row), row % 8), s, p, r) ==
            ((s == slot && p == plane && r == row) || Cell(bytes, s, p, r))
  {
    var at := ByteAddress(slot, plane, row);
    var a := (s * PLANES + p) * PLANE_BYTES + r / 8;
    if a == at {
      assert s == slot && p == plane && r / 8 == row / 8;
      BitOr(bytes[at], Pow2(row % 8), r % 8);
      BitPow2(row % 8, r % 8);
    }
  }
}
