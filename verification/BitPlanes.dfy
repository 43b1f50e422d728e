/** Bit-sliced blocks of 64 rows and the bit-serial comparators that scan them. */
module BitPlanes {
  import opened Bits

  /** Plane `b` of a block: bit `i` is bit `b` of value `i`. */
  function Plane(values: seq<u64>, b: nat): (w: u64)
    requires |values| == 64
    ensures forall i | 0 <= i < 64 :: Bit(w, i) == Bit(values[i], b)
  {
    var bs := seq(64, i requires 0 <= i < 64 => Bit(values[i], b));
    assert forall i | 0 <= i < 64 :: Bit(OfBits(bs), i) == Bit(values[i], b) by {
      forall i | 0 <= i < 64 ensures Bit(OfBits(bs), i) == Bit(values[i], b) { BitOfBits(bs, i); }
    }
    OfBitsBound(bs);
    Pow2Values();
    OfBits(bs)
  }

  /** The contract the external slicer is used under: transposition of a 64 x 64 bit matrix. */
  function Slice(values: seq<u64>): (planes: seq<u64>)
    requires |values| == 64
    ensures |planes| == 64
    ensures forall b, i | 0 <= b < 64 && 0 <= i < 64 :: Bit(planes[b], i) == Bit(values[i], b)
  {
    seq(64, b requires 0 <= b < 64 => Plane(values, b))
  }

  /** The value that 64 planes hold for row `i`. */
  function RowValue(planes: seq<u64>, i: nat): (v: u64)
    requires |planes| == 64 && i < 64
    ensures forall b | 0 <= b < 64 :: Bit(v, b) == Bit(planes[b], i)
  {
    var bs := seq(64, b requires 0 <= b < 64 => Bit(planes[b], i));
    assert forall b | 0 <= b < 64 :: Bit(OfBits(bs), b) == Bit(planes[b], i) by {
      forall b | 0 <= b < 64 ensures Bit(OfBits(bs), b) == Bit(planes[b], i) { BitOfBits(bs, b); }
    }
    OfBitsBound(bs);
    Pow2Values();
    OfBits(bs)
  }

  lemma SliceRoundTrip(values: seq<u64>, i: nat)
    requires |values| == 64 && i < 64
    ensures RowValue(Slice(values), i) == values[i]
  {
    Pow2Values();
    SameBits(RowValue(Slice(values), i), values[i], 64);
  }

  function Low(planes: seq<u64>, i: nat, width: nat): nat
    requires |planes| == 64 && i < 64
  {
    Trunc(RowValue(planes, i), width)
  }

  /** One comparator step: the prefix of row `i` above `bit`, extended by its bit `bit`. */
  lemma PrefixStep(planes: seq<u64>, i: nat, width: nat, bit: nat)
    requires |planes| == 64 && i < 64 && bit < width <= 64
    ensures Shr(Low(planes, i, width), bit) == 2 * Shr(Low(planes, i, width), bit + 1) + Digit(Bit(planes[bit], i))
  {
    ShrStep(Low(planes, i, width), bit);
    BitTrunc(RowValue(planes, i), width, bit);
  }

  lemma PrefixStart(v: nat, width: nat)
    ensures Shr(Trunc(v, width), width) == 0
  {
    TruncBounds(v, width);
    ShrAll(Trunc(v, width), width);
  }

  /** Bit-serial `column == target` over the low `width` planes. */
  method EqMask(planes: seq<u64>, width: nat, target: nat) returns (mask: u64)
    requires |planes| == 64 && width <= 64 && target < Pow2(width)
    ensures forall i | 0 <= i < 64 :: Bit(mask, i) <==> Low(planes, i, width) == target
  {
    mask := ALL_ONES;
    var bit := width;
    ShrAll(target, width);
    forall i | 0 <= i < 64 ensures Bit(mask, i) && Shr(Low(planes, i, width), width) == 0 {
      BitAllOnes(i);
      PrefixStart(RowValue(planes, i), width);
    }
    while bit > 0
      invariant 0 <= bit <= width
      invariant forall i | 0 <= i < 64 :: Bit(mask, i) <==> Shr(Low(planes, i, width), bit) == Shr(target, bit)
    {
      bit := bit - 1;
      var plane := planes[bit];
      ghost var was := mask;
      if Bit(target, bit) {
        mask := And(mask, plane);
      } else {
        mask := And(mask, Not64(plane));
      }
      ShrStep(target, bit);
      forall i | 0 <= i < 64 ensures Bit(mask, i) <==> Shr(Low(planes, i, width), bit) == Shr(target, bit) {
        BitNot64(plane, i);
        BitAnd(was, plane, i);
        BitAnd(was, Not64(plane), i);
        PrefixStep(planes, i, width, bit);
      }
    }
  }

  /** Bit-serial `column > target` over the low `width` planes. */
  method GtMask(planes: seq<u64>, width: nat, target: nat) returns (gt: u64)
    requires |planes| == 64 && width <= 64 && target < Pow2(width)
    ensures forall i | 0 <= i < 64 :: Bit(gt, i) <==> Low(planes, i, width) > target
  {
    gt := 0;
    var eq: u64 := ALL_ONES;
    var bit := width;
    ShrAll(target, width);
    forall i | 0 <= i < 64 ensures Bit(eq, i) && !Bit(gt, i) && Shr(Low(planes, i, width), width) == 0 {
      BitAllOnes(i);
      BitOfZero(i);
      PrefixStart(RowValue(planes, i), width);
    }
    while bit > 0
      invariant 0 <= bit <= width
      invariant forall i | 0 <= i < 64 :: Bit(eq, i) <==> Shr(Low(planes, i, width), bit) == Shr(target, bit)
      invariant forall i | 0 <= i < 64 :: Bit(gt, i) <==> Shr(Low(planes, i, width), bit) > Shr(target, bit)
    {
      bit := bit - 1;
      ghost var eq0, gt0 := eq, gt;
      gt, eq := GtStep(planes[bit], Bit(target, bit), gt, eq);
      ShrStep(target, bit);
      forall i | 0 <= i < 64
        ensures Bit(eq, i) <==> Shr(Low(planes, i, width), bit) == Shr(target, bit)
        ensures Bit(gt, i) <==> Shr(Low(planes, i, width), bit) > Shr(target, bit)
      {
        PrefixStep(planes, i, width, bit);
        assert Bit(eq, i) <==> Bit(eq0, i) && Bit(planes[bit], i) == Bit(target, bit);
        assert Bit(gt, i) <==> Bit(gt0, i) || (Bit(eq0, i) && Bit(planes[bit], i) && !Bit(target, bit));
      }
    }
  }

  /** The loop body of the greater-than comparator, on whole words. */
  method GtStep(plane: u64, targetBit: bool, gt0: u64, eq0: u64) returns (gt: u64, eq: u64)
    ensures forall i | 0 <= i < 64 :: Bit(eq, i) <==> Bit(eq0, i) && Bit(plane, i) == targetBit
    ensures forall i | 0 <= i < 64 :: Bit(gt, i) <==> Bit(gt0, i) || (Bit(eq0, i) && Bit(plane, i) && !targetBit)
  {
    var targetMask: u64 := if targetBit then ALL_ONES else 0;
    var greater: u64 := And(plane, Not64(targetMask));
    Pow2Values();
    OrBound(gt0, And(greater, eq0), 64);
    XorBound(plane, targetMask, 64);
    gt := Or(gt0, And(greater, eq0));
    eq := And(eq0, Not64(Xor(plane, targetMask)));
    forall i | 0 <= i < 64
      ensures Bit(eq, i) <==> Bit(eq0, i) && Bit(plane, i) == targetBit
      ensures Bit(gt, i) <==> Bit(gt0, i) || (Bit(eq0, i) && Bit(plane, i) && !targetBit)
    {
      BitAllOnes(i);
      BitOfZero(i);
      BitNot64(targetMask, i);
      BitAnd(plane, Not64(targetMask), i);
      BitAnd(greater, eq0, i);
      BitOr(gt0, And(greater, eq0), i);
      BitXor(plane, targetMask, i);
      BitNot64(Xor(plane, targetMask), i);
      BitAnd(eq0, Not64(Xor(plane, targetMask)), i);
    }
  }

  /** `status == s AND latency > t` on one block. */
  method MatchMask(statusPlanes: seq<u64>, latencyPlanes: seq<u64>, width: nat, s: nat, t: nat) returns (mask: u64)
    requires |statusPlanes| == 64 && |latencyPlanes| == 64
    requires width <= 64 && s < Pow2(width) && t < Pow2(width)
    ensures forall i | 0 <= i < 64 ::
              Bit(mask, i) <==> Low(statusPlanes, i, width) == s && Low(latencyPlanes, i, width) > t
  {
    var eq := EqMask(statusPlanes, width, s);
    var gt := GtMask(latencyPlanes, width, t);
    mask := And(And(ALL_ONES, eq), gt);
    forall i | 0 <= i < 64 ensures Bit(mask, i) == (Bit(eq, i) && Bit(gt, i)) {
      BitAllOnes(i);
      BitAnd(ALL_ONES, eq, i);
      BitAnd(And(ALL_ONES, eq), gt, i);
    }
  }
}
