/** Machine words as natural numbers. `Bit` reads one bit by halving, and the
    bitwise operators are defined by the same halving, so that every law about
    them is an induction over linear arithmetic. */
module Bits {
  type u8 = n: nat | n < 0x100
  type u64 = n: nat | n < 0x1_0000_0000_0000_0000

  const ALL_ONES: u64 := 0xFFFF_FFFF_FFFF_FFFF

  datatype Option<+T> = None | Some(value: T)

  function Pow2(k: nat): (p: nat)
    ensures p >= 1
  {
    if k == 0 then 1 else 2 * Pow2(k - 1)
  }

  predicate Bit(w: nat, i: nat) {
    if i == 0 then w % 2 == 1 else Bit(w / 2, i - 1)
  }

  function Digit(b: bool): (d: nat) { if b then 1 else 0 }

  /** `w >> k` */
  function Shr(w: nat, k: nat): nat {
    if k == 0 then w else Shr(w / 2, k - 1)
  }

  function And(a: nat, b: nat): (r: nat)
    ensures r <= a && r <= b
  {
    if a == 0 || b == 0 then 0
    else 2 * And(a / 2, b / 2) + Digit(a % 2 == 1 && b % 2 == 1)
  }

  function Or(a: nat, b: nat): nat {
    if a == 0 then b else if b == 0 then a
    else 2 * Or(a / 2, b / 2) + Digit(a % 2 == 1 || b % 2 == 1)
  }

  function Xor(a: nat, b: nat): nat {
    if a == 0 then b else if b == 0 then a
    else 2 * Xor(a / 2, b / 2) + Digit((a % 2 == 1) != (b % 2 == 1))
  }

  /** `~w` on a 64-bit word */
  function Not64(w: u64): u64 { ALL_ONES - w }

  /** Unsigned 64-bit addition and subtraction, which wrap around. */
  function WrapAdd(a: u64, b: nat): u64 { (a + b) % (ALL_ONES + 1) }
  function WrapSub(a: u64, b: nat): u64 { (a + (ALL_ONES + 1) - b % (ALL_ONES + 1)) % (ALL_ONES + 1) }

  /** The number whose bits, least significant first, are `bs`. */
  function OfBits(bs: seq<bool>): nat {
    if bs == [] then 0 else Digit(bs[0]) + 2 * OfBits(bs[1..])
  }

  lemma Pow2Values()
    ensures Pow2(8) == 0x100
    ensures Pow2(64) == 0x1_0000_0000_0000_0000
  {
    assert Pow2(4) == 16;
    Pow2Sum(4, 4);
    Pow2Sum(8, 8);
    Pow2Sum(16, 16);
    Pow2Sum(32, 32);
  }

  lemma {:induction false} Pow2Sum(a: nat, b: nat)
    ensures Pow2(a + b) == Pow2(a) * Pow2(b)
  {
    if a > 0 {
      Pow2Sum(a - 1, b);
      assert Pow2(a) * Pow2(b) == 2 * (Pow2(a - 1) * Pow2(b));
    }
  }

  lemma {:induction false} BitAnd(a: nat, b: nat, i: nat)
    ensures Bit(And(a, b), i) == (Bit(a, i) && Bit(b, i))
    decreases i
  {
    if a == 0 || b == 0 {
      BitOfZero(i);
    } else if i > 0 {
      BitAnd(a / 2, b / 2, i - 1);
    }
  }

  lemma {:induction false} BitOr(a: nat, b: nat, i: nat)
    ensures Bit(Or(a, b), i) == (Bit(a, i) || Bit(b, i))
    decreases i
  {
    if a == 0 || b == 0 {
      BitOfZero(i);
    } else if i > 0 {
      BitOr(a / 2, b / 2, i - 1);
    }
  }

  lemma {:induction false} BitXor(a: nat, b: nat, i: nat)
    ensures Bit(Xor(a, b), i) == (Bit(a, i) != Bit(b, i))
    decreases i
  {
    if a == 0 || b == 0 {
      BitOfZero(i);
    } else if i > 0 {
      BitXor(a / 2, b / 2, i - 1);
    }
  }

  lemma {:induction false} OrBound(a: nat, b: nat, k: nat)
    requires a < Pow2(k) && b < Pow2(k)
    ensures Or(a, b) < Pow2(k)
  {
    if k > 0 && a != 0 && b != 0 { OrBound(a / 2, b / 2, k - 1); }
  }

  lemma {:induction false} XorBound(a: nat, b: nat, k: nat)
    requires a < Pow2(k) && b < Pow2(k)
    ensures Xor(a, b) < Pow2(k)
  {
    if k > 0 && a != 0 && b != 0 { XorBound(a / 2, b / 2, k - 1); }
  }

  lemma {:induction false} BitOfZero(i: nat)
    ensures !Bit(0, i)
  {
    if i > 0 { BitOfZero(i - 1); }
  }

  /** Bits at and above the width of a number are clear. */
  lemma {:induction false} BitHigh(w: nat, k: nat, i: nat)
    requires w < Pow2(k) && k <= i
    ensures !Bit(w, i)
  {
    if k == 0 {
      BitOfZero(i);
    } else {
      BitHigh(w / 2, k - 1, i - 1);
    }
  }

  lemma {:induction false} BitComplement(w: nat, k: nat, i: nat)
    requires w < Pow2(k) && i < k
    ensures Bit(Pow2(k) - 1 - w, i) == !Bit(w, i)
  {
    if i > 0 {
      BitComplement(w / 2, k - 1, i - 1);
      assert (Pow2(k) - 1 - w) / 2 == Pow2(k - 1) - 1 - w / 2;
    }
  }

  lemma BitNot64(w: u64, i: nat)
    requires i < 64
    ensures Bit(Not64(w), i) == !Bit(w, i)
  {
    Pow2Values();
    BitComplement(w, 64, i);
  }

  lemma BitAllOnes(i: nat)
    requires i < 64
    ensures Bit(ALL_ONES, i)
  {
    BitNot64(0, i);
    BitOfZero(i);
  }

  lemma {:induction false} OfBitsBound(bs: seq<bool>)
    ensures OfBits(bs) < Pow2(|bs|)
  {
    if bs != [] { OfBitsBound(bs[1..]); }
  }

  lemma {:induction false} BitOfBits(bs: seq<bool>, i: nat)
    ensures Bit(OfBits(bs), i) == (i < |bs| && bs[i])
  {
    if bs == [] {
      BitOfZero(i);
    } else if i > 0 {
      BitOfBits(bs[1..], i - 1);
    }
  }

  /** Two numbers of the same width with the same bits are equal. */
  lemma {:induction false} SameBits(a: nat, b: nat, k: nat)
    requires a < Pow2(k) && b < Pow2(k)
    requires forall i | 0 <= i < k :: Bit(a, i) == Bit(b, i)
    ensures a == b
  {
    if k > 0 {
      assert Bit(a, 0) == Bit(b, 0);
      forall i | 0 <= i < k - 1 ensures Bit(a / 2, i) == Bit(b / 2, i) {
        assert Bit(a, i + 1) == Bit(b, i + 1);
      }
      SameBits(a / 2, b / 2, k - 1);
    }
  }

  /** The recurrence the bit-serial comparators run on. */
  lemma {:induction false} ShrStep(w: nat, k: nat)
    ensures Shr(w, k) == 2 * Shr(w, k + 1) + Digit(Bit(w, k))
  {
    if k > 0 { ShrStep(w / 2, k - 1); }
  }

  lemma {:induction false} ShrAll(w: nat, k: nat)
    requires w < Pow2(k)
    ensures Shr(w, k) == 0
  {
    if k > 0 { ShrAll(w / 2, k - 1); }
  }

  /** The low `k` bits of `w`. */
  function Trunc(w: nat, k: nat): nat {
    if k == 0 then 0 else w % 2 + 2 * Trunc(w / 2, k - 1)
  }

  lemma {:induction false} BitTrunc(w: nat, k: nat, i: nat)
    ensures Bit(Trunc(w, k), i) == (i < k && Bit(w, i))
  {
    if k == 0 {
      BitOfZero(i);
    } else if i > 0 {
      BitTrunc(w / 2, k - 1, i - 1);
    }
  }

  lemma {:induction false} TruncBounds(w: nat, k: nat)
    ensures Trunc(w, k) < Pow2(k) && Trunc(w, k) <= w
    ensures w < Pow2(k) ==> Trunc(w, k) == w
  {
    if k > 0 { TruncBounds(w / 2, k - 1); }
  }

  lemma {:induction false} TruncIsMod(w: nat, k: nat)
    ensures Trunc(w, k) == w % Pow2(k)
  {
    if k > 0 {
      ModHalf(w, Pow2(k - 1));
      TruncIsMod(w / 2, k - 1);
    }
  }

  lemma ModHalf(w: nat, p: nat)
    requires p >= 1
    ensures (w % (2 * p)) / 2 == (w / 2) % p
    ensures (w % (2 * p)) % 2 == w % 2
  {
    var q, r := (w / 2) / p, (w / 2) % p;
    assert w / 2 == q * p + r;
    var s := 2 * r + w % 2;
    assert w == q * (2 * p) + s;
    assert 0 <= s < 2 * p;
    DivModUnique(w, 2 * p, q, s);
  }

  lemma DivModUnique(w: nat, m: nat, q: nat, s: nat)
    requires m > 0 && w == q * m + s && s < m
    ensures w / m == q && w % m == s
  {
    var d := w / m - q;
    assert w == (w / m) * m + w % m;
    assert d * m == s - w % m;
    assert d >= 1 ==> d * m >= m;
    assert d <= -1 ==> d * m <= -1 * m;
  }

  lemma AddMod(a: nat, b: nat, m: nat)
    requires m > 0
    ensures (a % m + b) % m == (a + b) % m
  {
    var q, r := a / m, a % m;
    var q', r' := (r + b) / m, (r + b) % m;
    assert a + b == (q + q') * m + r';
    DivModUnique(a + b, m, q + q', r');
  }

  lemma SumMod(a: nat, b: nat, m: nat)
    requires m > 0
    ensures (a + b) % m == (a % m + b % m) % m
  {
    AddMod(a, b, m);
    AddMod(b, a % m, m);
  }

  lemma SmallSum(x: nat, y: nat, m: nat)
    requires x < m && y < m
    ensures ((x + y) % m + m - y) % m == x
  {
    if x + y < m {
      DivModUnique(x + y, m, 0, x + y);
      DivModUnique(x + m, m, 1, x);
    } else {
      DivModUnique(x + y, m, 1, x + y - m);
      DivModUnique(x, m, 0, x);
    }
  }

  lemma SubMod(a: nat, b: nat, m: nat)
    requires m > 0 && b <= a
    ensures (a % m + m - b % m) % m == (a - b) % m
  {
    var c := a - b;
    var x, y := Rem(c, m), Rem(b, m);
    assert Rem(a, m) == Rem(x + y, m) by {
      assert a == c + b;
      SumMod(c, b, m);
    }
    SmallSum(x, y, m);
  }

  function Rem(a: nat, m: nat): (r: nat)
    requires m > 0
    ensures r < m
  {
    a % m
  }

  /** Wrapping arithmetic tracks the true total modulo 2^64. */
  lemma WrapTracks(total: nat, n: nat)
    ensures WrapAdd(total % (ALL_ONES + 1), n) == (total + n) % (ALL_ONES + 1)
    ensures n <= total ==> WrapSub(total % (ALL_ONES + 1), n) == (total - n) % (ALL_ONES + 1)
  {
    AddMod(total, n, ALL_ONES + 1);
    if n <= total { SubMod(total, n, ALL_ONES + 1); }
  }

  /** `1 << j` has exactly bit `j` set. */
  lemma {:induction false} BitPow2(j: nat, i: nat)
    ensures Bit(Pow2(j), i) == (i == j)
  {
    if j == 0 {
      if i > 0 { BitOfZero(i - 1); }
    } else if i > 0 {
      BitPow2(j - 1, i - 1);
    }
  }
}
