/**
 Machine words as bounded naturals, and C's bit operators on them, defined bit by bit.

 `Field(x, pos, width)` is the value of the `width` bits of `x` that start at bit `pos`. The lemmas
 give the operators their arithmetic meaning (masking is a remainder, shifting a division, `|` of
 disjoint parts a sum) and say how they act on fields and on single bits.
*/
module Bits {

  type U32 = x: nat | x < 0x1_0000_0000

  type U16 = x: nat | x < 0x1_0000

  type U8 = x: nat | x < 0x100

  function Pow2(n: nat): (r: nat)
    ensures r >= 1
  {
    if n == 0 then 1 else 2 * Pow2(n - 1)
  }

  /** C's `&`. */
  function And(x: nat, y: nat): nat {
    if x == 0 || y == 0 then 0 else 2 * And(x / 2, y / 2) + (if x % 2 == 1 then y % 2 else 0)
  }

  /** C's `|`. */
  function Or(x: nat, y: nat): nat
    decreases x + y
  {
    if x == 0 && y == 0 then 0 else 2 * Or(x / 2, y / 2) + (if x % 2 == 1 then 1 else y % 2)
  }

  /** C's `>>` on an unsigned operand. */
  function Shr(x: nat, k: nat): nat {
    if k == 0 then x else Shr(x / 2, k - 1)
  }

  /** The `k` low bits of `x`. */
  function Low(x: nat, k: nat): nat {
    if k == 0 then 0 else 2 * Low(x / 2, k - 1) + x % 2
  }

  /** The `width` bits of `x` that start at bit `pos`. */
  function Field(x: nat, pos: nat, width: nat): nat {
    Low(Shr(x, pos), width)
  }

  predicate Bit(x: nat, i: nat) {
    Shr(x, i) % 2 == 1
  }

  /** Conversion to a 32-bit, 16-bit and 8-bit unsigned type: the high bits are dropped. */
  function Wrap32(x: int): U32 {
    x % 0x1_0000_0000
  }

  function Wrap16(x: int): U16 {
    x % 0x1_0000
  }

  function Wrap8(x: int): U8 {
    x % 0x100
  }

  /** Unsigned 32-bit subtraction, which wraps. */
  function Sub32(x: U32, y: U32): U32 {
    Wrap32(x - y)
  }

  /** C's `~` on a 32-bit operand. */
  function Not32(x: U32): U32 {
    0xFFFF_FFFF - x
  }

  /** C's `<<` before its result is converted to the type it is stored in. */
  function Shl(x: nat, k: nat): (r: nat)
    ensures r >= x
  {
    if k == 0 then x else 2 * Shl(x, k - 1)
  }

  /** The mask `(1 << k) - 1`. */
  function Ones(k: nat): nat {
    Pow2(k) - 1
  }

  // ---------- Arithmetic meaning of shifts and low bits ----------

  lemma DivUnique(x: nat, d: nat, q: int, r: nat)
    requires x == q * d + r && r < d
    ensures x / d == q && x % d == r
  {
    var k := q - x / d;
    assert k * d == x % d - r by {
      assert x == x / d * d + x % d;
    }
  }

  lemma MulMonotone(a: int, b: int, k: nat)
    ensures a <= b ==> a * k <= b * k && k * a <= k * b
  {
  }

  lemma HalveThenDivide(x: nat, p: nat)
    requires p > 0
    ensures x / (2 * p) == x / 2 / p
    ensures x % (2 * p) == 2 * (x / 2 % p) + x % 2
  {
    var q, s := x / 2 / p, x / 2 % p;
    assert x / 2 == q * p + s;
    assert q * (2 * p) == 2 * (q * p);
    DivUnique(x, 2 * p, q, 2 * s + x % 2);
  }

  lemma {:induction false} ShrIsDiv(x: nat, k: nat)
    ensures Shr(x, k) == x / Pow2(k)
  {
    if k > 0 {
      ShrIsDiv(x / 2, k - 1);
      HalveThenDivide(x, Pow2(k - 1));
    }
  }

  lemma {:induction false} LowIsMod(x: nat, k: nat)
    ensures Low(x, k) == x % Pow2(k)
  {
    if k > 0 {
      LowIsMod(x / 2, k - 1);
      HalveThenDivide(x, Pow2(k - 1));
    }
  }

  lemma {:induction false} ShlIsTimes(x: nat, k: nat)
    ensures Shl(x, k) == x * Pow2(k)
  {
    if k > 0 {
      ShlIsTimes(x, k - 1);
    }
  }

  // ---------- Masks, sums and splits ----------

  /** Masking with `k` ones keeps the `k` low bits. */
  lemma {:induction false} AndOnes(x: nat, k: nat)
    ensures And(x, Ones(k)) == Low(x, k)
  {
    if k > 0 {
      AndOnes(x / 2, k - 1);
    }
  }

  lemma AndIsMod(x: nat, mask: nat, k: nat)
    requires mask == Ones(k)
    ensures And(x, mask) == x % Pow2(k)
  {
    AndOnes(x, k);
    LowIsMod(x, k);
  }

  lemma LowUnfold(x: nat, k: nat)
    ensures Low(x, k) == if k == 0 then 0 else 2 * Low(x / 2, k - 1) + x % 2
  {
  }

  lemma Pow2Double(k: nat)
    ensures Pow2(k + 1) == 2 * Pow2(k)
  {
  }

  lemma HalfComplement(p: nat, x: nat)
    requires x < 2 * p
    ensures (2 * p - 1 - x) / 2 == p - 1 - x / 2 && (2 * p - 1 - x) % 2 == 1 - x % 2
  {
  }

  lemma {:induction false} LowBound(x: nat, k: nat)
    ensures Low(x, k) < Pow2(k) && Low(x, k) <= x
    ensures x < Pow2(k) ==> Low(x, k) == x
  {
    if k > 0 {
      LowBound(x / 2, k - 1);
    }
  }

  /** A part shifted by `k` and a part below bit `k` do not overlap, so `|` adds them. */
  lemma {:induction false} OrDisjoint(x: nat, k: nat, y: nat)
    requires y < Pow2(k)
    ensures Or(Shl(x, k), y) == Shl(x, k) + y
  {
    if k == 0 {
      OrZero(x);
    } else {
      OrDisjoint(x, k - 1, y / 2);
      HalfOps(Shl(x, k), y);
    }
  }

  lemma {:induction false} SumBound(x: nat, m: nat, y: nat, k: nat)
    requires x < Pow2(m) && y < Pow2(k)
    ensures Shl(x, k) + y < Pow2(m + k)
  {
    if k > 0 {
      SumBound(x, m, y / 2, k - 1);
    }
  }

  /** The two parts of such a sum are read back by a shift and by a mask. */
  lemma {:induction false} SumParts(x: nat, k: nat, y: nat)
    requires y < Pow2(k)
    ensures Shr(Shl(x, k) + y, k) == x && Low(Shl(x, k) + y, k) == y
  {
    if k > 0 {
      SumParts(x, k - 1, y / 2);
      assert (Shl(x, k) + y) / 2 == Shl(x, k - 1) + y / 2;
    }
  }

  /** The low `m + k` bits are the low `k` bits and, above them, the next `m`. */
  lemma {:induction false} LowSplit(x: nat, m: nat, k: nat)
    ensures Low(x, m + k) == Shl(Low(Shr(x, k), m), k) + Low(x, k)
  {
    if k > 0 {
      LowSplit(x / 2, m, k - 1);
    }
  }

  /** Shifting left drops, from the low `m + k` bits, all but the low `m`. */
  lemma {:induction false} LowShl(x: nat, m: nat, k: nat)
    ensures Low(Shl(x, k), m + k) == Shl(Low(x, m), k)
  {
    if k > 0 {
      LowShl(x, m, k - 1);
    }
  }

  /** Sums of disjoint parts compare by the upper part first. */
  lemma {:induction false} SumOrder(x: nat, y: nat, x': nat, y': nat, k: nat)
    requires y < Pow2(k) && y' < Pow2(k)
    ensures Shl(x, k) + y < Shl(x', k) + y' <==> x < x' || (x == x' && y < y')
    decreases k
  {
    if k > 0 {
      SumOrder(x, y / 2, x', y' / 2, k - 1);
      SumOrder(x', y' / 2, x, y / 2, k - 1);
    }
  }

  lemma {:induction false} ShrMonotone(x: nat, y: nat, k: nat)
    requires x <= y
    ensures Shr(x, k) <= Shr(y, k)
  {
    if k > 0 {
      ShrMonotone(x / 2, y / 2, k - 1);
    }
  }

  lemma {:induction false} ShrBound(x: nat, k: nat)
    ensures Shr(x, k) <= x
  {
    if k > 0 {
      ShrBound(x / 2, k - 1);
    }
  }

  lemma {:induction false} ShrShr(x: nat, a: nat, b: nat)
    ensures Shr(x, a + b) == Shr(Shr(x, a), b)
  {
    if a > 0 {
      ShrShr(x / 2, a - 1, b);
    }
  }

  lemma {:induction false} ShlShl(x: nat, a: nat, b: nat)
    ensures Shl(x, a + b) == Shl(Shl(x, a), b)
  {
    if b > 0 {
      ShlShl(x, a, b - 1);
    }
  }

  lemma {:induction false} LowOfWrap(x: nat, k: nat)
    requires k <= 32
    ensures Low(Wrap32(x), k) == Low(x, k)
  {
    LowOfLow(x, k, 32);
    LowIsMod(x, 32);
    Pow2Word();
  }

  lemma {:induction false} LowOfLow(x: nat, k: nat, n: nat)
    requires k <= n
    ensures Low(Low(x, n), k) == Low(x, k)
  {
    hide Low;
    LowUnfold(x, k);
    LowUnfold(x, n);
    LowUnfold(Low(x, n), k);
    if k > 0 {
      LowOfLow(x / 2, k - 1, n - 1);
    }
  }

  lemma OrZero(x: nat)
    ensures Or(x, 0) == Or(0, x) == x
  {
  }

  lemma AndZero(x: nat)
    ensures And(x, 0) == And(0, x) == 0
  {
  }

  lemma OrCommutes(x: nat, y: nat)
    ensures Or(x, y) == Or(y, x)
    decreases x + y
  {
  }

  lemma {:induction false} OrBound(x: nat, y: nat, k: nat)
    requires x < Pow2(k) && y < Pow2(k)
    ensures Or(x, y) < Pow2(k)
  {
    if k > 0 {
      OrBound(x / 2, y / 2, k - 1);
    }
  }

  lemma AndBound(x: nat, y: nat)
    ensures And(x, y) <= x && And(x, y) <= y
  {
  }

  lemma {:induction false} Pow2Add(a: nat, b: nat)
    ensures Pow2(a + b) == Pow2(a) * Pow2(b)
  {
    if a > 0 {
      Pow2Add(a - 1, b);
      assert 2 * (Pow2(a - 1) * Pow2(b)) == Pow2(a) * Pow2(b);
    }
  }

  lemma Pow2Small()
    ensures Pow2(0) == 1 && Pow2(1) == 2 && Pow2(2) == 4 && Pow2(3) == 8 && Pow2(4) == 16
    ensures Pow2(5) == 32 && Pow2(6) == 64 && Pow2(7) == 128 && Pow2(8) == 256
  {
  }

  lemma {:induction false} Pow2Monotone(m: nat, n: nat)
    requires m <= n
    ensures Pow2(m) <= Pow2(n)
  {
    if m < n {
      Pow2Monotone(m, n - 1);
    }
  }

  lemma Pow2Byte(m: nat)
    requires m <= 8
    ensures Pow2(m) <= 256
  {
    Pow2Monotone(m, 8);
    Pow2Small();
  }

  lemma Pow2Word()
    ensures Pow2(16) == 0x1_0000 && Pow2(32) == 0x1_0000_0000
  {
    Pow2Small();
    Pow2Add(8, 8);
    Pow2Add(16, 16);
  }

  // ---------- Fields and single bits of the operators ----------

  lemma HalfOps(x: nat, y: nat)
    ensures And(x, y) / 2 == And(x / 2, y / 2)
    ensures And(x, y) % 2 == (if x % 2 == 1 then y % 2 else 0)
    ensures Or(x, y) / 2 == Or(x / 2, y / 2)
    ensures Or(x, y) % 2 == (if x % 2 == 1 then 1 else y % 2)
  {
  }

  lemma {:induction false} ShrOps(x: nat, y: nat, k: nat)
    ensures Shr(And(x, y), k) == And(Shr(x, k), Shr(y, k))
    ensures Shr(Or(x, y), k) == Or(Shr(x, k), Shr(y, k))
  {
    if k > 0 {
      HalfOps(x, y);
      ShrOps(x / 2, y / 2, k - 1);
    }
  }

  lemma {:induction false} LowOr(x: nat, y: nat, k: nat)
    ensures Low(Or(x, y), k) == Or(Low(x, k), Low(y, k))
  {
    hide Low, Or;
    LowUnfold(x, k);
    LowUnfold(y, k);
    LowUnfold(Or(x, y), k);
    if k == 0 {
      OrZero(0);
    } else {
      HalfOps(x, y);
      LowOr(x / 2, y / 2, k - 1);
      OrDouble(Low(x / 2, k - 1), x % 2, Low(y / 2, k - 1), y % 2);
    }
  }

  lemma OrDouble(a: nat, r: nat, b: nat, s: nat)
    requires r < 2 && s < 2
    ensures Or(2 * a + r, 2 * b + s) == 2 * Or(a, b) + (if r == 1 then 1 else s)
  {
  }

  lemma {:induction false} LowAnd(x: nat, y: nat, k: nat)
    ensures Low(And(x, y), k) == And(Low(x, k), Low(y, k))
  {
    hide Low, And;
    LowUnfold(x, k);
    LowUnfold(y, k);
    LowUnfold(And(x, y), k);
    if k == 0 {
      AndZero(0);
    } else {
      HalfOps(x, y);
      LowAnd(x / 2, y / 2, k - 1);
      AndDouble(Low(x / 2, k - 1), x % 2, Low(y / 2, k - 1), y % 2);
    }
  }

  lemma AndDouble(a: nat, r: nat, b: nat, s: nat)
    requires r < 2 && s < 2
    ensures And(2 * a + r, 2 * b + s) == 2 * And(a, b) + (if r == 1 then s else 0)
  {
  }

  lemma FieldOps(x: nat, y: nat, pos: nat, width: nat)
    ensures Field(And(x, y), pos, width) == And(Field(x, pos, width), Field(y, pos, width))
    ensures Field(Or(x, y), pos, width) == Or(Field(x, pos, width), Field(y, pos, width))
  {
    ShrOps(x, y, pos);
    LowAnd(Shr(x, pos), Shr(y, pos), width);
    LowOr(Shr(x, pos), Shr(y, pos), width);
  }

  /** `x` outside the mask, `y` inside it. */
  function Merged(x: U32, y: U32, mask: U32): U32 {
    MergedBound(x, y, mask);
    Or(And(x, Not32(mask)), And(y, mask))
  }

  lemma MergedBound(x: U32, y: U32, mask: U32)
    ensures Or(And(x, Not32(mask)), And(y, mask)) < 0x1_0000_0000
  {
    hide And, Or;
    Pow2Word();
    AndBound(x, Not32(mask));
    AndBound(y, mask);
    OrBound(And(x, Not32(mask)), And(y, mask), 32);
  }

  lemma {:induction false} LowNot(x: nat, n: nat, k: nat)
    requires k <= n && x < Pow2(n)
    ensures Low(Pow2(n) - 1 - x, k) == Pow2(k) - 1 - Low(x, k)
  {
    hide Low, Pow2;
    LowUnfold(x, k);
    LowUnfold(Pow2(n) - 1 - x, k);
    if k == 0 {
      Pow2Small();
    } else {
      Pow2Double(n - 1);
      Pow2Double(k - 1);
      HalfComplement(Pow2(n - 1), x);
      LowNot(x / 2, n - 1, k - 1);
    }
  }

  lemma FieldNot(x: U32, pos: nat, width: nat)
    requires pos + width <= 32
    ensures Field(Not32(x), pos, width) == Ones(width) - Field(x, pos, width)
  {
    hide Shr, Low, Pow2;
    Pow2Word();
    ShrNot(x, 32, pos);
    LowNot(Shr(x, pos), 32 - pos, width);
  }

  /** A merge takes a field from `x` where the mask is zero there and from `y` where it is all ones. */
  lemma FieldMerged(x: U32, y: U32, mask: U32, pos: nat, width: nat)
    requires pos + width <= 32
    ensures Field(mask, pos, width) == 0 ==> Field(Merged(x, y, mask), pos, width) == Field(x, pos, width)
    ensures Field(mask, pos, width) == Ones(width) ==> Field(Merged(x, y, mask), pos, width) == Field(y, pos, width)
  {
    hide And, Or, Shr, Low, Not32;
    FieldOps(And(x, Not32(mask)), And(y, mask), pos, width);
    FieldOps(x, Not32(mask), pos, width);
    FieldOps(y, mask, pos, width);
    FieldNot(mask, pos, width);
    OnesAndZeros(Shr(x, pos), width);
    OnesAndZeros(Shr(y, pos), width);
  }

  lemma OnesAndZeros(x: nat, width: nat)
    ensures var f := Low(x, width);
            && And(f, Ones(width)) == f && And(f, 0) == 0 && Or(f, 0) == f && Or(0, f) == f
  {
    hide Or;
    var f := Low(x, width);
    LowBound(x, width);
    LowBound(f, width);
    AndOnes(f, width);
    AndZero(f);
    OrZero(f);
  }

  lemma FieldIsDivMod(x: nat, pos: nat, width: nat, d: nat, m: nat)
    requires d == Pow2(pos) && m == Pow2(width)
    ensures Field(x, pos, width) == x / d % m
  {
    ShrIsDiv(x, pos);
    LowIsMod(x / d, width);
  }

  /** Masking a field in place keeps it in place. */
  lemma {:induction false} AndField(x: nat, pos: nat, width: nat)
    ensures And(x, Shl(Ones(width), pos)) == Shl(Field(x, pos, width), pos)
  {
    if pos == 0 {
      AndOnes(x, width);
    } else {
      AndField(x / 2, pos - 1, width);
      HalfOps(x, Shl(Ones(width), pos));
    }
  }

  /** The masked field `(x & (ones << pos)) >> pos` is a field of `x`. */
  lemma MaskedField(x: nat, mask: nat, pos: nat, width: nat)
    requires Shr(mask, pos) == Ones(width)
    ensures Shr(And(x, mask), pos) == Field(x, pos, width)
  {
    ShrOps(x, mask, pos);
    AndOnes(Shr(x, pos), width);
  }

  lemma BitOps(x: nat, y: nat, i: nat)
    ensures Bit(And(x, y), i) <==> Bit(x, i) && Bit(y, i)
    ensures Bit(Or(x, y), i) <==> Bit(x, i) || Bit(y, i)
  {
    ShrOps(x, y, i);
    HalfOps(Shr(x, i), Shr(y, i));
  }

  lemma {:induction false} ShrNot(x: nat, n: nat, k: nat)
    requires k <= n && x < Pow2(n)
    ensures Shr(x, k) < Pow2(n - k)
    ensures Shr(Pow2(n) - 1 - x, k) == Pow2(n - k) - 1 - Shr(x, k)
  {
    if k > 0 {
      assert (Pow2(n) - 1 - x) / 2 == Pow2(n - 1) - 1 - x / 2;
      ShrNot(x / 2, n - 1, k - 1);
    }
  }

  lemma BitNot(x: U32, i: nat)
    requires i < 32
    ensures Bit(Not32(x), i) <==> !Bit(x, i)
  {
    hide Shr, Pow2;
    Pow2Word();
    ShrNot(x, 32, i);
    Pow2Double(31 - i);
    HalfComplement(Pow2(31 - i), Shr(x, i));
  }

  lemma {:induction false} ShrZero(k: nat)
    ensures Shr(0, k) == 0
  {
    if k > 0 {
      ShrZero(k - 1);
    }
  }

  lemma {:induction false} BitPow2(k: nat, i: nat)
    ensures Bit(Pow2(k), i) <==> i == k
  {
    if i > 0 {
      if k > 0 {
        BitPow2(k - 1, i - 1);
      } else {
        ShrZero(i - 1);
      }
    }
  }

  /** Two words with the same bits are the same word. */
  lemma {:induction false} BitsDetermine(x: nat, y: nat, n: nat)
    requires x < Pow2(n) && y < Pow2(n)
    requires forall i | 0 <= i < n :: Bit(x, i) <==> Bit(y, i)
    ensures x == y
  {
    if n > 0 {
      forall i | 0 <= i < n - 1
        ensures Bit(x / 2, i) <==> Bit(y / 2, i)
      {
        assert Bit(x, i + 1) <==> Bit(y, i + 1);
      }
      BitsDetermine(x / 2, y / 2, n - 1);
      assert Bit(x, 0) <==> Bit(y, 0);
    }
  }
}
