/**
 Interrupt priorities: how a preemption priority and a subpriority are packed into one value under a
 priority grouping, how that value is placed in an 8-bit priority register, and what order the
 processor then sees.

 `p` is the number of implemented priority bits (`__NVIC_PRIO_BITS`), 1 to 8. A grouping `g` puts the
 binary point of the priority byte above bit `g`.
*/
module Priority {
  import opened Bits

  ghost predicate PriorityBits(p: nat) {
    1 <= p <= 8
  }

  /** Only the values 0 to 7 of a grouping argument are used. */
  function Group(g: U32): (group: nat)
    ensures group == g % 8
  {
    LowThree(g);
    And(g, 7)
  }

  lemma LowThree(g: nat)
    ensures And(g, 7) == g % 8
  {
    Pow2Small();
    AndIsMod(g, 7, 3);
  }

  function PreemptWidth(g: U32, p: nat): nat {
    PreemptBits(Group(g), p)
  }

  function SubWidth(g: U32, p: nat): nat {
    SubBits(Group(g), p)
  }

  function PreemptBits(group: nat, p: nat): nat {
    if Wrap32(7 - group) > p then p else Wrap32(7 - group)
  }

  /** The subtraction wraps below zero; adding `p` wraps back. */
  function SubBits(group: nat, p: nat): nat {
    if group + p < 7 then 0 else Wrap32(Wrap32(group - 7) + p)
  }

  function Encode(g: U32, p: nat, preempt: U32, sub: U32): U32
    requires PriorityBits(p)
  {
    EncodeFits(g, p, preempt, sub);
    Pack(preempt, sub, PreemptWidth(g, p), SubWidth(g, p))
  }

  function Pack(preempt: nat, sub: nat, m: nat, n: nat): nat {
    Or(Shl(And(preempt, Ones(m)), n), And(sub, Ones(n)))
  }

  datatype Fields = Fields(preempt: nat, sub: nat)

  function Decode(priority: U32, g: U32, p: nat): (f: Fields)
    requires PriorityBits(p)
    ensures f.preempt < 256 && f.sub < 256
  {
    DecodeFits(priority, g, p);
    Unpack(priority, PreemptWidth(g, p), SubWidth(g, p))
  }

  function Unpack(priority: nat, m: nat, n: nat): Fields {
    Fields(And(Shr(priority, n), Ones(m)), And(priority, Ones(n)))
  }

  /** The byte that `NVIC_SetPriority` stores for a priority value. */
  function PriorityByte(priority: U32, p: nat): U8
    requires PriorityBits(p)
  {
    ByteIsShifted(priority, p);
    And(Wrap32(Shl(priority, 8 - p)), 0xFF)
  }

  /** What `NVIC_GetPriority` returns for a stored byte. */
  function ByteValue(b: U8, p: nat): nat
    requires PriorityBits(p)
  {
    Shr(b, 8 - p)
  }

  // ---------- Widths ----------

  /** The two fields share out exactly the implemented bits; a grouping that asks for more preemption
      bits than there are gets all of them. */
  lemma Widths(g: U32, p: nat)
    requires PriorityBits(p)
    ensures PreemptWidth(g, p) + SubWidth(g, p) == p
    ensures PreemptWidth(g, p) == if 7 - g % 8 > p then p else 7 - g % 8
  {
    hide And, PreemptBits, SubBits;
    BitCounts(Group(g), p);
  }

  lemma BitCounts(group: nat, p: nat)
    requires PriorityBits(p) && group <= 7
    ensures PreemptBits(group, p) == if 7 - group > p then p else 7 - group
    ensures SubBits(group, p) == p - PreemptBits(group, p)
  {
  }

  /** The table for 4 implemented bits: `NVIC_PriorityGroup_k` has `k` preemption bits. */
  lemma GroupTable(k: nat)
    requires k <= 4
    ensures PreemptWidth(7 - k, 4) == k && SubWidth(7 - k, 4) == 4 - k
  {
    hide And;
    LowThree(7 - k);
    BitCounts(7 - k, 4);
  }

  lemma ClampedWidths(g: U32, p: nat)
    requires PriorityBits(p) && g % 8 + p <= 7
    ensures PreemptWidth(g, p) == PreemptWidth(7 - p, p) == p
    ensures SubWidth(g, p) == SubWidth(7 - p, p) == 0
  {
    hide PreemptWidth, SubWidth;
    Widths(g, p);
    Widths(7 - p, p);
  }

  /** Every grouping below `7 - p` encodes and decodes exactly as `7 - p` does. */
  lemma ClampedGrouping(g: U32, p: nat, preempt: U32, sub: U32, priority: U32)
    requires PriorityBits(p) && g % 8 + p <= 7
    ensures Encode(g, p, preempt, sub) == Encode(7 - p, p, preempt, sub)
    ensures Decode(priority, g, p) == Decode(priority, 7 - p, p)
  {
    ClampedWidths(g, p);
    assert Encode(g, p, preempt, sub) == Pack(preempt, sub, p, 0);
    assert Encode(7 - p, p, preempt, sub) == Pack(preempt, sub, p, 0);
    assert Decode(priority, g, p) == Unpack(priority, p, 0);
    assert Decode(priority, 7 - p, p) == Unpack(priority, p, 0);
  }

  // ---------- Round trips ----------

  lemma PackIsSum(a: nat, b: nat, m: nat, n: nat)
    ensures Pack(a, b, m, n) == Shl(Low(a, m), n) + Low(b, n) < Pow2(m + n)
  {
    AndOnes(a, m);
    AndOnes(b, n);
    LowBound(a, m);
    LowBound(b, n);
    OrDisjoint(Low(a, m), n, Low(b, n));
    SumBound(Low(a, m), m, Low(b, n), n);
  }

  lemma EncodeFits(g: U32, p: nat, preempt: U32, sub: U32)
    requires PriorityBits(p)
    ensures Pack(preempt, sub, PreemptWidth(g, p), SubWidth(g, p)) < Pow2(p) <= 256
  {
    hide Pack, PreemptWidth, SubWidth, Shl, Low, Pow2;
    Widths(g, p);
    PackIsSum(preempt, sub, PreemptWidth(g, p), SubWidth(g, p));
    Pow2Byte(p);
  }

  lemma DecodeFits(priority: U32, g: U32, p: nat)
    requires PriorityBits(p)
    ensures var f := Unpack(priority, PreemptWidth(g, p), SubWidth(g, p));
            f.preempt < 256 && f.sub < 256
  {
    Widths(g, p);
    PackUnpack(priority, PreemptWidth(g, p), SubWidth(g, p));
    Pow2Byte(PreemptWidth(g, p));
    Pow2Byte(SubWidth(g, p));
  }

  lemma MaskFits(x: nat, k: nat)
    requires x < Pow2(k)
    ensures And(x, Ones(k)) == x
  {
    AndOnes(x, k);
    LowBound(x, k);
  }

  lemma UnpackSum(e: nat, a: nat, b: nat, m: nat, n: nat)
    requires e == Shl(a, n) + b && a < Pow2(m) && b < Pow2(n)
    ensures Unpack(e, m, n) == Fields(a, b)
  {
    hide And, Shr, Shl, Low, Pow2;
    SumParts(a, n, b);
    MaskFits(a, m);
    AndOnes(e, n);
  }

  lemma UnpackPack(a: nat, b: nat, m: nat, n: nat)
    ensures Unpack(Pack(a, b, m, n), m, n) == Fields(Low(a, m), Low(b, n))
  {
    PackIsSum(a, b, m, n);
    LowBound(a, m);
    LowBound(b, n);
    UnpackSum(Pack(a, b, m, n), Low(a, m), Low(b, n), m, n);
  }

  lemma PackUnpack(x: nat, m: nat, n: nat)
    ensures var f := Unpack(x, m, n);
            && f.preempt < Pow2(m) && f.sub < Pow2(n)
            && Pack(f.preempt, f.sub, m, n) == Low(x, m + n)
  {
    var f := Unpack(x, m, n);
    AndOnes(Shr(x, n), m);
    AndOnes(x, n);
    LowBound(Shr(x, n), m);
    LowBound(x, n);
    PackIsSum(f.preempt, f.sub, m, n);
    LowBound(f.preempt, m);
    LowBound(f.sub, n);
    LowSplit(x, m, n);
  }

  /** Decoding an encoded priority returns both parts, each cut to the width it was given. */
  lemma DecodeEncode(g: U32, p: nat, preempt: U32, sub: U32)
    requires PriorityBits(p)
    ensures Decode(Encode(g, p, preempt, sub), g, p)
         == Fields(Low(preempt, PreemptWidth(g, p)), Low(sub, SubWidth(g, p)))
  {
    UnpackPack(preempt, sub, PreemptWidth(g, p), SubWidth(g, p));
  }

  /** Encoding a decoded priority returns the priority, cut to the implemented bits. */
  lemma EncodeDecode(priority: U32, g: U32, p: nat)
    requires PriorityBits(p)
    ensures var f := Decode(priority, g, p);
            Encode(g, p, f.preempt, f.sub) == Low(priority, p)
  {
    hide PreemptWidth, SubWidth, Pack, Unpack, Low, Pow2;
    Widths(g, p);
    PackUnpack(priority, PreemptWidth(g, p), SubWidth(g, p));
  }

  // ---------- The stored byte ----------

  /** A stored byte holds the priority's implemented bits, left-aligned, and zeros below them. */
  lemma ByteIsShifted(priority: U32, p: nat)
    requires PriorityBits(p)
    ensures And(Wrap32(Shl(priority, 8 - p)), 0xFF) == Shl(Low(priority, p), 8 - p) < 256
  {
    var s := Shl(priority, 8 - p);
    assert Ones(8) == 0xFF;
    AndOnes(Wrap32(s), 8);
    LowOfWrap(s, 8);
    LowShl(priority, p, 8 - p);
    LowBound(s, 8);
  }

  /** The stored byte, in numbers. */
  lemma PriorityByteIs(priority: U32, p: nat)
    requires PriorityBits(p)
    ensures PriorityByte(priority, p) == priority % Pow2(p) * Pow2(8 - p)
  {
    hide And, Shl, Low, Pow2;
    ByteIsShifted(priority, p);
    LowIsMod(priority, p);
    ShlIsTimes(Low(priority, p), 8 - p);
  }

  /** What is read for a stored byte, in numbers. */
  lemma ByteValueIs(b: U8, p: nat)
    requires PriorityBits(p)
    ensures ByteValue(b, p) == b / Pow2(8 - p)
  {
    ShrIsDiv(b, 8 - p);
  }

  /** Preemption compares what the byte holds above the binary point. */
  lemma PreemptsIs(b: U8, b': U8, g: nat)
    ensures Preempts(b, b', g) <==> b / Pow2(g + 1) < b' / Pow2(g + 1)
  {
    hide Shr;
    ShrIsDiv(b, g + 1);
    ShrIsDiv(b', g + 1);
  }

  /** Encoding, in numbers: both parts cut to their widths, one above the other. */
  lemma EncodeIs(g: U32, p: nat, preempt: U32, sub: U32, m: nat)
    requires PriorityBits(p) && m == if 7 - g % 8 > p then p else 7 - g % 8
    ensures Encode(g, p, preempt, sub) == preempt % Pow2(m) * Pow2(p - m) + sub % Pow2(p - m)
  {
    hide Shl, Low, Pow2, Pack, PreemptWidth, SubWidth;
    Widths(g, p);
    PackIsSum(preempt, sub, m, p - m);
    LowIsMod(preempt, m);
    LowIsMod(sub, p - m);
    ShlIsTimes(Low(preempt, m), p - m);
  }

  lemma DecodeIs(priority: U32, g: U32, p: nat, m: nat)
    requires PriorityBits(p) && m == if 7 - g % 8 > p then p else 7 - g % 8
    ensures Decode(priority, g, p) == Fields(priority / Pow2(p - m) % Pow2(m), priority % Pow2(p - m))
  {
    hide And, Shr, Low, Pow2, PreemptWidth, SubWidth;
    Widths(g, p);
    AndOnes(Shr(priority, p - m), m);
    AndOnes(priority, p - m);
    LowIsMod(Shr(priority, p - m), m);
    LowIsMod(priority, p - m);
    ShrIsDiv(priority, p - m);
  }

  lemma ReadBack(priority: U32, p: nat)
    requires PriorityBits(p)
    ensures ByteValue(PriorityByte(priority, p), p) == Low(priority, p)
  {
    ByteIsShifted(priority, p);
    SumParts(Low(priority, p), 8 - p, 0);
  }

  // ---------- The order the processor sees ----------

  /** Two pending interrupts: the smaller byte is served first, then the smaller number. */
  predicate ServedBefore(b: U8, irq: int, b': U8, irq': int) {
    b < b' || (b == b' && irq < irq')
  }

  /** Under grouping `g` only the bits above bit `g` decide whether one interrupt preempts another. */
  predicate Preempts(b: U8, b': U8, g: nat) {
    Shr(b, g + 1) < Shr(b', g + 1)
  }

  /** The byte stored for a pair of fields. */
  function Stored(g: U32, p: nat, f: Fields): U8
    requires PriorityBits(p) && InRange(f, g, p)
  {
    RangeIsSmall(f, g, p);
    PriorityByte(Encode(g, p, f.preempt, f.sub), p)
  }

  /** The documented range of both fields under a grouping. */
  ghost predicate InRange(f: Fields, g: U32, p: nat) {
    f.preempt < Pow2(PreemptWidth(g, p)) && f.sub < Pow2(SubWidth(g, p))
  }

  lemma RangeIsSmall(f: Fields, g: U32, p: nat)
    requires PriorityBits(p) && InRange(f, g, p)
    ensures f.preempt < 256 && f.sub < 256
  {
    Widths(g, p);
    Pow2Byte(PreemptWidth(g, p));
    Pow2Byte(SubWidth(g, p));
  }

  lemma StoredIsSum(g: U32, p: nat, f: Fields, n: nat)
    requires PriorityBits(p) && InRange(f, g, p) && n == SubWidth(g, p)
    ensures Stored(g, p, f) == Shl(Shl(f.preempt, n) + f.sub, 8 - p)
  {
    hide And, Or;
    RangeIsSmall(f, g, p);
    var e := Encode(g, p, f.preempt, f.sub);
    PackIsSum(f.preempt, f.sub, PreemptWidth(g, p), n);
    LowBound(f.preempt, PreemptWidth(g, p));
    LowBound(f.sub, n);
    EncodeFits(g, p, f.preempt, f.sub);
    LowBound(e, p);
    ByteIsShifted(e, p);
  }

  lemma SumsCompare(a: nat, b: nat, a': nat, b': nat, n: nat, k: nat)
    requires b < Pow2(n) && b' < Pow2(n)
    ensures Shl(Shl(a, n) + b, k) < Shl(Shl(a', n) + b', k) <==> a < a' || (a == a' && b < b')
  {
    SumOrder(a, b, a', b', n);
    SumOrder(Shl(a, n) + b, 0, Shl(a', n) + b', 0, k);
  }

  /** In-range fields are compared, once stored, exactly as documented: preemption priority first,
      then subpriority, then interrupt number. */
  lemma StoredOrder(g: U32, p: nat, f: Fields, irq: int, f': Fields, irq': int)
    requires PriorityBits(p) && InRange(f, g, p) && InRange(f', g, p)
    ensures ServedBefore(Stored(g, p, f), irq, Stored(g, p, f'), irq')
       <==> || f.preempt < f'.preempt
            || (f.preempt == f'.preempt && f.sub < f'.sub)
            || (f == f' && irq < irq')
  {
    hide And, Or, Shl, Pow2, Stored, PreemptWidth, SubWidth;
    var n := SubWidth(g, p);
    StoredIsSum(g, p, f, n);
    StoredIsSum(g, p, f', n);
    SumsCompare(f.preempt, f.sub, f'.preempt, f'.sub, n, 8 - p);
    SumsCompare(f'.preempt, f'.sub, f.preempt, f.sub, n, 8 - p);
  }

  lemma UpperBits(a: nat, b: nat, n: nat, k: nat)
    requires b < Pow2(n)
    ensures Shr(Shl(Shl(a, n) + b, k), k + n) == a
  {
    ShrShr(Shl(Shl(a, n) + b, k), k, n);
    SumParts(Shl(a, n) + b, k, 0);
    SumParts(a, n, b);
  }

  lemma ScaledBits(a: nat, b: nat, n: nat, k: nat, j: nat)
    requires n == 0 && b < Pow2(n) && j <= k
    ensures Shr(Shl(Shl(a, n) + b, k), j) == Shl(a, k - j)
  {
    ShlShl(a, k - j, j);
    SumParts(Shl(a, k - j), j, 0);
  }

  /** The bits of a stored byte above the binary point are its preemption priority; when the point
      lies among the unimplemented bits, they are that priority scaled. */
  lemma GroupPriority(g: U32, p: nat, f: Fields)
    requires PriorityBits(p) && g <= 7 && InRange(f, g, p)
    ensures Shr(Stored(g, p, f), g + 1) == if g + p <= 7 then Shl(f.preempt, 7 - p - g) else f.preempt
  {
    hide And, Or, Shl, Shr, Low, Pow2;
    var n := SubWidth(g, p);
    Widths(g, p);
    StoredIsSum(g, p, f, n);
    if g + p <= 7 {
      ScaledBits(f.preempt, f.sub, n, 8 - p, g + 1);
    } else {
      UpperBits(f.preempt, f.sub, n, 8 - p);
    }
  }

  /** One interrupt preempts another exactly when its preemption priority is smaller. */
  lemma PreemptionOrder(g: U32, p: nat, f: Fields, f': Fields)
    requires PriorityBits(p) && g <= 7 && InRange(f, g, p) && InRange(f', g, p)
    ensures Preempts(Stored(g, p, f), Stored(g, p, f'), g) <==> f.preempt < f'.preempt
  {
    hide And, Or;
    GroupPriority(g, p, f);
    GroupPriority(g, p, f');
    if g + p <= 7 {
      SumOrder(f.preempt, 0, f'.preempt, 0, 7 - p - g);
    }
  }

  /** A coarser grouping only removes preemptions: whoever preempts under `g'` does so under every
      smaller `g`, and is never itself preempted there by the other. */
  lemma RegroupingCoarsens(b: U8, b': U8, g: nat, g': nat)
    requires g <= g' && Preempts(b, b', g')
    ensures Preempts(b, b', g) && b < b'
    ensures forall h: nat :: !Preempts(b', b, h)
  {
    ShrShr(b, g + 1, g' - g);
    ShrShr(b', g + 1, g' - g);
    if Shr(b', g + 1) <= Shr(b, g + 1) {
      ShrMonotone(Shr(b', g + 1), Shr(b, g + 1), g' - g);
    }
    if b' <= b {
      ShrMonotone(b', b, g' + 1);
    }
    forall h: nat
      ensures !Preempts(b', b, h)
    {
      ShrMonotone(b, b', h + 1);
    }
  }
}
