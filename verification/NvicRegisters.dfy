/**
 The registers behind the controller, as values: eight enable words, the priority bytes of the
 interrupts and of the system handlers, and AIRCR. `View` reads them as a controller state; the
 lemmas say what one register write does to that view.
*/
module NvicRegisters {
  import opened Bits
  import opened Priority
  import C = Controller

  const ENABLE_WORDS: int := 8
  const IP_BYTES: int := 240
  const SHP_BYTES: int := 12

  // ---------- Enable words ----------

  predicate EnabledIn(words: seq<U32>, irq: int)
    requires |words| == ENABLE_WORDS && 0 <= irq < 256
  {
    Bit(words[irq / 32], irq % 32)
  }

  /** The word index and the bit that the driver computes for an interrupt number. */
  function WordIndex(irq: nat): nat {
    Shr(irq, 5)
  }

  function BitMask(irq: nat): U32 {
    MaskIsPow2(irq);
    Shl(1, And(irq, 0x1F))
  }

  lemma MaskIsPow2(irq: nat)
    ensures Shl(1, And(irq, 0x1F)) == Pow2(irq % 32) < 0x1_0000_0000
  {
    var k := And(irq, 0x1F);
    Pow2Small();
    AndIsMod(irq, 0x1F, 5);
    ShlIsTimes(1, k);
    Pow2Monotone(k, 31);
    Pow2Word();
    assert Pow2(32) == 2 * Pow2(31);
  }

  lemma WordIndexIs(irq: nat)
    ensures WordIndex(irq) == irq / 32
  {
    ShrIsDiv(irq, 5);
    assert Pow2(5) == 32;
  }

  /** Hardware: a write to ISER sets the bits written as 1; a write to ICER clears them. */
  function AfterSetEnable(word: U32, w: U32): U32 {
    Pow2Word();
    OrBound(word, w, 32);
    Or(word, w)
  }

  function AfterClearEnable(word: U32, w: U32): U32 {
    AndBound(word, Not32(w));
    And(word, Not32(w))
  }

  lemma SetOneBit(words: seq<U32>, irq: int, i: int)
    requires |words| == ENABLE_WORDS && 0 <= irq < 256 && 0 <= i < 256
    ensures var k := irq / 32;
            EnabledIn(words[k := AfterSetEnable(words[k], BitMask(irq))], i) <==> i == irq || EnabledIn(words, i)
  {
    MaskIsPow2(irq);
    BitOps(words[irq / 32], BitMask(irq), i % 32);
    BitPow2(irq % 32, i % 32);
  }

  lemma ClearOneBit(words: seq<U32>, irq: int, i: int)
    requires |words| == ENABLE_WORDS && 0 <= irq < 256 && 0 <= i < 256
    ensures var k := irq / 32;
            EnabledIn(words[k := AfterClearEnable(words[k], BitMask(irq))], i) <==> i != irq && EnabledIn(words, i)
  {
    MaskIsPow2(irq);
    BitOps(words[irq / 32], Not32(BitMask(irq)), i % 32);
    BitNot(BitMask(irq), i % 32);
    BitPow2(irq % 32, i % 32);
  }

  // ---------- Priority bytes ----------

  /** The index `((uint32_t)IRQn & 0xF) - 4` into the system handler bytes. */
  function SystemIndex(irq: int): U32
    requires irq < 0
  {
    Wrap32(And(Wrap32(irq), 0xF) - 4)
  }

  /** It is an index, and then irq + 12, exactly for the handlers whose priority can be set; the
      non-maskable interrupt (-14), for one, wraps to a huge index. */
  lemma SystemIndexIs(irq: int)
    requires -16 <= irq < 0
    ensures SystemIndex(irq) < SHP_BYTES <==> C.LOWEST_IRQ <= irq
    ensures C.LOWEST_IRQ <= irq ==> SystemIndex(irq) == irq + 12
  {
    hide And;
    Pow2Small();
    AndIsMod(Wrap32(irq), 0xF, 4);
  }

  function ByteAt(ip: seq<U8>, shp: seq<U8>, irq: int): U8
    requires |ip| == IP_BYTES && |shp| == SHP_BYTES && C.LOWEST_IRQ <= irq < C.IRQ_COUNT
  {
    if irq < 0 then (SystemIndexIs(irq); shp[SystemIndex(irq)]) else ip[irq]
  }

  /** Unimplemented priority bits read as zero. */
  ghost predicate Aligned(bytes: seq<U8>, p: nat)
    requires PriorityBits(p)
  {
    forall i | 0 <= i < |bytes| :: bytes[i] == Shl(ByteValue(bytes[i], p), 8 - p)
  }

  lemma StoredIsAligned(priority: U32, p: nat)
    requires PriorityBits(p)
    ensures var b := PriorityByte(priority, p); b == Shl(ByteValue(b, p), 8 - p)
  {
    ByteIsShifted(priority, p);
    ReadBack(priority, p);
  }

  // ---------- AIRCR ----------

  const AIRCR_KEY_READ: U32 := 0xFA05_0000

  function GroupField(aircr: U32): (g: U32)
    ensures g <= 7
  {
    LowBound(Shr(aircr, 8), 3);
    Pow2Small();
    Field(aircr, 8, 3)
  }

  /** Hardware: a word without the key 0x5FA in its upper half is ignored. A keyed word is stored,
      except that ENDIANNESS (bit 15) is read-only and the request bits 2:0 read as zero. */
  function AfterAircrWrite(aircr: U32, w: U32): U32 {
    if Field(w, 16, 16) == 0x5FA then
      AIRCR_KEY_READ + aircr / 0x8000 % 2 * 0x8000 + w / 8 % 0x1000 * 8
    else
      aircr
  }

  /** A word that carries the key and requests neither a reset nor a clearing of active state. */
  predicate KeyedAndQuiet(w: nat) {
    Field(w, 16, 16) == 0x5FA && Field(w, 0, 3) == 0
  }

  /** The word that `NVIC_SetPriorityGrouping` writes. */
  function GroupingWord(aircr: U32, g: U32): nat {
    Or(Or(And(aircr, Not32(0xFFFF_0700)), Shl(0x5FA, 16)), Shl(And(g, 7), 8))
  }

  /** The old word contributes bits outside the key and the grouping field, the other two parts one
      field each. */
  lemma GroupingWordFields(aircr: U32, g: U32, pos: nat, width: nat)
    ensures Field(GroupingWord(aircr, g), pos, width)
         == Or(Or(And(Field(aircr, pos, width), Field(0xF8FF, pos, width)), Field(Shl(0x5FA, 16), pos, width)),
               Field(Shl(And(g, 7), 8), pos, width))
  {
    hide And, Or, Shl;
    var a, b, c := And(aircr, Not32(0xFFFF_0700)), Shl(0x5FA, 16), Shl(And(g, 7), 8);
    FieldOps(Or(a, b), c, pos, width);
    FieldOps(a, b, pos, width);
    FieldOps(aircr, 0xF8FF, pos, width);
  }

  lemma GroupingWordBound(aircr: U32, g: U32)
    ensures GroupingWord(aircr, g) < 0x1_0000_0000
    ensures Shl(0x5FA, 16) == 0x5FA_0000 && Shl(And(g, 7), 8) == g % 8 * 0x100
  {
    hide And, Or;
    Pow2Small();
    Pow2Word();
    AndIsMod(g, 7, 3);
    ShlIsTimes(0x5FA, 16);
    ShlIsTimes(And(g, 7), 8);
    AndBound(aircr, 0xF8FF);
    OrBound(And(aircr, 0xF8FF), 0x5FA_0000, 32);
    OrBound(Or(And(aircr, 0xF8FF), 0x5FA_0000), g % 8 * 0x100, 32);
  }

  lemma KeyPart(aircr: U32, g: U32)
    ensures Field(GroupingWord(aircr, g), 16, 16) == 0x5FA
  {
    hide And, Or, Field, GroupingWord;
    Pow2Word();
    AndZero(Field(aircr, 16, 16));
    OrZero(0x5FA);
    PartsOf(aircr, g, 16, 16, 0x1_0000, 0x1_0000);
  }

  lemma GroupPart(aircr: U32, g: U32)
    ensures Field(GroupingWord(aircr, g), 8, 3) == g % 8
  {
    hide And, Or, Field, GroupingWord;
    Pow2Small();
    AndZero(Field(aircr, 8, 3));
    OrZero(0);
    OrZero(g % 8);
    PartsOf(aircr, g, 8, 3, 0x100, 8);
  }

  lemma RequestPart(aircr: U32, g: U32)
    requires Field(aircr, 0, 3) == 0
    ensures Field(GroupingWord(aircr, g), 0, 3) == 0
  {
    hide And, Or, Field, GroupingWord;
    Pow2Small();
    AndZero(7);
    OrZero(0);
    PartsOf(aircr, g, 0, 3, 1, 8);
    DivUnique(g % 8 * 0x100, 8, g % 8 * 0x20, 0);
  }

  /** The word carries the key and the wanted grouping, and requests nothing else. */
  lemma GroupingWordParts(aircr: U32, g: U32)
    requires Field(aircr, 0, 3) == 0
    ensures KeyedAndQuiet(GroupingWord(aircr, g)) && Field(GroupingWord(aircr, g), 8, 3) == g % 8
  {
    hide Field, GroupingWord;
    KeyPart(aircr, g);
    GroupPart(aircr, g);
    RequestPart(aircr, g);
  }

  lemma PartsOf(aircr: U32, g: U32, pos: nat, width: nat, d: nat, m: nat)
    requires d == Pow2(pos) && m == Pow2(width)
    ensures Field(GroupingWord(aircr, g), pos, width)
         == Or(Or(And(Field(aircr, pos, width), 0xF8FF / d % m), 0x5FA_0000 / d % m), g % 8 * 0x100 / d % m)
  {
    hide And, Or, Field, GroupingWord;
    GroupingWordBound(aircr, g);
    GroupingWordFields(aircr, g, pos, width);
    FieldIsDivMod(0xF8FF, pos, width, d, m);
    FieldIsDivMod(0x5FA_0000, pos, width, d, m);
    FieldIsDivMod(g % 8 * 0x100, pos, width, d, m);
  }

  /** The word that `NVIC_PriorityGroupConfig` writes. */
  function ConfigWord(word: U32): nat {
    Or(0x05FA_0000, word)
  }

  lemma ConfigWordIsSum(word: U32)
    requires word < 0x1_0000
    ensures ConfigWord(word) == 0x05FA_0000 + word
  {
    hide Or;
    Pow2Word();
    ShlIsTimes(0x5FA, 16);
    OrDisjoint(0x5FA, 16, word);
  }

  lemma ConfigWordParts(word: U32)
    requires word < 0x800 && word % 0x100 == 0
    ensures KeyedAndQuiet(ConfigWord(word)) && Field(ConfigWord(word), 8, 3) == word / 0x100
  {
    hide ConfigWord, Field, Pow2;
    var w := ConfigWord(word);
    ConfigWordIsSum(word);
    Pow2Small();
    Pow2Word();
    FieldIsDivMod(w, 16, 16, 0x1_0000, 0x1_0000);
    FieldIsDivMod(w, 8, 3, 0x100, 8);
    FieldIsDivMod(w, 0, 3, 1, 8);
    DivUnique(w, 0x100, 0x5_FA00 + word / 0x100, 0);
  }

  /** Bits 8 to 10 of a word are bits 5 to 7 of what lies above its three lowest bits. */
  lemma BitsAboveRequests(w: nat)
    ensures w / 0x100 % 8 == w / 8 % 0x1000 / 32 % 8
  {
    var q, f := w / 8 / 0x1000, w / 8 % 0x1000;
    DivUnique(w, 0x100, 128 * q + f / 32, 8 * (f % 32) + w % 8);
    DivUnique(128 * q + f / 32, 8, 16 * q + f / 32 / 8, f / 32 % 8);
  }

  lemma KeptBits(a: nat, w: nat, b: nat)
    requires a == AIRCR_KEY_READ + b * 0x8000 + w / 8 % 0x1000 * 8
    ensures a / 0x100 % 8 == w / 0x100 % 8 && a % 8 == 0
  {
    var f := w / 8 % 0x1000;
    BitsAboveRequests(w);
    BitsAboveRequests(a);
    DivUnique(a, 8, 0x1F40_A000 + b * 0x1000 + f, 0);
    DivUnique(0x1F40_A000 + b * 0x1000 + f, 0x1000, 0x1_F40A + b, f);
  }

  /** A keyed word takes effect on the grouping field and leaves no request pending. */
  lemma AircrAfterWrite(aircr: U32, w: U32)
    requires KeyedAndQuiet(w)
    ensures Field(AfterAircrWrite(aircr, w), 8, 3) == Field(w, 8, 3)
    ensures Field(AfterAircrWrite(aircr, w), 0, 3) == 0
  {
    hide Field;
    Pow2Small();
    var a := AfterAircrWrite(aircr, w);
    FieldIsDivMod(a, 8, 3, 0x100, 8);
    FieldIsDivMod(a, 0, 3, 1, 8);
    FieldIsDivMod(w, 8, 3, 0x100, 8);
    KeptBits(a, w, aircr / 0x8000 % 2);
  }

  // ---------- The byte that NVIC_Init computes ----------

  /** The grouping field of AIRCR, inverted: 7 minus the grouping. */
  function InvertedGroup(aircr: U32): U8 {
    Wrap8(Shr(Wrap32(0x700 - And(aircr, 0x700)), 8))
  }

  /** The shift of the preemption value, as an 8-bit difference. */
  function PreemptShift(aircr: U32): U8 {
    Wrap8(0x4 - InvertedGroup(aircr))
  }

  lemma InitShifts(aircr: U32)
    ensures InvertedGroup(aircr) == 7 - GroupField(aircr)
    ensures PreemptShift(aircr) == if GroupField(aircr) >= 3 then GroupField(aircr) - 3 else GroupField(aircr) + 253
  {
    hide And, Field, Shr;
    var g := GroupField(aircr);
    Pow2Small();
    AndField(aircr, 8, 3);
    ShlIsTimes(7, 8);
    ShlIsTimes(g, 8);
    ShrIsDiv(0x700 - 0x100 * g, 8);
  }

  /** The shift of a promoted 8-bit value is defined in C, that is below 32, exactly for groupings from
      3 up; then both shift counts lie in 0 to 4. */
  lemma ShiftDefined(aircr: U32)
    ensures PreemptShift(aircr) < 32 <==> GroupField(aircr) >= 3
    ensures GroupField(aircr) >= 3 ==> PreemptShift(aircr) <= 4 && InvertedGroup(aircr) <= 4
  {
    InitShifts(aircr);
  }

  function InitByte(aircr: U32, preempt: U8, sub: U8): U8 {
    var merged := Or(Wrap8(Shl(preempt, PreemptShift(aircr))), And(sub, Shr(0x0F, InvertedGroup(aircr))));
    Wrap8(Shl(merged, 0x04))
  }

  /** The values that pass through 8-bit locals fit them. */
  lemma InitLocals(aircr: U32, preempt: U8, sub: U8)
    ensures Shr(0x0F, InvertedGroup(aircr)) <= 0x0F
    ensures Or(Wrap8(Shl(preempt, PreemptShift(aircr))), And(sub, Shr(0x0F, InvertedGroup(aircr)))) < 0x100
  {
    hide Shr, Shl, And, Or, InvertedGroup, PreemptShift;
    ShrBound(0x0F, InvertedGroup(aircr));
    AndBound(sub, Shr(0x0F, InvertedGroup(aircr)));
    Pow2Small();
    OrBound(Wrap8(Shl(preempt, PreemptShift(aircr))), And(sub, Shr(0x0F, InvertedGroup(aircr))), 8);
  }

  lemma LowIsWrap8(x: nat)
    ensures Low(x, 8) == Wrap8(x)
  {
    LowIsMod(x, 8);
    Pow2Small();
  }

  lemma OnesShr(a: nat)
    requires a <= 4
    ensures Shr(0x0F, 4 - a) == Ones(a)
  {
  }

  /** Truncating the preemption value to 8 bits and shifting it out of the byte does what masking it to
      its width does. */
  lemma TruncationMasks(preempt: nat, sub: nat, a: nat)
    requires a <= 4
    ensures Wrap8(Shl(Or(Wrap8(Shl(preempt, a)), And(sub, Ones(a))), 4)) == Shl(Pack(preempt, sub, 4 - a, a), 4)
  {
    hide And, Or, Shl, Low, Shr;
    var x := Or(Low(Shl(preempt, a), 8), Low(sub, a));
    LowIsWrap8(Shl(preempt, a));
    AndOnes(sub, a);
    AndOnes(preempt, 4 - a);
    LowOr(Low(Shl(preempt, a), 8), Low(sub, a), 4);
    LowOfLow(Shl(preempt, a), 4, 8);
    LowShl(preempt, 4 - a, a);
    LowBound(sub, a);
    Pow2Monotone(a, 4);
    LowBound(Low(sub, a), 4);
    LowShl(x, 4, 4);
    LowIsWrap8(Shl(x, 4));
  }

  /** `NVIC_Init` stores the byte that `NVIC_SetPriority` stores for `NVIC_EncodePriority`. */
  lemma InitByteIsEncoded(aircr: U32, preempt: U8, sub: U8)
    requires GroupField(aircr) >= 3
    ensures InitByte(aircr, preempt, sub) == PriorityByte(Encode(GroupField(aircr), 4, preempt, sub), 4)
  {
    hide And, Or, Shl, Low, Shr, Field, PreemptShift, InvertedGroup;
    var g := GroupField(aircr);
    InitShifts(aircr);
    OnesShr(g - 3);
    Widths(g, 4);
    TruncationMasks(preempt, sub, g - 3);
    EncodeFits(g, 4, preempt, sub);
    LowBound(Encode(g, 4, preempt, sub), 4);
    ByteIsShifted(Encode(g, 4, preempt, sub), 4);
  }

  // ---------- The view ----------

  datatype Registers = Registers(enable: seq<U32>, ip: seq<U8>, shp: seq<U8>, aircr: U32)

  ghost predicate Sized(r: Registers) {
    |r.enable| == ENABLE_WORDS && |r.ip| == IP_BYTES && |r.shp| == SHP_BYTES
  }

  ghost predicate Consistent(r: Registers, p: nat)
    requires PriorityBits(p)
  {
    Sized(r) && Aligned(r.ip, p) && Aligned(r.shp, p) && Field(r.aircr, 0, 3) == 0
  }

  ghost function View(r: Registers, p: nat): (s: C.State)
    requires PriorityBits(p) && Sized(r)
    ensures s.group == GroupField(r.aircr)
  {
    C.State(set i: int | 0 <= i < 256 && EnabledIn(r.enable, i),
            map i: int | C.LOWEST_IRQ <= i < C.IRQ_COUNT :: ByteValue(ByteAt(r.ip, r.shp, i), p),
            GroupField(r.aircr))
  }

  lemma ViewWellFormed(r: Registers, p: nat)
    requires PriorityBits(p) && Consistent(r, p)
    ensures C.WellFormed(View(r, p), p)
  {
    forall i: int | C.LOWEST_IRQ <= i < C.IRQ_COUNT
      ensures ByteValue(ByteAt(r.ip, r.shp, i), p) < Pow2(p)
    {
      Pow2Small();
      ShrNot(ByteAt(r.ip, r.shp, i), 8, 8 - p);
    }
  }

  /** The register file after ISER, or ICER, has been written with the bit of `irq`. */
  function SetEnable(r: Registers, irq: int): (r': Registers)
    requires |r.enable| == ENABLE_WORDS && 0 <= irq < C.IRQ_COUNT
    ensures r' == r.(enable := r'.enable) && |r'.enable| == ENABLE_WORDS
  {
    WordIndexIs(irq);
    var k := WordIndex(irq);
    r.(enable := r.enable[k := AfterSetEnable(r.enable[k], BitMask(irq))])
  }

  function ClearEnable(r: Registers, irq: int): (r': Registers)
    requires |r.enable| == ENABLE_WORDS && 0 <= irq < C.IRQ_COUNT
    ensures r' == r.(enable := r'.enable) && |r'.enable| == ENABLE_WORDS
  {
    WordIndexIs(irq);
    var k := WordIndex(irq);
    r.(enable := r.enable[k := AfterClearEnable(r.enable[k], BitMask(irq))])
  }

  lemma ViewEnable(r: Registers, p: nat, irq: int)
    requires PriorityBits(p) && Sized(r) && 0 <= irq < C.IRQ_COUNT
    ensures View(SetEnable(r, irq), p) == C.Step(View(r, p), p, C.EnableIRQ(irq))
  {
    hide BitMask;
    WordIndexIs(irq);
    var r' := SetEnable(r, irq);
    forall i: int | 0 <= i < 256
      ensures EnabledIn(r'.enable, i) <==> i == irq || EnabledIn(r.enable, i)
    {
      SetOneBit(r.enable, irq, i);
    }
    assert View(r', p).enabled == View(r, p).enabled + {irq};
  }

  lemma ViewDisable(r: Registers, p: nat, irq: int)
    requires PriorityBits(p) && Sized(r) && 0 <= irq < C.IRQ_COUNT
    ensures View(ClearEnable(r, irq), p) == C.Step(View(r, p), p, C.DisableIRQ(irq))
  {
    hide BitMask;
    WordIndexIs(irq);
    var r' := ClearEnable(r, irq);
    forall i: int | 0 <= i < 256
      ensures EnabledIn(r'.enable, i) <==> i != irq && EnabledIn(r.enable, i)
    {
      ClearOneBit(r.enable, irq, i);
    }
    assert View(r', p).enabled == View(r, p).enabled - {irq};
  }

  /** The register file after a priority byte has been stored for `irq`. */
  function StoreByte(r: Registers, irq: int, b: U8): (r': Registers)
    requires |r.ip| == IP_BYTES && |r.shp| == SHP_BYTES && C.LOWEST_IRQ <= irq < C.IRQ_COUNT
    ensures r' == r.(ip := r'.ip, shp := r'.shp) && |r'.ip| == IP_BYTES && |r'.shp| == SHP_BYTES
  {
    if irq < 0 then (SystemIndexIs(irq); r.(shp := r.shp[SystemIndex(irq) := b]))
    else r.(ip := r.ip[irq := b])
  }

  lemma ViewPriority(r: Registers, p: nat, irq: int, priority: U32)
    requires PriorityBits(p) && Consistent(r, p) && C.LOWEST_IRQ <= irq < C.IRQ_COUNT
    ensures var r' := StoreByte(r, irq, PriorityByte(priority, p));
            Consistent(r', p) && View(r', p) == C.Step(View(r, p), p, C.SetPriority(irq, priority))
  {
    hide PriorityByte, ByteValue;
    ReadBack(priority, p);
    StoredIsAligned(priority, p);
    forall i: int | C.LOWEST_IRQ <= i < 0 {
      SystemIndexIs(i);
    }
  }

  /** Two consistent register files with the same view hold the same words and bytes. */
  lemma ViewDetermines(r: Registers, r': Registers, p: nat)
    requires PriorityBits(p) && Consistent(r, p) && Consistent(r', p) && View(r, p) == View(r', p)
    ensures r.enable == r'.enable && r.ip == r'.ip && r.shp == r'.shp
  {
    var v, v' := View(r, p), View(r', p);
    forall k | 0 <= k < ENABLE_WORDS
      ensures r.enable[k] == r'.enable[k]
    {
      forall i | 0 <= i < 32
        ensures Bit(r.enable[k], i) <==> Bit(r'.enable[k], i)
      {
        assert 32 * k + i in v.enabled <==> 32 * k + i in v'.enabled;
      }
      Pow2Word();
      BitsDetermine(r.enable[k], r'.enable[k], 32);
    }
    forall i | 0 <= i < IP_BYTES
      ensures r.ip[i] == r'.ip[i]
    {
      assert v.priority[i] == v'.priority[i];
    }
    forall i | 0 <= i < SHP_BYTES
      ensures r.shp[i] == r'.shp[i]
    {
      assert v.priority[i - 12] == v'.priority[i - 12];
      SystemIndexIs(i - 12);
    }
  }

  lemma ResetAircr()
    ensures Field(AIRCR_KEY_READ, 8, 3) == 0 && Field(AIRCR_KEY_READ, 0, 3) == 0
  {
    hide Field;
    Pow2Small();
    FieldIsDivMod(AIRCR_KEY_READ, 8, 3, 0x100, 8);
    FieldIsDivMod(AIRCR_KEY_READ, 0, 3, 1, 8);
  }

  lemma ResetByte(p: nat)
    requires PriorityBits(p)
    ensures ByteValue(0, p) == 0 && Shl(0, 8 - p) == 0
  {
    SumParts(0, 8 - p, 0);
    ShlIsTimes(0, 8 - p);
  }

  lemma ResetView(r: Registers, p: nat)
    requires PriorityBits(p) && Sized(r) && r.aircr == AIRCR_KEY_READ
    requires forall k | 0 <= k < ENABLE_WORDS :: r.enable[k] == 0
    requires forall k | 0 <= k < IP_BYTES :: r.ip[k] == 0
    requires forall k | 0 <= k < SHP_BYTES :: r.shp[k] == 0
    ensures Consistent(r, p) && View(r, p) == C.RESET
  {
    hide Field, Shl, Shr, ByteValue;
    ResetAircr();
    ResetByte(p);
    forall i: int | 0 <= i < 256
      ensures !EnabledIn(r.enable, i)
    {
      ShrZero(i % 32);
    }
    assert View(r, p).enabled == {};
    forall i: int | C.LOWEST_IRQ <= i < C.IRQ_COUNT
      ensures ByteAt(r.ip, r.shp, i) == 0
    {
      if i < 0 {
        SystemIndexIs(i);
      }
    }
  }

  // ---------- The same in numbers ----------

  lemma GroupFieldIs(aircr: U32)
    ensures GroupField(aircr) == aircr / 0x100 % 8
  {
    hide Field;
    Pow2Small();
    FieldIsDivMod(aircr, 8, 3, 0x100, 8);
  }

  lemma KeyedAndQuietIs(w: nat)
    ensures KeyedAndQuiet(w) <==> w / 0x1_0000 % 0x1_0000 == 0x5FA && w % 8 == 0
  {
    hide Field;
    Pow2Small();
    Pow2Word();
    FieldIsDivMod(w, 16, 16, 0x1_0000, 0x1_0000);
    FieldIsDivMod(w, 0, 3, 1, 8);
  }

  /** What the view shows of the registers. */
  lemma ViewIs(r: Registers, p: nat, irq: int)
    requires PriorityBits(p) && Sized(r)
    ensures irq in View(r, p).enabled <==> 0 <= irq < 256 && Bit(r.enable[irq / 32], irq % 32)
    ensures irq in View(r, p).priority <==> -12 <= irq < 240
    ensures 0 <= irq < 240 ==> View(r, p).priority[irq] == r.ip[irq] / Pow2(8 - p)
    ensures -12 <= irq < 0 ==> View(r, p).priority[irq] == r.shp[irq + 12] / Pow2(8 - p)
    ensures View(r, p).group == r.aircr / 0x100 % 8
  {
    hide Bit, GroupField, ByteValue, Pow2;
    GroupFieldIs(r.aircr);
    if 0 <= irq < 240 {
      ByteValueIs(r.ip[irq], p);
    }
    if -12 <= irq < 0 {
      SystemIndexIs(irq);
      ByteValueIs(r.shp[irq + 12], p);
    }
  }

  /** Every enable bit after a write of ISER. */
  lemma SetEnableBits(r: Registers, irq: int)
    requires |r.enable| == ENABLE_WORDS && 0 <= irq < C.IRQ_COUNT
    ensures forall i | 0 <= i < 256 ::
              Bit(SetEnable(r, irq).enable[i / 32], i % 32) <==> i == irq || Bit(r.enable[i / 32], i % 32)
  {
    hide BitMask, Bit;
    WordIndexIs(irq);
    forall i: int | 0 <= i < 256
      ensures Bit(SetEnable(r, irq).enable[i / 32], i % 32) <==> i == irq || Bit(r.enable[i / 32], i % 32)
    {
      SetOneBit(r.enable, irq, i);
    }
  }

  /** And after a write of ICER. */
  lemma ClearEnableBits(r: Registers, irq: int)
    requires |r.enable| == ENABLE_WORDS && 0 <= irq < C.IRQ_COUNT
    ensures forall i | 0 <= i < 256 ::
              Bit(ClearEnable(r, irq).enable[i / 32], i % 32) <==> i != irq && Bit(r.enable[i / 32], i % 32)
  {
    hide BitMask, Bit;
    WordIndexIs(irq);
    forall i: int | 0 <= i < 256
      ensures Bit(ClearEnable(r, irq).enable[i / 32], i % 32) <==> i != irq && Bit(r.enable[i / 32], i % 32)
    {
      ClearOneBit(r.enable, irq, i);
    }
  }

  lemma InitByteIs(aircr: U32, preempt: U8, sub: U8, g: nat)
    requires g == aircr / 0x100 % 8 && g >= 3
    ensures InitByte(aircr, preempt, sub)
         == (preempt % Pow2(7 - g) * Pow2(g - 3) + sub % Pow2(g - 3)) * 0x10
  {
    hide InitByte, GroupField, Encode, PriorityByte, Pow2;
    GroupFieldIs(aircr);
    InitByteIsEncoded(aircr, preempt, sub);
    EncodeIs(g, 4, preempt, sub, 7 - g);
    EncodeFitsFour(g, preempt, sub);
    PriorityByteIs(Encode(g, 4, preempt, sub), 4);
    Pow2Small();
  }

  lemma EncodeFitsFour(g: U32, preempt: U32, sub: U32)
    ensures Encode(g, 4, preempt, sub) < 0x10
  {
    hide Pack, PreemptWidth, SubWidth;
    Pow2Small();
    EncodeFits(g, 4, preempt, sub);
  }

  /** Storing the priority byte and setting the enable bit make one `NVIC_Init` step. */
  lemma ViewInit(r: Registers, channel: U8, preempt: U8, sub: U8)
    requires Consistent(r, 4) && C.Allowed(GroupField(r.aircr), 4, C.Init(channel, preempt, sub, true))
    ensures var r' := SetEnable(StoreByte(r, channel, InitByte(r.aircr, preempt, sub)), channel);
            Consistent(r', 4) && View(r', 4) == C.Step(View(r, 4), 4, C.Init(channel, preempt, sub, true))
  {
    hide Encode, PriorityByte, InitByte, StoreByte, SetEnable, GroupField, Aligned, View, C.Step;
    var e := Encode(GroupField(r.aircr), 4, preempt, sub);
    InitByteIsEncoded(r.aircr, preempt, sub);
    ViewPriority(r, 4, channel, e);
    ViewEnable(StoreByte(r, channel, PriorityByte(e, 4)), 4, channel);
    C.InitIsTwoCalls(View(r, 4), 4, channel, preempt, sub);
  }
}
