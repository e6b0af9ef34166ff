/**
 The registers of clock bring-up as values: what a load, a store and a read-modify-write do to them when
 the hardware owns the ready flags and the switch status.
*/
module ClockRegisters {
  import opened Bits
  import opened Clock

  const CR_HSION: U32 := 0x0000_0001
  const CR_HSEON: U32 := 0x0001_0000
  const CR_HSERDY: U32 := 0x0002_0000
  const CR_PLLON: U32 := 0x0100_0000
  const CR_PLLRDY: U32 := 0x0200_0000
  const CFGR_SW: U32 := 0x0000_0003
  const CFGR_SW_PLL: U32 := 0x0000_0002
  const CFGR_SWS: U32 := 0x0000_000C
  const CFGR_SWS_PLL: U32 := 0x0000_0008
  const CFGR_HPRE: U32 := 0x0000_00F0
  const CFGR_PPRE1: U32 := 0x0000_1C00
  const CFGR_PPRE2: U32 := 0x0000_E000
  const CFGR_HPRE_DIV1: U32 := 0x0000_0000
  const CFGR_PPRE1_DIV4: U32 := 0x0000_1400
  const CFGR_PPRE2_DIV2: U32 := 0x0000_8000
  const PLLCFGR_RESET: U32 := 0x2400_3010

  /** FLASH->ACR: prefetch, instruction cache, data cache, five wait states. */
  const ACR_PRFTEN: U32 := 0x0000_0100
  const ACR_ICEN: U32 := 0x0000_0200
  const ACR_DCEN: U32 := 0x0000_0400
  const ACR_LATENCY_5WS: U32 := 0x0000_0005

  /** The bits that only the hardware writes. */
  const CR_READ_ONLY: U32 := 0x2A02_FF02
  const CFGR_READ_ONLY: U32 := 0x0000_000C

  /** The word that `SetSysClock` stores, which is the packing of M = 8, N = 336, P = 2, Q = 7, HSE. */
  const PLLCFGR_F40: U32 := 0x0740_5408

  lemma PllConfiguration()
    ensures PllWord(F40_PLL) == PLLCFGR_F40 && PllM(PLLCFGR_F40) == 8
  {
    hide PllWord, PllM;
    AfterBringUp(PLLCFGR_F40, Oscillators(0, 0));
  }

  // ---------- Flags and fields ----------

  predicate HseOn(cr: U32) { Bit(cr, 16) }
  predicate HseReady(cr: U32) { Bit(cr, 17) }
  predicate PllOn(cr: U32) { Bit(cr, 24) }
  predicate PllReady(cr: U32) { Bit(cr, 25) }

  /** The switch status: 0 HSI, 1 HSE, 2 PLL. */
  function Sws(cfgr: U32): nat { Field(cfgr, 2, 2) }

  /** All of CFGR but the switch status: the clock switch, the three prescalers, the bits between them, and
      the upper half (clock outputs and the RTC prescaler). */
  datatype Prescalers = Prescalers(sw: nat, hpre: nat, gap: nat, ppre1: nat, ppre2: nat, upper: nat)

  function Fields(cfgr: U32): Prescalers {
    Prescalers(Field(cfgr, 0, 2), Field(cfgr, 4, 4), Field(cfgr, 8, 2), Field(cfgr, 10, 3), Field(cfgr, 13, 3),
               Field(cfgr, 16, 16))
  }

  const RESET_FIELDS := Prescalers(0, 0, 0, 0, 0, 0)

  /** PLL selected, HCLK = SYSCLK, PCLK1 = HCLK / 4, PCLK2 = HCLK / 2. */
  const F40_FIELDS := Prescalers(2, 0, 0, 5, 4, 0)

  /** The clock registers after one access, and what the program has seen: an HSE ready flag since it
      last switched HSE on, a PLL ready flag since it last configured and switched on the PLL. */
  datatype Snapshot = Snapshot(cr: U32, cfgr: U32, pllcfgr: U32, acr: U32, hseSeen: bool, pllSeen: bool)

  /** Both oscillators on and seen ready, the PLL configured as intended, flash at five wait states. */
  ghost predicate Armed(s: Snapshot) {
    && s.hseSeen && s.pllSeen && HseOn(s.cr) && PllOn(s.cr)
    && s.pllcfgr == PLLCFGR_F40 && Field(s.acr, 0, 4) == 5
  }

  /** If the PLL is selected as the system clock, everything it needs is in place. */
  ghost predicate SwitchSafe(s: Snapshot) {
    Fields(s.cfgr).sw == 2 ==> Armed(s) && Fields(s.cfgr) == F40_FIELDS
  }

  // ---------- Loads and stores ----------

  /** After a load of CR that the hardware answers with `a`. */
  function SeenCr(s: Snapshot, a: U32): Snapshot {
    var v := Merged(s.cr, a, CR_READ_ONLY);
    s.(cr := v,
       hseSeen := s.hseSeen || (HseOn(v) && HseReady(v)),
       pllSeen := s.pllSeen || (PllOn(v) && PllReady(v)))
  }

  /** After a store to CR. Switching an oscillator off makes what was seen of it out of date. */
  function WithCr(s: Snapshot, v: U32): Snapshot {
    s.(cr := Merged(v, s.cr, CR_READ_ONLY),
       hseSeen := s.hseSeen && HseOn(v),
       pllSeen := s.pllSeen && PllOn(v))
  }

  function SeenCfgr(s: Snapshot, a: U32): Snapshot {
    s.(cfgr := Merged(s.cfgr, a, CFGR_READ_ONLY))
  }

  function WithCfgr(s: Snapshot, v: U32): Snapshot {
    s.(cfgr := Merged(v, s.cfgr, CFGR_READ_ONLY))
  }

  /** A new PLL configuration makes what was seen of the PLL out of date. */
  function WithPllcfgr(s: Snapshot, w: U32): Snapshot {
    s.(pllcfgr := w, pllSeen := false)
  }

  function Or32(x: U32, y: U32): U32 {
    Pow2Word();
    OrBound(x, y, 32);
    Or(x, y)
  }

  function And32(x: U32, y: U32): U32 {
    AndBound(x, y);
    And(x, y)
  }

  /** `RCC->CR |= mask` and its like: a load, then a store. */
  function OrCr(s: Snapshot, a: U32, mask: U32): Snapshot {
    WithCr(SeenCr(s, a), Or32(SeenCr(s, a).cr, mask))
  }

  function AndCr(s: Snapshot, a: U32, mask: U32): Snapshot {
    WithCr(SeenCr(s, a), And32(SeenCr(s, a).cr, mask))
  }

  function OrCfgr(s: Snapshot, a: U32, mask: U32): Snapshot {
    WithCfgr(SeenCfgr(s, a), Or32(SeenCfgr(s, a).cfgr, mask))
  }

  function AndCfgr(s: Snapshot, a: U32, mask: U32): Snapshot {
    WithCfgr(SeenCfgr(s, a), And32(SeenCfgr(s, a).cfgr, mask))
  }

  // ---------- CR ----------

  lemma BitIsField(x: nat, i: nat)
    ensures Bit(x, i) <==> Field(x, i, 1) == 1
    ensures Field(x, i, 1) <= 1 && Ones(1) == 1
  {
    var y := Shr(x, i);
    assert Low(y / 2, 0) == 0;
    assert Low(y, 1) == 2 * Low(y / 2, 0) + y % 2;
  }

  lemma BitArith(x: nat, i: nat, d: nat)
    requires d == Pow2(i)
    ensures Bit(x, i) <==> x / d % 2 == 1
  {
    ShrIsDiv(x, i);
  }

  lemma Pow2Flags()
    ensures Pow2(16) == 0x1_0000 && Pow2(17) == 0x2_0000 && Pow2(24) == 0x100_0000 && Pow2(25) == 0x200_0000
  {
    Pow2Small();
    Pow2Add(8, 8);
    Pow2Add(16, 1);
    Pow2Add(16, 8);
    Pow2Add(24, 1);
  }

  /** Switches are the program's, ready flags are the hardware's. */
  lemma MergedCr(c: U32, a: U32)
    ensures var v := Merged(c, a, CR_READ_ONLY);
            HseOn(v) == HseOn(c) && PllOn(v) == PllOn(c) && HseReady(v) == HseReady(a) && PllReady(v) == PllReady(a)
  {
    hide Merged, Field, Bit;
    var v := Merged(c, a, CR_READ_ONLY);
    ReadOnlyFlags();
    MergedFlag(c, a, 16);
    MergedFlag(c, a, 17);
    MergedFlag(c, a, 24);
    MergedFlag(c, a, 25);
  }

  lemma ReadOnlyFlags()
    ensures !Bit(CR_READ_ONLY, 16) && Bit(CR_READ_ONLY, 17) && !Bit(CR_READ_ONLY, 24) && Bit(CR_READ_ONLY, 25)
  {
    hide Bit;
    Pow2Flags();
    BitArith(CR_READ_ONLY, 16, 0x1_0000);
    BitArith(CR_READ_ONLY, 17, 0x2_0000);
    BitArith(CR_READ_ONLY, 24, 0x100_0000);
    BitArith(CR_READ_ONLY, 25, 0x200_0000);
  }

  lemma MergedFlag(c: U32, a: U32, i: nat)
    requires i < 32
    ensures Bit(Merged(c, a, CR_READ_ONLY), i) == if Bit(CR_READ_ONLY, i) then Bit(a, i) else Bit(c, i)
  {
    hide Merged, Field, Bit;
    FieldMerged(c, a, CR_READ_ONLY, i, 1);
    BitIsField(CR_READ_ONLY, i);
    BitIsField(Merged(c, a, CR_READ_ONLY), i);
    BitIsField(a, i);
    BitIsField(c, i);
  }

  /** `(RCC->CR & flag) == 0` tests the flag. */
  lemma FlagTest(v: U32)
    ensures And(v, CR_HSERDY) == 0 <==> !HseReady(v)
    ensures And(v, CR_PLLRDY) == 0 <==> !PllReady(v)
  {
    hide And, Bit;
    Pow2Flags();
    BitTest(v, 17, 0x2_0000);
    BitTest(v, 25, 0x200_0000);
  }

  lemma BitTest(v: U32, i: nat, d: nat)
    requires d == Pow2(i)
    ensures And(v, d) == 0 <==> !Bit(v, i)
  {
  }

  /** What a load of CR tells the program. */
  lemma SeenCrEffect(s: Snapshot, a: U32)
    ensures var s' := SeenCr(s, a);
            && s' == s.(cr := s'.cr, hseSeen := s'.hseSeen, pllSeen := s'.pllSeen)
            && HseReady(s'.cr) == HseReady(a) && PllReady(s'.cr) == PllReady(a)
            && HseOn(s'.cr) == HseOn(s.cr) && PllOn(s'.cr) == PllOn(s.cr)
            && s'.hseSeen == (s.hseSeen || (HseOn(s.cr) && HseReady(a)))
            && s'.pllSeen == (s.pllSeen || (PllOn(s.cr) && PllReady(a)))
  {
    hide Merged, Bit;
    MergedCr(s.cr, a);
  }

  lemma OrCrEffect(s: Snapshot, a: U32, mask: U32)
    ensures var s' := OrCr(s, a, mask);
            && s' == s.(cr := s'.cr, hseSeen := s'.hseSeen, pllSeen := s'.pllSeen)
            && HseOn(s'.cr) == (HseOn(s.cr) || HseOn(mask)) && PllOn(s'.cr) == (PllOn(s.cr) || PllOn(mask))
            && s'.hseSeen == ((s.hseSeen || (HseOn(s.cr) && HseReady(a))) && HseOn(s'.cr))
            && s'.pllSeen == ((s.pllSeen || (PllOn(s.cr) && PllReady(a))) && PllOn(s'.cr))
  {
    hide Merged, Bit, Or, SeenCr;
    SeenCrEffect(s, a);
    var t := SeenCr(s, a);
    BitOps(t.cr, mask, 16);
    BitOps(t.cr, mask, 24);
    MergedCr(Or32(t.cr, mask), t.cr);
  }

  /** A store to CR that touches neither selection nor flash nor PLL word. */
  lemma AndCrEffect(s: Snapshot, a: U32, mask: U32)
    ensures var s' := AndCr(s, a, mask);
            && s' == s.(cr := s'.cr, hseSeen := s'.hseSeen, pllSeen := s'.pllSeen)
            && HseOn(s'.cr) == (HseOn(s.cr) && HseOn(mask)) && PllOn(s'.cr) == (PllOn(s.cr) && PllOn(mask))
            && (s'.hseSeen ==> HseOn(s'.cr)) && (s'.pllSeen ==> PllOn(s'.cr))
  {
    hide Merged, Bit, And, SeenCr;
    SeenCrEffect(s, a);
    var t := SeenCr(s, a);
    BitOps(t.cr, mask, 16);
    BitOps(t.cr, mask, 24);
    MergedCr(And32(t.cr, mask), t.cr);
  }

  // ---------- All the bits of CR that the program writes ----------

  /** The positions of the writable bits that are set. */
  ghost function Switches(cr: U32): (b: set<int>)
    ensures forall i :: i in b <==> 0 <= i < 32 && !Bit(CR_READ_ONLY, i) && Bit(cr, i)
  {
    set i: int | 0 <= i < 32 && !Bit(CR_READ_ONLY, i) && Bit(cr, i)
  }

  lemma MergedSwitches(c: U32, a: U32)
    ensures Switches(Merged(c, a, CR_READ_ONLY)) == Switches(c)
  {
    hide Merged, Bit;
    forall i: nat | i < 32
      ensures Bit(Merged(c, a, CR_READ_ONLY), i) == if Bit(CR_READ_ONLY, i) then Bit(a, i) else Bit(c, i)
    {
      MergedFlag(c, a, i);
    }
  }

  lemma OrSwitches(s: Snapshot, a: U32, mask: U32)
    ensures Switches(SeenCr(s, a).cr) == Switches(s.cr)
    ensures Switches(OrCr(s, a, mask).cr) == Switches(s.cr) + Switches(mask)
  {
    hide Merged, Bit, Or;
    var v := SeenCr(s, a).cr;
    MergedSwitches(s.cr, a);
    MergedSwitches(Or32(v, mask), v);
    forall i: nat | i < 32
      ensures Bit(Or32(v, mask), i) == (Bit(v, i) || Bit(mask, i))
    {
      BitOps(v, mask, i);
    }
  }

  lemma AndSwitches(s: Snapshot, a: U32, mask: U32)
    ensures Switches(AndCr(s, a, mask).cr) == Switches(s.cr) * Switches(mask)
  {
    hide Merged, Bit, And;
    var v := SeenCr(s, a).cr;
    MergedSwitches(s.cr, a);
    MergedSwitches(And32(v, mask), v);
    forall i: nat | i < 32
      ensures Bit(And32(v, mask), i) == (Bit(v, i) && Bit(mask, i))
    {
      BitOps(v, mask, i);
    }
  }

  /** The masks that are applied to CR. */
  lemma SwitchMasks()
    ensures Switches(CR_HSION) == {0} && Switches(CR_HSEON) == {16} && Switches(CR_PLLON) == {24}
  {
    hide Bit;
    Pow2Small();
    Pow2Flags();
    ReadOnlyFlags();
    BitArith(CR_READ_ONLY, 0, 1);
    OneSwitch(CR_HSION, 0);
    OneSwitch(CR_HSEON, 16);
    OneSwitch(CR_PLLON, 24);
  }

  lemma OneSwitch(mask: U32, k: nat)
    requires mask == Pow2(k) && k < 32 && !Bit(CR_READ_ONLY, k)
    ensures Switches(mask) == {k}
  {
    hide Bit;
    forall i: nat
      ensures Bit(mask, i) <==> i == k
    {
      BitPow2(k, i);
    }
  }

  /** Clearing by the two AND masks. */
  lemma ClearMasks(b: set<int>, cr: U32)
    requires b == Switches(cr)
    ensures b * Switches(0xFEF6_FFFF) == b - {16, 19, 24}
    ensures b * Switches(0xFFFB_FFFF) == b - {18}
  {
    hide Bit;
    forall i: nat | i < 32
      ensures Bit(0xFEF6_FFFF, i) <==> i !in {16, 19, 24}
      ensures Bit(0xFFFB_FFFF, i) <==> i != 18
    {
      ClearedBits(i);
    }
  }

  /** HSEON, CSSON and PLLON, and HSEBYP. */
  lemma ClearedWords()
    ensures Or(Or(Pow2(16), Pow2(19)), Pow2(24)) == 0x109_0000 && Pow2(18) == 0x4_0000
    ensures Not32(0x109_0000) == 0xFEF6_FFFF && Not32(0x4_0000) == 0xFFFB_FFFF
  {
    hide Or, Shl;
    Pow2Small();
    Pow2Flags();
    Pow2Add(16, 2);
    Pow2Add(16, 3);
    OrAbove(0x1_0000, 1, 19, 0x8_0000);
    OrAbove(0x9_0000, 1, 24, 0x100_0000);
    ShlIsTimes(1, 19);
    ShlIsTimes(1, 24);
  }

  lemma ClearedBits(i: nat)
    requires i < 32
    ensures Bit(0xFEF6_FFFF, i) <==> i != 16 && i != 19 && i != 24
    ensures Bit(0xFFFB_FFFF, i) <==> i != 18
  {
    hide Bit, Or, Pow2, Not32;
    ClearedWords();
    BitOps(Pow2(16), Pow2(19), i);
    BitOps(Or(Pow2(16), Pow2(19)), Pow2(24), i);
    BitPow2(16, i);
    BitPow2(18, i);
    BitPow2(19, i);
    BitPow2(24, i);
    BitNot(0x109_0000, i);
    BitNot(0x4_0000, i);
  }

  // ---------- CFGR ----------

  lemma ReadOnlyFields()
    ensures Fields(CFGR_READ_ONLY) == RESET_FIELDS && Sws(CFGR_READ_ONLY) == Ones(2)
  {
    hide Field, Fields, Sws;
    FieldsAre(CFGR_READ_ONLY);
  }

  lemma FieldsAre(x: U32)
    ensures Fields(x) == Prescalers(x % 4, x / 0x10 % 0x10, x / 0x100 % 4, x / 0x400 % 8, x / 0x2000 % 8,
                                    x / 0x1_0000 % 0x1_0000)
    ensures Sws(x) == x / 4 % 4
    ensures Ones(2) == 3 && Ones(3) == 7 && Ones(4) == 15 && Ones(16) == 0xFFFF
  {
    hide Field;
    Pow2Small();
    Pow2Word();
    Pow2Add(8, 2);
    Pow2Add(8, 5);
    FieldIsDivMod(x, 8, 2, 0x100, 4);
    FieldIsDivMod(x, 16, 16, 0x1_0000, 0x1_0000);
    FieldIsDivMod(x, 0, 2, 1, 4);
    FieldIsDivMod(x, 2, 2, 4, 4);
    FieldIsDivMod(x, 4, 4, 0x10, 0x10);
    FieldIsDivMod(x, 10, 3, 0x400, 8);
    FieldIsDivMod(x, 13, 3, 0x2000, 8);
  }

  /** CFGR from its fields and the switch status. */
  lemma CfgrIs(x: U32, f: Prescalers)
    requires Fields(x) == f
    ensures x == f.sw + 4 * Sws(x) + 0x10 * f.hpre + 0x100 * f.gap + 0x400 * f.ppre1 + 0x2000 * f.ppre2
                 + 0x1_0000 * f.upper
    ensures Sws(x) == x / 4 % 4 && f.sw == x % 4
  {
    hide Fields, Sws;
    FieldsAre(x);
    Peel(x, 1, 4, 4);
    Peel(x, 4, 4, 0x10);
    Peel(x, 0x10, 0x10, 0x100);
    Peel(x, 0x100, 4, 0x400);
    Peel(x, 0x400, 8, 0x2000);
    Peel(x, 0x2000, 8, 0x1_0000);
    Peel(x, 0x1_0000, 0x1_0000, 0x1_0000_0000);
  }

  /** The flags of CR, in numbers. */
  lemma FlagsAre(x: U32)
    ensures HseOn(x) <==> x / 0x1_0000 % 2 == 1
    ensures HseReady(x) <==> x / 0x2_0000 % 2 == 1
    ensures PllOn(x) <==> x / 0x100_0000 % 2 == 1
    ensures PllReady(x) <==> x / 0x200_0000 % 2 == 1
  {
    hide Bit;
    Pow2Flags();
    BitArith(x, 16, 0x1_0000);
    BitArith(x, 17, 0x2_0000);
    BitArith(x, 24, 0x100_0000);
    BitArith(x, 25, 0x200_0000);
  }

  /** What a safe state means for the registers, in numbers. */
  lemma SafeInNumbers(s: Snapshot)
    requires SwitchSafe(s) && s.cfgr % 4 == 2
    ensures s.hseSeen && s.pllSeen && s.cr / 0x1_0000 % 2 == 1 && s.cr / 0x100_0000 % 2 == 1
    ensures s.pllcfgr == 0x0740_5408 && s.acr % 0x10 == 5 && s.cfgr == 0x9402 + 4 * (s.cfgr / 4 % 4)
  {
    hide Fields, Sws, Bit, Field;
    CfgrIs(s.cfgr, Fields(s.cfgr));
    FlagsAre(s.cr);
    Pow2Small();
    FieldIsDivMod(s.acr, 0, 4, 1, 0x10);
  }

  lemma MergedCfgr(c: U32, a: U32)
    ensures Fields(Merged(c, a, CFGR_READ_ONLY)) == Fields(c)
    ensures Sws(Merged(c, a, CFGR_READ_ONLY)) == Sws(a)
  {
    hide Merged, Field;
    ReadOnlyFields();
    FieldMerged(c, a, CFGR_READ_ONLY, 0, 2);
    FieldMerged(c, a, CFGR_READ_ONLY, 2, 2);
    FieldMerged(c, a, CFGR_READ_ONLY, 4, 4);
    FieldMerged(c, a, CFGR_READ_ONLY, 10, 3);
    FieldMerged(c, a, CFGR_READ_ONLY, 13, 3);
    FieldMerged(c, a, CFGR_READ_ONLY, 8, 2);
    FieldMerged(c, a, CFGR_READ_ONLY, 16, 16);
  }

  /** `RCC->CFGR & SWS` compared with the three status words. */
  lemma StatusTest(v: U32)
    ensures And(v, CFGR_SWS) == 4 * Sws(v) && Sws(v) <= 3
  {
    hide And, Field;
    Pow2Small();
    ShlIsTimes(3, 2);
    AndField(v, 2, 2);
    ShlIsTimes(Field(v, 2, 2), 2);
    FieldsAre(v);
  }

  /** The index into the prescaler table. */
  lemma HpreIndex(v: U32)
    ensures Shr(And(v, CFGR_HPRE), 4) == Fields(v).hpre < 16
  {
    hide And, Field;
    Pow2Small();
    ShlIsTimes(0xF, 4);
    MaskAt(v, CFGR_HPRE, 4, 4);
    FieldsAre(v);
  }

  lemma PpreIndices(v: U32)
    ensures Shr(And(v, CFGR_PPRE1), 10) == Fields(v).ppre1 < 8
    ensures Shr(And(v, CFGR_PPRE2), 13) == Fields(v).ppre2 < 8
  {
    hide And, Field;
    Pow2Small();
    Pow2Add(8, 2);
    Pow2Add(8, 5);
    ShlIsTimes(7, 10);
    ShlIsTimes(7, 13);
    MaskAt(v, CFGR_PPRE1, 10, 3);
    MaskAt(v, CFGR_PPRE2, 13, 3);
    FieldsAre(v);
  }

  function FieldsOr(f: Prescalers, g: Prescalers): Prescalers {
    Prescalers(Or(f.sw, g.sw), Or(f.hpre, g.hpre), Or(f.gap, g.gap), Or(f.ppre1, g.ppre1), Or(f.ppre2, g.ppre2),
               Or(f.upper, g.upper))
  }

  function FieldsAnd(f: Prescalers, g: Prescalers): Prescalers {
    Prescalers(And(f.sw, g.sw), And(f.hpre, g.hpre), And(f.gap, g.gap), And(f.ppre1, g.ppre1),
               And(f.ppre2, g.ppre2), And(f.upper, g.upper))
  }

  lemma SeenCfgrEffect(s: Snapshot, a: U32)
    ensures var s' := SeenCfgr(s, a);
            s' == s.(cfgr := s'.cfgr) && Fields(s'.cfgr) == Fields(s.cfgr) && Sws(s'.cfgr) == Sws(a)
  {
    hide Merged, Fields, Sws;
    MergedCfgr(s.cfgr, a);
  }

  lemma OrCfgrEffect(s: Snapshot, a: U32, mask: U32)
    ensures var s' := OrCfgr(s, a, mask);
            s' == s.(cfgr := s'.cfgr) && Fields(s'.cfgr) == FieldsOr(Fields(s.cfgr), Fields(mask))
  {
    hide Merged, Field, Or;
    var v := SeenCfgr(s, a).cfgr;
    MergedCfgr(s.cfgr, a);
    FieldOps(v, mask, 0, 2);
    FieldOps(v, mask, 4, 4);
    FieldOps(v, mask, 10, 3);
    FieldOps(v, mask, 13, 3);
    FieldOps(v, mask, 8, 2);
    FieldOps(v, mask, 16, 16);
    MergedCfgr(Or32(v, mask), v);
  }

  lemma AndCfgrEffect(s: Snapshot, a: U32, mask: U32)
    ensures var s' := AndCfgr(s, a, mask);
            s' == s.(cfgr := s'.cfgr) && Fields(s'.cfgr) == FieldsAnd(Fields(s.cfgr), Fields(mask))
  {
    hide Merged, Field, And;
    var v := SeenCfgr(s, a).cfgr;
    MergedCfgr(s.cfgr, a);
    FieldOps(v, mask, 0, 2);
    FieldOps(v, mask, 4, 4);
    FieldOps(v, mask, 10, 3);
    FieldOps(v, mask, 13, 3);
    FieldOps(v, mask, 8, 2);
    FieldOps(v, mask, 16, 16);
    MergedCfgr(And32(v, mask), v);
  }

  lemma LoadCrKeepsSafe(s: Snapshot, a: U32)
    ensures SwitchSafe(s) ==> SwitchSafe(SeenCr(s, a))
  {
    hide Bit, SeenCr, Fields;
    SeenCrEffect(s, a);
  }

  lemma LoadCfgrKeepsSafe(s: Snapshot, a: U32)
    ensures SwitchSafe(s) ==> SwitchSafe(SeenCfgr(s, a))
  {
    hide Merged, Bit, Fields;
    MergedCfgr(s.cfgr, a);
  }

  // ---------- The steps of bring-up ----------

  lemma ResetMasks()
    ensures !HseOn(0xFEF6_FFFF) && !PllOn(0xFEF6_FFFF) && HseOn(CR_HSEON) && !PllOn(CR_HSEON)
    ensures !HseOn(CR_PLLON) && PllOn(CR_PLLON)
  {
    hide Bit;
    Pow2Flags();
    BitArith(0xFEF6_FFFF, 16, 0x1_0000);
    BitArith(0xFEF6_FFFF, 24, 0x100_0000);
    BitArith(CR_HSEON, 16, 0x1_0000);
    BitArith(CR_HSEON, 24, 0x100_0000);
    BitArith(CR_PLLON, 16, 0x1_0000);
    BitArith(CR_PLLON, 24, 0x100_0000);
  }

  lemma ClearedCfgr(s: Snapshot)
    ensures Fields(WithCfgr(s, 0).cfgr) == RESET_FIELDS
  {
    hide Merged, Fields, Sws;
    MergedCfgr(0, s.cfgr);
    FieldsAre(0);
  }

  lemma MaskFields()
    ensures Fields(CFGR_HPRE_DIV1) == Prescalers(0, 0, 0, 0, 0, 0)
    ensures Fields(CFGR_PPRE2_DIV2) == Prescalers(0, 0, 0, 0, 4, 0)
    ensures Fields(CFGR_PPRE1_DIV4) == Prescalers(0, 0, 0, 5, 0, 0)
    ensures Fields(CFGR_SW_PLL) == Prescalers(2, 0, 0, 0, 0, 0)
  {
    hide Fields, Sws, Field, Pow2, Ones;
    FieldsAre(CFGR_HPRE_DIV1);
    FieldsAre(CFGR_PPRE2_DIV2);
    FieldsAre(CFGR_PPRE1_DIV4);
    FieldsAre(CFGR_SW_PLL);
  }

  /** The four masks applied to CFGR, on its fields. */
  lemma CfgrMasks(f: Prescalers)
    ensures FieldsOr(f, Fields(CFGR_HPRE_DIV1)) == f
    ensures f.ppre2 == 0 ==> FieldsOr(f, Fields(CFGR_PPRE2_DIV2)) == f.(ppre2 := 4)
    ensures f.ppre1 == 0 ==> FieldsOr(f, Fields(CFGR_PPRE1_DIV4)) == f.(ppre1 := 5)
    ensures f.sw == 0 ==> FieldsOr(f, Fields(CFGR_SW_PLL)) == f.(sw := 2)
  {
    hide Or, Fields;
    MaskFields();
    OrZero(f.sw);
    OrZero(f.hpre);
    OrZero(f.ppre1);
    OrZero(f.ppre2);
    OrZero(f.gap);
    OrZero(f.upper);
    OrZero(4);
    OrZero(5);
    OrZero(2);
  }

  lemma FieldAndOnes(x: nat, pos: nat, width: nat)
    ensures And(Field(x, pos, width), Ones(width)) == Field(x, pos, width)
  {
    OnesAndZeros(Shr(x, pos), width);
  }

  lemma ClearMask()
    ensures Fields(Not32(CFGR_SW)) == Prescalers(0, Ones(4), Ones(2), Ones(3), Ones(3), Ones(16))
  {
    hide Fields, Field, Pow2;
    FieldsAre(Not32(CFGR_SW));
  }

  /** Clearing SW leaves the prescalers. */
  lemma ClearSw(cfgr: U32)
    ensures FieldsAnd(Fields(cfgr), Fields(Not32(CFGR_SW))) == Fields(cfgr).(sw := 0)
  {
    hide And, Field, Not32, Ones;
    ClearMask();
    AndZero(Field(cfgr, 0, 2));
    FieldAndOnes(cfgr, 4, 4);
    FieldAndOnes(cfgr, 10, 3);
    FieldAndOnes(cfgr, 13, 3);
    FieldAndOnes(cfgr, 8, 2);
    FieldAndOnes(cfgr, 16, 16);
  }

  lemma FlashWord()
    ensures Or(Or(Or(ACR_PRFTEN, ACR_ICEN), ACR_DCEN), ACR_LATENCY_5WS) == 0x705
    ensures Field(0x705, 0, 4) == 5
  {
    hide Or, Shl, Field;
    Pow2Small();
    Pow2Add(8, 1);
    Pow2Add(8, 2);
    ShlIsTimes(1, 9);
    ShlIsTimes(1, 10);
    ShlIsTimes(7, 8);
    OrAbove(0x100, 1, 9, 0x200);
    OrAbove(0x300, 1, 10, 0x400);
    OrDisjoint(7, 8, 5);
    FieldIsDivMod(0x705, 0, 4, 1, 0x10);
  }
}
