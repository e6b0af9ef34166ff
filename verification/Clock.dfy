/**
 The clock words and the clock arithmetic: how the PLL factors are packed into RCC->PLLCFGR and read
 back, and how the core frequency follows from them by 32-bit integer divisions and a table shift.
*/
module Clock {
  import opened Bits
  import opened Divisors

  // ---------- RCC->PLLCFGR ----------

  const SRC_HSE: U32 := 0x0040_0000
  const SRC_HSI: U32 := 0

  /** The PLL factors: VCO = source / m * n, SYSCLK = VCO / p; `q` divides for USB. */
  datatype Pll = Pll(m: nat, n: nat, p: nat, q: nat, fromHse: bool)

  ghost predicate InRange(f: Pll) {
    f.m < 64 && f.n < 512 && (f.p == 2 || f.p == 4 || f.p == 6 || f.p == 8) && f.q < 16
  }

  /** The word `SetSysClock` builds. */
  function PllWord(f: Pll): nat
    requires f.p >= 2
  {
    assert Shr(f.p, 1) >= 1;
    Or(Or(Or(Or(f.m, Shl(f.n, 6)), Shl(Shr(f.p, 1) - 1, 16)), if f.fromHse then SRC_HSE else SRC_HSI),
       Shl(f.q, 24))
  }

  /** The fields `SystemCoreClockUpdate` reads. */
  function PllM(w: U32): nat { And(w, 0x3F) }
  function PllN(w: U32): nat { Shr(And(w, 0x7FC0), 6) }
  function PllP(w: U32): nat { (Shr(And(w, 0x3_0000), 16) + 1) * 2 }
  function PllFromHse(w: U32): bool { Shr(And(w, SRC_HSE), 22) != 0 }

  function Factors(w: U32): Pll {
    Pll(PllM(w), PllN(w), PllP(w), Field(w, 24, 4), PllFromHse(w))
  }

  lemma OrAbove(y: nat, x: nat, k: nat, d: nat)
    requires d == Pow2(k) && y < d
    ensures Or(y, Shl(x, k)) == y + x * d
  {
    OrCommutes(y, Shl(x, k));
    OrDisjoint(x, k, y);
    ShlIsTimes(x, k);
  }

  lemma Pow2Fields()
    ensures Pow2(15) == 0x8000 && Pow2(16) == 0x1_0000 && Pow2(18) == 0x4_0000 && Pow2(22) == 0x40_0000
    ensures Pow2(23) == 0x80_0000 && Pow2(24) == 0x100_0000 && Pow2(28) == 0x1000_0000
    ensures Pow2(9) == 0x200
  {
    Pow2Small();
    Pow2Add(8, 7);
    Pow2Add(8, 8);
    Pow2Add(16, 2);
    Pow2Add(16, 6);
    Pow2Add(16, 7);
    Pow2Add(16, 8);
    Pow2Add(24, 4);
  }

  lemma PllWordIsSum(f: Pll)
    requires InRange(f)
    ensures PllWord(f) == f.m + f.n * 0x40 + (f.p / 2 - 1) * 0x1_0000
                          + (if f.fromHse then 0x40_0000 else 0) + f.q * 0x100_0000
                       < 0x1_0000_0000
  {
    hide Or, Shl, Shr;
    Pow2Small();
    Pow2Fields();
    ShrIsDiv(f.p, 1);
    var a := f.m + f.n * 0x40;
    OrAbove(f.m, f.n, 6, 0x40);
    var b := a + (f.p / 2 - 1) * 0x1_0000;
    OrAbove(a, f.p / 2 - 1, 16, 0x1_0000);
    ShlIsTimes(1, 22);
    ShlIsTimes(0, 22);
    OrAbove(b, if f.fromHse then 1 else 0, 22, 0x40_0000);
    OrAbove(b + (if f.fromHse then 0x40_0000 else 0), f.q, 24, 0x100_0000);
  }

  lemma FactorsAreFields(w: U32)
    ensures PllM(w) == w % 0x40
    ensures PllN(w) == w / 0x40 % 0x200
    ensures PllP(w) == (w / 0x1_0000 % 4 + 1) * 2
    ensures PllFromHse(w) <==> w / 0x40_0000 % 2 == 1
    ensures Field(w, 24, 4) == w / 0x100_0000 % 0x10
  {
    hide And, Shr, Field;
    Pow2Small();
    Pow2Fields();
    AndIsMod(w, 0x3F, 6);
    ShlIsTimes(Ones(9), 6);
    MaskAt(w, 0x7FC0, 6, 9);
    FieldIsDivMod(w, 6, 9, 0x40, 0x200);
    ShlIsTimes(Ones(2), 16);
    MaskAt(w, 0x3_0000, 16, 2);
    FieldIsDivMod(w, 16, 2, 0x1_0000, 4);
    ShlIsTimes(Ones(1), 22);
    MaskAt(w, SRC_HSE, 22, 1);
    FieldIsDivMod(w, 22, 1, 0x40_0000, 2);
    FieldIsDivMod(w, 24, 4, 0x100_0000, 0x10);
  }

  lemma MaskAt(w: nat, mask: nat, pos: nat, width: nat)
    requires mask == Shl(Ones(width), pos)
    ensures Shr(And(w, mask), pos) == Field(w, pos, width)
  {
    SumParts(Ones(width), pos, 0);
    MaskedField(w, mask, pos, width);
  }

  lemma SumFields(w: nat, m: nat, n: nat, h: nat, s: nat, q: nat)
    requires m < 0x40 && n < 0x200 && h < 4 && s < 2 && q < 0x10
    requires w == m + n * 0x40 + h * 0x1_0000 + s * 0x40_0000 + q * 0x100_0000
    ensures w % 0x40 == m && w / 0x40 % 0x200 == n && w / 0x1_0000 % 4 == h
    ensures w / 0x40_0000 % 2 == s && w / 0x100_0000 % 0x10 == q
  {
    var low := m + n * 0x40;
    DivUnique(w, 0x40, n + 0x400 * h + 0x1_0000 * s + 0x4_0000 * q, m);
    DivUnique(n + 0x400 * h + 0x1_0000 * s + 0x4_0000 * q, 0x200, 2 * h + 0x80 * s + 0x200 * q, n);
    DivUnique(w, 0x1_0000, h + 0x40 * s + 0x100 * q, low);
    DivUnique(h + 0x40 * s + 0x100 * q, 4, 0x10 * s + 0x40 * q, h);
    DivUnique(w, 0x40_0000, s + 4 * q, low + h * 0x1_0000);
    DivUnique(w, 0x100_0000, q, low + h * 0x1_0000 + s * 0x40_0000);
  }

  /** The part of `w` above a divisor, split once more. */
  lemma Peel(w: nat, d: nat, k: nat, dk: nat)
    requires d > 0 && k > 0 && dk == d * k
    ensures dk > 0 && w / d == w / d % k + w / dk * k
  {
    DivDiv(w, d, k);
  }

  lemma FieldSum(w: U32)
    requires w / 0x8000 % 2 == 0 && w / 0x4_0000 % 0x10 == 0 && w / 0x80_0000 % 2 == 0 && w / 0x1000_0000 % 0x10 == 0
    ensures w == w % 0x40 + w / 0x40 % 0x200 * 0x40 + w / 0x1_0000 % 4 * 0x1_0000
                 + w / 0x40_0000 % 2 * 0x40_0000 + w / 0x100_0000 % 0x10 * 0x100_0000
  {
    Peel(w, 0x40, 0x200, 0x8000);
    Peel(w, 0x8000, 2, 0x1_0000);
    Peel(w, 0x1_0000, 4, 0x4_0000);
    Peel(w, 0x4_0000, 0x10, 0x40_0000);
    Peel(w, 0x40_0000, 2, 0x80_0000);
    Peel(w, 0x80_0000, 2, 0x100_0000);
    Peel(w, 0x100_0000, 0x10, 0x1000_0000);
  }

  /** Every set of factors in range is read back from the word it is packed into. */
  lemma FactorsOfWord(f: Pll)
    requires InRange(f)
    ensures PllWord(f) < 0x1_0000_0000 && Factors(PllWord(f)) == f
  {
    hide PllWord, PllM, PllN, PllP, PllFromHse, Field;
    PllWordIsSum(f);
    FactorsAreFields(PllWord(f));
    SumFields(PllWord(f), f.m, f.n, f.p / 2 - 1, if f.fromHse then 1 else 0, f.q);
  }

  /** Every word whose reserved bits are zero is the packing of the factors read from it. */
  lemma WordOfFactors(w: U32)
    requires Field(w, 15, 1) == 0 && Field(w, 18, 4) == 0 && Field(w, 23, 1) == 0 && Field(w, 28, 4) == 0
    ensures InRange(Factors(w)) && PllWord(Factors(w)) == w
  {
    hide PllWord, PllM, PllN, PllP, PllFromHse, Field;
    FactorsAreFields(w);
    ReservedFields(w);
    FieldSum(w);
    PllWordIsSum(Factors(w));
  }

  lemma ReservedFields(w: U32)
    ensures Field(w, 15, 1) == w / 0x8000 % 2 && Field(w, 18, 4) == w / 0x4_0000 % 0x10
    ensures Field(w, 23, 1) == w / 0x80_0000 % 2 && Field(w, 28, 4) == w / 0x1000_0000 % 0x10
  {
    hide Field;
    Pow2Small();
    Pow2Fields();
    FieldIsDivMod(w, 15, 1, 0x8000, 2);
    FieldIsDivMod(w, 18, 4, 0x4_0000, 0x10);
    FieldIsDivMod(w, 23, 1, 0x80_0000, 2);
    FieldIsDivMod(w, 28, 4, 0x1000_0000, 0x10);
  }

  // ---------- From register fields to frequencies ----------

  /** The shift for each value of HPRE, in `SystemCoreClockUpdate` and in `RCC_GetClocksFreq`. */
  const AHB_PRESC_TABLE: seq<nat> := [0, 0, 0, 0, 0, 0, 0, 0, 1, 2, 3, 4, 6, 7, 8, 9]
  const APB_AHB_PRESC_TABLE: seq<nat> := [0, 0, 0, 0, 1, 2, 3, 4, 1, 2, 3, 4, 6, 7, 8, 9]

  /** The constants of the oscillators, in Hz. */
  datatype Oscillators = Oscillators(hse: U32, hsi: U32)

  function PllSource(w: U32, osc: Oscillators): U32 {
    if PllFromHse(w) then osc.hse else osc.hsi
  }

  /** Unsigned division. */
  function Div32(a: U32, b: nat): U32
    requires b > 0
  {
    QuotientBound(a, b);
    a / b
  }

  lemma QuotientBound(a: nat, b: nat)
    requires b > 0
    ensures a / b <= a
  {
    assert a == a / b * b + a % b;
    MulMonotone(1, b, a / b);
  }

  /** The VCO product as it is computed, in 32 bits. */
  function PllVco(source: U32, m: nat, n: nat): U32
    requires m > 0
  {
    Wrap32(source / m * n)
  }

  /** SYSCLK for a switch status (0 HSI, 1 HSE, 2 PLL, 3 not applicable). */
  function SysClk(sws: nat, w: U32, osc: Oscillators): U32
    requires sws == 2 ==> PllM(w) > 0
  {
    if sws == 1 then osc.hse
    else if sws == 2 then
      Div32(PllVco(PllSource(w, osc), PllM(w), PllN(w)), PllP(w))
    else osc.hsi
  }

  function CoreClock(sws: nat, hpre: nat, w: U32, osc: Oscillators): U32
    requires (sws == 2 ==> PllM(w) > 0) && hpre < 16
  {
    ShrBound(SysClk(sws, w, osc), AHB_PRESC_TABLE[hpre]);
    Shr(SysClk(sws, w, osc), AHB_PRESC_TABLE[hpre])
  }

  /** What `RCC_GetClocksFreq` reports. */
  datatype Frequencies = Frequencies(sysclk: U32, hclk: U32, pclk1: U32, pclk2: U32)

  function Divided(clock: U32, prescaler: nat): U32
    requires prescaler < 16
  {
    ShrBound(clock, APB_AHB_PRESC_TABLE[prescaler]);
    Shr(clock, APB_AHB_PRESC_TABLE[prescaler])
  }

  function GetClocksFreq(sws: nat, hpre: nat, ppre1: nat, ppre2: nat, w: U32, osc: Oscillators): Frequencies
    requires (sws == 2 ==> PllM(w) > 0) && hpre < 16 && ppre1 < 8 && ppre2 < 8
  {
    var sysclk := SysClk(sws, w, osc);
    var hclk := Divided(sysclk, hpre);
    Frequencies(sysclk, hclk, Divided(hclk, ppre1), Divided(hclk, ppre2))
  }

  /** The two functions agree on HCLK exactly when HPRE is not one of 4 to 7 (or the clock is 0). Those
      values, like 0 to 3, mean an undivided clock, but `RCC_GetClocksFreq` looks them up in the half of
      its table that serves the APB prescalers, and divides by 2, 4, 8 or 16. */
  lemma HclkAgrees(sws: nat, hpre: nat, ppre1: nat, ppre2: nat, w: U32, osc: Oscillators)
    requires (sws == 2 ==> PllM(w) > 0) && hpre < 16 && ppre1 < 8 && ppre2 < 8
    ensures GetClocksFreq(sws, hpre, ppre1, ppre2, w, osc).hclk == CoreClock(sws, hpre, w, osc)
       <==> !(4 <= hpre <= 7) || SysClk(sws, w, osc) == 0
  {
    hide PllM, SysClk;
    var s := SysClk(sws, w, osc);
    if 4 <= hpre <= 7 {
      ShrBound(s / 2, hpre - 4);
    }
  }

  /** For one: with HPRE 4 on a 16 MHz HSI, 8 MHz and 16 MHz are reported. */
  lemma HclkDiffers(w: U32, osc: Oscillators)
    requires osc.hsi == 16_000_000
    ensures GetClocksFreq(0, 4, 0, 0, w, osc).hclk == 8_000_000
    ensures CoreClock(0, 4, w, osc) == 16_000_000
  {
  }

  // ---------- The prescalers as divisors ----------

  /** What HPRE divides by, as `SystemCoreClockUpdate` has it. */
  function AhbDivisor(hpre: nat): (d: nat)
    requires hpre < 16
    ensures hpre <= 7 ==> d == 1
    ensures (hpre == 8 ==> d == 2) && (hpre == 9 ==> d == 4) && (hpre == 10 ==> d == 8) && (hpre == 11 ==> d == 16)
    ensures (hpre == 12 ==> d == 64) && (hpre == 13 ==> d == 128) && (hpre == 14 ==> d == 256)
    ensures hpre == 15 ==> d == 512
  {
    [1, 1, 1, 1, 1, 1, 1, 1, 2, 4, 8, 16, 64, 128, 256, 512][hpre]
  }

  /** What PPRE1 and PPRE2 divide by. */
  function ApbDivisor(ppre: nat): (d: nat)
    requires ppre < 8
    ensures ppre <= 3 ==> d == 1
    ensures (ppre == 4 ==> d == 2) && (ppre == 5 ==> d == 4) && (ppre == 6 ==> d == 8) && (ppre == 7 ==> d == 16)
  {
    [1, 1, 1, 1, 2, 4, 8, 16][ppre]
  }

  /** What HPRE divides by, as `RCC_GetClocksFreq` has it: for 4 to 7 by what these values mean for PPRE. */
  function RccDivisor(hpre: nat): (d: nat)
    requires hpre < 16
    ensures hpre < 8 ==> d == ApbDivisor(hpre)
    ensures 8 <= hpre ==> d == AhbDivisor(hpre)
  {
    if hpre < 8 then ApbDivisor(hpre) else AhbDivisor(hpre)
  }

  lemma ShiftDivides(x: nat)
    ensures Shr(x, 0) == x && Shr(x, 1) == x / 2 && Shr(x, 2) == x / 4 && Shr(x, 3) == x / 8 && Shr(x, 4) == x / 16
    ensures Shr(x, 6) == x / 64 && Shr(x, 7) == x / 128 && Shr(x, 8) == x / 256 && Shr(x, 9) == x / 512
  {
    hide Shr;
    Pow2Small();
    Pow2Fields();
    ShrIsDiv(x, 0);
    ShrIsDiv(x, 1);
    ShrIsDiv(x, 2);
    ShrIsDiv(x, 3);
    ShrIsDiv(x, 4);
    ShrIsDiv(x, 6);
    ShrIsDiv(x, 7);
    ShrIsDiv(x, 8);
    ShrIsDiv(x, 9);
  }

  lemma TablesDivide(x: U32, k: nat)
    requires k < 16
    ensures Shr(x, AHB_PRESC_TABLE[k]) == x / AhbDivisor(k)
    ensures Divided(x, k) == x / RccDivisor(k)
    ensures k < 8 ==> Divided(x, k) == x / ApbDivisor(k)
  {
    hide Shr;
    ShiftDivides(x);
  }

  /** SYSCLK by status, in numbers. */
  lemma SysClkIs(sws: nat, w: U32, osc: Oscillators)
    requires sws == 2 ==> PllM(w) > 0
    ensures sws == 2 ==> w % 0x40 > 0
    ensures sws == 0 || sws == 3 ==> SysClk(sws, w, osc) == osc.hsi
    ensures sws == 1 ==> SysClk(sws, w, osc) == osc.hse
    ensures sws == 2 ==> (
              SysClk(sws, w, osc)
              == (if w / 0x40_0000 % 2 == 1 then osc.hse else osc.hsi) / (w % 0x40) * (w / 0x40 % 0x200)
                 % 0x1_0000_0000 / ((w / 0x1_0000 % 4 + 1) * 2))
  {
    hide PllM, PllN, PllP, PllFromHse, Field;
    FactorsAreFields(w);
  }

  /** The core clock by status, in numbers. */
  lemma CoreClockIs(sws: nat, hpre: nat, w: U32, osc: Oscillators)
    requires (sws == 2 ==> PllM(w) > 0) && hpre < 16
    ensures sws == 2 ==> w % 0x40 > 0
    ensures sws == 0 || sws == 3 ==> CoreClock(sws, hpre, w, osc) == osc.hsi / AhbDivisor(hpre)
    ensures sws == 1 ==> CoreClock(sws, hpre, w, osc) == osc.hse / AhbDivisor(hpre)
    ensures sws == 2 ==> (
              CoreClock(sws, hpre, w, osc)
              == (if w / 0x40_0000 % 2 == 1 then osc.hse else osc.hsi) / (w % 0x40) * (w / 0x40 % 0x200)
                 % 0x1_0000_0000 / ((w / 0x1_0000 % 4 + 1) * 2) / AhbDivisor(hpre))
  {
    hide SysClk, PllM, Shr, AhbDivisor, Divided;
    SysClkIs(sws, w, osc);
    TablesDivide(SysClk(sws, w, osc), hpre);
  }

  /** The bus clocks are divided from HCLK, and HCLK from SYSCLK. */
  lemma BusDivisors(sws: nat, hpre: nat, ppre1: nat, ppre2: nat, w: U32, osc: Oscillators)
    requires (sws == 2 ==> PllM(w) > 0) && hpre < 16 && ppre1 < 8 && ppre2 < 8
    ensures var f := GetClocksFreq(sws, hpre, ppre1, ppre2, w, osc);
            && f.sysclk == SysClk(sws, w, osc) && f.hclk == f.sysclk / RccDivisor(hpre)
            && f.pclk1 == f.hclk / ApbDivisor(ppre1) && f.pclk2 == f.hclk / ApbDivisor(ppre2)
  {
    hide SysClk, PllM, Shr, AhbDivisor, ApbDivisor, RccDivisor, Divided;
    var sysclk := SysClk(sws, w, osc);
    TablesDivide(sysclk, hpre);
    TablesDivide(Divided(sysclk, hpre), ppre1);
    TablesDivide(Divided(sysclk, hpre), ppre2);
  }

  // ---------- Error bound, monotonicity, overflow ----------

  /** The computed frequency when the product does not overflow. */
  function Computed(source: nat, m: nat, n: nat, p: nat, h: nat): nat
    requires m > 0 && p > 0
  {
    Shr(source / m * n / p, h)
  }

  lemma TwoDigits(x: nat, y: nat, d: nat, p: nat)
    requires x < d && y < p
    ensures x * p + y < p * d
  {
    MulMonotone(x + 1, d, p);
    assert (x + 1) * p == x * p + p;
  }

  lemma NestedQuotient(a: nat, b: nat, y: nat, q: nat, x: nat, p: nat, d: nat)
    requires a == b * p + y && b == q * d + x && x < d && y < p
    ensures a == q * (p * d) + (x * p + y) && x * p + y < p * d
  {
    Distribute(q, d, x, p);
    Gather(d, q, p, 0);
    TwoDigits(x, y, d, p);
  }

  lemma DivDiv(a: nat, p: nat, d: nat)
    requires p > 0 && d > 0
    ensures p * d > 0 && a / p / d == a / (p * d)
  {
    var b, y := a / p, a % p;
    var q, x := b / d, b % d;
    NestedQuotient(a, b, y, q, x, p, d);
    DivUnique(a, p * d, q, x * p + y);
  }

  lemma Distribute(q: nat, m: nat, r: nat, n: nat)
    ensures (q * m + r) * n == m * (q * n) + r * n
  {
  }

  lemma Gather(m: nat, c: nat, d: nat, s: nat)
    ensures m * (c * d + s) == c * (m * d) + m * s
  {
  }

  /** The shortfall of two nested divisions, from their remainders and the largest remainders. */
  lemma Shortfall(source: nat, m: nat, n: nat, d: nat, q: nat, r: nat, c: nat, s: nat, m': nat, d': nat)
    requires source == q * m + r && r <= m'
    requires q * n == c * d + s && s <= d'
    ensures source * n - c * (m * d) == r * n + m * s <= m' * n + m * d'
  {
    Distribute(q, m, r, n);
    Gather(m, c, d, s);
    MulMonotone(r, m', n);
    MulMonotone(s, d', m);
  }

  lemma NestedShortfall(source: nat, m: nat, n: nat, d: nat, m': nat, d': nat)
    requires m > 0 && d > 0 && source % m <= m' && source / m * n % d <= d'
    ensures 0 <= source * n - source / m * n / d * (m * d) <= m' * n + m * d'
    ensures source % m == m' && source / m * n % d == d' ==>
              source * n - source / m * n / d * (m * d) == m' * n + m * d'
  {
    var q := source / m;
    var qn := q * n;
    assert source == q * m + source % m;
    assert qn == qn / d * d + qn % d;
    Shortfall(source, m, n, d, q, source % m, qn / d, qn % d, m', d');
  }

  lemma ComputedIsDiv(source: nat, m: nat, n: nat, p: nat, h: nat)
    requires m > 0 && p > 0
    ensures p * Pow2(h) > 0 && Computed(source, m, n, p, h) == source / m * n / (p * Pow2(h))
  {
    hide Pow2;
    ShrIsDiv(source / m * n / p, h);
    DivDiv(source / m * n, p, Pow2(h));
  }

  /** With d = p * 2^h the computed frequency never exceeds the exact source*n/(m*d), and m*d times what
      it falls short by is at most (m-1)*n + m*(d - gcd(n, d)). */
  lemma ErrorBound(source: nat, m: nat, n: nat, p: nat, h: nat, d: nat)
    requires m > 0 && p > 0 && d == p * Pow2(h)
    ensures 0 <= source * n - Computed(source, m, n, p, h) * (m * d) <= (m - 1) * n + m * (d - Gcd(n, d))
  {
    hide Pow2, Gcd;
    ComputedIsDiv(source, m, n, p, h);
    RemainderBound(source / m, n, d);
    NestedShortfall(source, m, n, d, m - 1, d - Gcd(n, d));
  }

  /** For all factors and every shift some source, less than m*d, falls short by exactly that: no smaller
      bound holds of all sources. */
  lemma ErrorBoundAttained(m: nat, n: nat, p: nat, h: nat, d: nat)
    requires m > 0 && p > 0 && d == p * Pow2(h)
    ensures exists source: nat :: source < m * d
              && source * n - Computed(source, m, n, p, h) * (m * d) == (m - 1) * n + m * (d - Gcd(n, d))
  {
    hide Pow2, Gcd, Computed;
    ComputedIsDiv(0, m, n, p, h);
    var q := RemainderReached(n, d);
    var source := q * m + (m - 1);
    DivUnique(source, m, q, m - 1);
    TwoDigits(q, m - 1, d, m);
    ComputedIsDiv(source, m, n, p, h);
    NestedShortfall(source, m, n, d, m - 1, d - Gcd(n, d));
  }

  /** As frequencies: the computed value is never above the exact one, and falls short of it by less than
      n/(p*2^h) + 1 Hz. `exact` is the rational source*n/(m*d). */
  lemma ErrorInHertz(source: nat, m: nat, n: nat, p: nat, h: nat, d: nat, exact: real)
    requires m > 0 && p > 0 && d == p * Pow2(h)
    requires exact * (m * d) as real == (source * n) as real
    ensures var error := exact - Computed(source, m, n, p, h) as real;
            0.0 <= error && (error - 1.0) * d as real < n as real
  {
    hide Pow2, Computed;
    var c := Computed(source, m, n, p, h);
    ErrorBound(source, m, n, p, h, d);
    ComputedIsDiv(source, m, n, p, h);
    RealError(source * n, c, m, d, n, exact);
  }

  lemma RealProduct(a: nat, b: nat)
    ensures (a * b) as real == a as real * b as real
  {
  }

  lemma RealGap(exact: real, x: nat, c: nat, k: nat)
    requires exact * k as real == x as real
    ensures (exact - c as real) * k as real == (x - c * k) as real
  {
    RealProduct(c, k);
  }

  lemma GapBound(gap: int, m: nat, n: nat, d: nat)
    requires m > 0 && gap <= (m - 1) * n + m * (d - 1)
    ensures gap < m * (n + d)
  {
  }

  lemma RealError(x: nat, c: nat, m: nat, d: nat, n: nat, exact: real)
    requires m > 0 && d > 0 && 0 <= x - c * (m * d) <= (m - 1) * n + m * (d - 1)
    requires exact * (m * d) as real == x as real
    ensures 0.0 <= exact - c as real && (exact - c as real - 1.0) * d as real < n as real
  {
    var gap := x - c * (m * d);
    RealGap(exact, x, c, m * d);
    GapBound(gap, m, n, d);
    RealProduct(m, d);
    RealProduct(m, n + d);
    Cancel(exact - c as real, m as real, d as real, gap as real, n as real);
  }

  lemma Cancel(e: real, m: real, d: real, gap: real, n: real)
    requires m > 0.0 && d > 0.0 && e * (m * d) == gap && 0.0 <= gap < m * (n + d)
    ensures 0.0 <= e && (e - 1.0) * d < n
  {
    assert e * (m * d) == m * (e * d);
    assert (e - 1.0) * d == e * d - d;
  }

  lemma MulDiv(x: nat, k: nat, a: nat)
    requires k > 0 && x * k <= a
    ensures x <= a / k
  {
    var t := x - a / k;
    assert t * k == x * k - a + a % k by {
      assert a == a / k * k + a % k;
    }
  }

  lemma DivMonotone(a: nat, b: nat, k: nat)
    requires a <= b && k > 0
    ensures a / k <= b / k
  {
    assert a == a / k * k + a % k;
    MulDiv(a / k, k, b);
  }

  lemma DivAntitone(a: nat, k: nat, k': nat)
    requires 0 < k <= k'
    ensures a / k' <= a / k
  {
    assert a == a / k' * k' + a % k';
    MulMonotone(k, k', a / k');
    MulDiv(a / k', k, a);
  }

  /** The computed frequency does not fall when n grows, nor rise when m, p or the shift grows. */
  lemma FrequencyMonotone(source: nat, m: nat, n: nat, p: nat, h: nat, m': nat, n': nat, p': nat, h': nat)
    requires 0 < m' <= m && n <= n' && 0 < p' <= p && h' <= h
    ensures Computed(source, m, n, p, h) <= Computed(source, m', n', p', h')
  {
    hide Shr;
    DivAntitone(source, m', m);
    var q, q' := source / m, source / m';
    MulMonotone(q, q', n);
    MulMonotone(n, n', q');
    DivMonotone(q * n, q' * n', p);
    DivAntitone(q' * n', p', p);
    var x, x' := q * n / p, q' * n' / p';
    ShrMonotone(x, x', h);
    ShrShr(x', h', h - h');
    ShrBound(Shr(x', h'), h - h');
  }

  lemma SmallProduct(q: nat, n: nat)
    requires q <= 8_405_024 && n < 512
    ensures q * n < 0x1_0000_0000
  {
  }

  lemma NoWrap(x: nat)
    requires x < 0x1_0000_0000
    ensures Wrap32(x) == x
  {
  }

  lemma Wraps(x: nat)
    requires x >= 0x1_0000_0000
    ensures Wrap32(x) != x
  {
  }

  lemma WrappedProducts(q: nat)
    ensures (forall n | 0 <= n < 512 :: Wrap32(q * n) == q * n) <==> q <= 8_405_024
  {
    hide Wrap32;
    if q <= 8_405_024 {
      forall n | 0 <= n < 512
        ensures Wrap32(q * n) == q * n
      {
        SmallProduct(q, n);
        NoWrap(q * n);
      }
    } else {
      Wraps(q * 511);
    }
  }

  /** The 32-bit product is the true one for every 9-bit n exactly when source/m is at most 8405024. */
  lemma NoOverflow(source: U32, m: nat)
    requires m > 0
    ensures (forall n | 0 <= n < 512 :: PllVco(source, m, n) == source / m * n) <==> source / m <= 8_405_024
  {
    WrappedProducts(source / m);
    assert forall n | 0 <= n < 512 :: PllVco(source, m, n) == Wrap32(source / m * n);
  }

  /** In particular for every source of at most 16 MHz and every m from 2 up. */
  lemma NoOverflowInRange(source: U32, m: nat, n: nat)
    requires source <= 16_000_000 && m >= 2 && n < 512
    ensures PllVco(source, m, n) == source / m * n
  {
    DivAntitone(source, 2, m);
    NoOverflow(source, m);
  }

  lemma Farther(x: nat, y: nat, d: nat)
    requires d > 0 && x >= y + d
    ensures x / d != y / d
  {
    assert x == x / d * d + x % d;
    assert y == y / d * d + y % d;
    MulMonotone(x / d, y / d, d);
  }

  lemma WrapDistance(x: nat)
    ensures x >= 0x1_0000_0000 ==> x >= Wrap32(x) + 0x1_0000_0000
  {
  }

  lemma DividerRange(p: nat, hpre: nat)
    requires 0 < p <= 8 && hpre < 16
    ensures 0 < p * Pow2(AHB_PRESC_TABLE[hpre]) <= 4096
  {
    var h := AHB_PRESC_TABLE[hpre];
    Pow2Fields();
    Pow2Monotone(h, 9);
    MulMonotone(Pow2(h), 512, p);
    MulMonotone(1, Pow2(h), p);
  }

  lemma PllPRange(w: U32)
    ensures 2 <= PllP(w) <= 8
  {
    hide And, Shr, PllP;
    FactorsAreFields(w);
  }

  /** Both frequencies are one quotient, of the product and of the wrapped product. */
  lemma CoreClockOfPll(hpre: nat, w: U32, osc: Oscillators, v: nat, h: nat)
    requires hpre < 16 && h == AHB_PRESC_TABLE[hpre] && PllM(w) > 0 && PllP(w) > 0
    requires v == PllSource(w, osc) / PllM(w) * PllN(w)
    ensures CoreClock(2, hpre, w, osc) == Shr(Wrap32(v) / PllP(w), h)
    ensures Computed(PllSource(w, osc), PllM(w), PllN(w), PllP(w), h) == Shr(v / PllP(w), h)
  {
    hide And, Shr, PllM, PllN, PllP, PllFromHse, Wrap32, PllSource;
  }

  /** The function computes the frequency bounded above exactly when the product does not overflow. */
  lemma CoreClockIsComputed(hpre: nat, w: U32, osc: Oscillators)
    requires hpre < 16 && PllM(w) > 0
    ensures PllP(w) > 0
    ensures CoreClock(2, hpre, w, osc)
         == Computed(PllSource(w, osc), PllM(w), PllN(w), PllP(w), AHB_PRESC_TABLE[hpre])
       <==> PllSource(w, osc) / PllM(w) * PllN(w) < 0x1_0000_0000
  {
    hide And, Shr, PllM, PllN, PllP, PllFromHse, Pow2, Wrap32, PllSource, Field, CoreClock, Computed;
    PllPRange(w);
    var v, h := PllSource(w, osc) / PllM(w) * PllN(w), AHB_PRESC_TABLE[hpre];
    CoreClockOfPll(hpre, w, osc, v, h);
    QuotientsDiffer(v, PllP(w), h, hpre);
  }

  lemma QuotientsDiffer(v: nat, p: nat, h: nat, hpre: nat)
    requires 0 < p <= 8 && hpre < 16 && h == AHB_PRESC_TABLE[hpre]
    ensures Shr(Wrap32(v) / p, h) == Shr(v / p, h) <==> v < 0x1_0000_0000
  {
    hide Shr, Pow2, Wrap32;
    var d := p * Pow2(h);
    DividerRange(p, hpre);
    ShrIsDiv(v / p, h);
    ShrIsDiv(Wrap32(v) / p, h);
    DivDiv(v, p, Pow2(h));
    DivDiv(Wrap32(v), p, Pow2(h));
    if v < 0x1_0000_0000 {
      NoWrap(v);
    } else {
      WrapDistance(v);
      Farther(v, Wrap32(v), d);
    }
  }

  // ---------- The frequency after bring-up ----------

  /** The factors of the STM32F40 configuration. */
  const F40_PLL: Pll := Pll(8, 336, 2, 7, true)
  const SYSTEM_CORE_CLOCK: U32 := 168_000_000

  /** After bring-up the PLL word holds these factors, and the core clock is 168 times an eighth of the
      crystal, cut to 32 bits on the way. */
  lemma AfterBringUp(w: U32, osc: Oscillators)
    requires w == 0x0740_5408
    ensures w == PllWord(F40_PLL) && Factors(w) == F40_PLL && PllM(w) == 8
    ensures CoreClock(2, 0, w, osc) == Wrap32(osc.hse / 8 * 336) / 2
    ensures osc.hse / 8 * 336 < 0x1_0000_0000 ==> CoreClock(2, 0, w, osc) == 168 * (osc.hse / 8)
  {
    hide PllWord, PllM, PllN, PllP, PllFromHse;
    PllWordIsSum(F40_PLL);
    FactorsOfWord(F40_PLL);
    assert Factors(w) == F40_PLL;
  }

  /** It equals the initial value of SystemCoreClock for a crystal of 8 MHz up to 7 Hz more, and, over
      all 32-bit values, for one other window that the wrapping product maps to the same value. */
  lemma InitialValueIsRight(w: U32, osc: Oscillators)
    requires w == PllWord(F40_PLL)
    ensures PllM(w) == 8
    ensures CoreClock(2, 0, w, osc) == SYSTEM_CORE_CLOCK
       <==> osc.hse / 8 == 1_000_000 || osc.hse / 8 == 1_000_000 + 0x1000_0000
  {
    hide PllWord, PllM, PllN, PllP, PllFromHse;
    PllWordIsSum(F40_PLL);
    AfterBringUp(w, osc);
    WrappedProduct(osc.hse / 8);
  }

  lemma WrappedProduct(x: nat)
    requires x < 0x2000_0000
    ensures Wrap32(x * 336) / 2 == SYSTEM_CORE_CLOCK <==> x == 1_000_000 || x == 1_000_000 + 0x1000_0000
  {
  }

  lemma WithFactors(w: U32, osc: Oscillators)
    requires PllM(w) == 8 && PllN(w) == 336 && PllP(w) == 2 && PllFromHse(w)
    ensures SysClk(2, w, osc) == Wrap32(osc.hse / 8 * 336) / 2
    ensures osc.hse / 8 * 336 < 0x1_0000_0000 ==> SysClk(2, w, osc) == 168 * (osc.hse / 8)
  {
    hide PllM, PllN, PllP, PllFromHse;
  }

  /** With these factors the buses run at a quarter and at half of the core clock, for every crystal: at 42
      and 84 times an eighth of it when the product does not overflow. */
  lemma BusesAfterBringUp(w: U32, osc: Oscillators)
    requires PllM(w) == 8 && PllN(w) == 336 && PllP(w) == 2 && PllFromHse(w)
    ensures var c := CoreClock(2, 0, w, osc); GetClocksFreq(2, 0, 5, 4, w, osc) == Frequencies(c, c, c / 4, c / 2)
    ensures var x := osc.hse / 8;
            x * 336 < 0x1_0000_0000 ==>
              GetClocksFreq(2, 0, 5, 4, w, osc) == Frequencies(168 * x, 168 * x, 42 * x, 84 * x)
  {
    hide PllM, PllN, PllP, PllFromHse, Shr, SysClk, Divided;
    WithFactors(w, osc);
    BusesOf(SysClk(2, w, osc));
  }

  lemma BusesOf(clock: U32)
    ensures Divided(clock, 0) == Shr(clock, 0) == clock && Divided(clock, 5) == clock / 4
    ensures Divided(clock, 4) == clock / 2
  {
    Pow2Small();
    ShrIsDiv(clock, 1);
    ShrIsDiv(clock, 2);
  }
}
