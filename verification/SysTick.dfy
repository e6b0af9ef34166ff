/**
 The system timer: its configuration, and the down-counter it starts (section B3.3 of the ARMv7-M
 Architecture Reference Manual).
*/
module SysTick {
  import opened Bits
  import opened Priority
  import C = Controller
  import NvicRegisters
  import Nvic

  const RELOAD_MASK: U32 := 0xFF_FFFF
  const CTRL_CLKSOURCE: U32 := 4
  const CTRL_TICKINT: U32 := 2
  const CTRL_ENABLE: U32 := 1

  datatype Timer = Timer(load: U32, val: U32, ctrl: U32)

  // ---------- The counter ----------

  predicate Enabled(t: Timer) {
    Bit(t.ctrl, 0)
  }

  /** Whether a processor clock counts: always with the processor clock as the source (CLKSOURCE, bit 2),
      otherwise only together with a clock of the external reference. */
  predicate Counts(t: Timer, reference: bool) {
    Enabled(t) && (Bit(t.ctrl, 2) || reference)
  }

  /** One processor clock: a counter at zero is reloaded, any other counts down. */
  function Tick(t: Timer, reference: bool): Timer {
    if !Counts(t, reference) then t
    else if t.val == 0 then t.(val := t.load)
    else t.(val := t.val - 1)
  }

  /** The clock that counts from 1 to 0 pends the interrupt, if it is switched on (TICKINT, bit 1). */
  predicate Pends(t: Timer, reference: bool) {
    Counts(t, reference) && Bit(t.ctrl, 1) && t.val == 1
  }

  /** After `n` processor clocks; `reference` tells which of them coincide with a reference clock. */
  function Ticks(t: Timer, reference: nat -> bool, n: nat): Timer {
    if n == 0 then t else Tick(Ticks(t, reference, n - 1), reference(n - 1))
  }

  /** The `n`-th processor clock after `t` pends the interrupt. */
  predicate PendsAt(t: Timer, reference: nat -> bool, n: nat) {
    n > 0 && Pends(Ticks(t, reference, n - 1), reference(n - 1))
  }

  /** The timer as `SysTick_Config` leaves it. */
  function Configured(ticks: U32): Timer
    requires ticks >= 1
  {
    Timer(ticks - 1, 0, 7)
  }

  lemma ControlBits()
    ensures Or(Or(CTRL_CLKSOURCE, CTRL_TICKINT), CTRL_ENABLE) == 7 && Bit(7, 0) && Bit(7, 1) && Bit(7, 2)
  {
    assert Or(4, 2) == 6;
    assert Or(6, 1) == 7;
  }

  lemma NextRemainder(n: nat, d: nat)
    requires d > 0
    ensures (n + 1) % d == if n % d == d - 1 then 0 else n % d + 1
  {
    var q, r := n / d, n % d;
    assert n == q * d + r;
    if r == d - 1 {
      DivUnique(n + 1, d, q + 1, 0);
    } else {
      DivUnique(n + 1, d, q, r + 1);
    }
  }

  /** The timer at every clock, whatever the reference does. */
  lemma {:induction false} Phase(ticks: U32, reference: nat -> bool, n: nat)
    requires ticks >= 1
    ensures Ticks(Configured(ticks), reference, n)
         == Configured(ticks).(val := if n % ticks == 0 then 0 else ticks - n % ticks)
  {
    if n == 0 {
      DivUnique(0, ticks, 0, 0);
    } else {
      hide Bit;
      Phase(ticks, reference, n - 1);
      NextRemainder(n - 1, ticks);
      ControlBits();
    }
  }

  /** On an unbounded run, counted in processor clocks, the interrupt is pended at exactly the multiples of
      `ticks`; with `ticks` 1 the reload value is 0 and it is never pended. */
  lemma PendsEveryPeriod(ticks: U32, reference: nat -> bool, n: nat)
    requires 1 <= ticks
    ensures PendsAt(Configured(ticks), reference, n) <==> ticks >= 2 && n > 0 && n % ticks == 0
  {
    hide Ticks, Bit;
    if n > 0 {
      Phase(ticks, reference, n - 1);
      NextRemainder(n - 1, ticks);
      ControlBits();
    }
  }

  /** Two interrupts with none between them are exactly `ticks` processor clocks apart. */
  lemma ConsecutiveInterrupts(ticks: U32, reference: nat -> bool, n: nat, n': nat)
    requires 1 <= ticks && n < n'
    requires PendsAt(Configured(ticks), reference, n) && PendsAt(Configured(ticks), reference, n')
    requires forall k | n < k < n' :: !PendsAt(Configured(ticks), reference, k)
    ensures n' == n + ticks
  {
    hide PendsAt;
    PendsEveryPeriod(ticks, reference, n);
    PendsEveryPeriod(ticks, reference, n');
    PendsEveryPeriod(ticks, reference, n + ticks);
    DivUnique(n + ticks, ticks, n / ticks + 1, 0);
    if n' < n + ticks {
      DivUnique(n', ticks, n / ticks, n' - n);
    }
  }

  // ---------- Configuration ----------

  class Driver {
    const nvic: Nvic.Driver
    var load: U32
    var val: U32
    var ctrl: U32

    ghost predicate Valid()
      reads this, nvic, nvic.enable, nvic.ip, nvic.shp
    {
      nvic.Valid()
    }

    ghost function State(): Timer
      reads this
    {
      Timer(load, val, ctrl)
    }

    constructor (nvic: Nvic.Driver)
      requires nvic.Valid()
      ensures Valid() && this.nvic == nvic && State() == Timer(0, 0, 0)
    {
      this.nvic := nvic;
      load, val, ctrl := 0, 0, 0;
    }

    /** Succeeds exactly for 1 to 2^24 ticks (0 wraps around and is refused); a refused call changes
        nothing. */
    method Config(ticks: U32) returns (r: U32)
      requires Valid()
      modifies this, nvic.ip, nvic.shp
      ensures Valid() && r == if 1 <= ticks <= 0x100_0000 then 0 else 1
      ensures r == 1 ==> State() == old(State()) && nvic.Abs() == old(nvic.Abs())
      ensures r == 0 ==> State() == Configured(ticks)
      ensures r == 0 ==> load == ticks - 1 && val == 0 && Bit(ctrl, 0) && Bit(ctrl, 1) && Bit(ctrl, 2)
      ensures r == 0 ==> nvic.shp[11] == (Pow2(nvic.prioBits) - 1) * Pow2(8 - nvic.prioBits)
      ensures r == 0 ==> nvic.Abs() == WithLeastUrgent(old(nvic.Abs()), nvic.prioBits)
    {
      hide NvicRegisters.View, NvicRegisters.Consistent, Or, Low, C.WellFormed, C.Step, WithLeastUrgent, Pow2;
      if Sub32(ticks, 1) > RELOAD_MASK {
        return 1;
      }
      load := Sub32(ticks, 1);
      LowestStep(nvic.Abs(), nvic.prioBits);
      LargestIs(nvic.prioBits);
      nvic.SetPriority(C.SYSTICK_IRQ, Ones(nvic.prioBits));
      NvicRegisters.ViewWellFormed(nvic.Regs(), nvic.prioBits);
      val := 0;
      ControlBits();
      ctrl := Or(Or(CTRL_CLKSOURCE, CTRL_TICKINT), CTRL_ENABLE);
      return 0;
    }
  }

  /** SysTick at the largest priority value, everything else as before. */
  ghost function WithLeastUrgent(s: C.State, p: nat): C.State {
    s.(priority := s.priority[C.SYSTICK_IRQ := Pow2(p) - 1])
  }

  /** Writing the largest value as the priority of SysTick. */
  lemma LowestStep(s: C.State, p: nat)
    requires PriorityBits(p)
    ensures Ones(p) < 256 && C.Step(s, p, C.SetPriority(C.SYSTICK_IRQ, Ones(p))) == WithLeastUrgent(s, p)
  {
    LowestPriority(p);
  }

  /** The largest value is its own remainder. */
  lemma LargestIs(p: nat)
    ensures Ones(p) % Pow2(p) == Pow2(p) - 1
  {
    DivUnique(Ones(p), Pow2(p), 0, Ones(p));
  }

  lemma LowestPriority(p: nat)
    requires PriorityBits(p)
    ensures Ones(p) < 256 && Low(Ones(p), p) == Pow2(p) - 1
  {
    Pow2Byte(p);
    LowBound(Ones(p), p);
  }
}
