/**
 The interrupt controller as its callers see it: which interrupts are enabled, what priority each
 interrupt holds, and the priority grouping. A call of the driver is one step of this state.
*/
module Controller {
  import opened Bits
  import opened Priority

  const LOWEST_IRQ: int := -12
  const IRQ_COUNT: int := 240
  const SYSTICK_IRQ: int := -1

  datatype State = State(enabled: set<int>, priority: map<int, nat>, group: U32)

  datatype Call =
    | EnableIRQ(irq: int)
    | DisableIRQ(irq: int)
    | SetPriority(irq: int, priority: U32)
    | SetPriorityGrouping(g: U32)
    | PriorityGroupConfig(word: U32)
    | Init(channel: U8, preempt: U8, sub: U8, cmd: bool)

  const RESET: State := State({}, map i: int | LOWEST_IRQ <= i < IRQ_COUNT :: 0, 0)

  function Step(s: State, p: nat, call: Call): State
    requires PriorityBits(p)
  {
    match call
    case EnableIRQ(irq) => s.(enabled := s.enabled + {irq})
    case DisableIRQ(irq) => s.(enabled := s.enabled - {irq})
    case SetPriority(irq, priority) => s.(priority := s.priority[irq := Low(priority, p)])
    case SetPriorityGrouping(g) => s.(group := g % 8)
    case PriorityGroupConfig(word) => s.(group := word / 0x100 % 8)
    case Init(channel, preempt, sub, cmd) =>
      if cmd then
        s.(enabled := s.enabled + {channel as int},
           priority := s.priority[channel as int := Encode(s.group, p, preempt, sub)])
      else
        s.(enabled := s.enabled - {channel as int})
  }

  function Run(s: State, p: nat, calls: seq<Call>): State
    requires PriorityBits(p)
  {
    if calls == [] then s else Step(Run(s, p, calls[..|calls| - 1]), p, calls[|calls| - 1])
  }

  /** Enabling with `NVIC_Init` is setting the encoded priority and then enabling the interrupt. */
  lemma InitIsTwoCalls(s: State, p: nat, channel: U8, preempt: U8, sub: U8)
    requires PriorityBits(p)
    ensures Step(s, p, Init(channel, preempt, sub, true))
         == Step(Step(s, p, SetPriority(channel as int, Encode(s.group, p, preempt, sub))), p,
                 EnableIRQ(channel as int))
  {
    var e := Encode(s.group, p, preempt, sub);
    EncodeFits(s.group, p, preempt, sub);
    LowBound(e, p);
  }

  /** The five words `NVIC_PriorityGroup_0` to `NVIC_PriorityGroup_4`. */
  predicate GroupWord(word: U32) {
    word == 0x700 || word == 0x600 || word == 0x500 || word == 0x400 || word == 0x300
  }

  /** What each function asks of its arguments. */
  predicate Arguments(call: Call) {
    match call
    case EnableIRQ(irq) => 0 <= irq < IRQ_COUNT
    case DisableIRQ(irq) => 0 <= irq < IRQ_COUNT
    case SetPriority(irq, _) => LOWEST_IRQ <= irq < IRQ_COUNT
    case SetPriorityGrouping(_) => true
    case PriorityGroupConfig(word) => GroupWord(word)
    case Init(channel, _, _, _) => channel < IRQ_COUNT
  }

  /** `NVIC_Init` is written for 4 priority bits, and its shifts are defined only once a grouping
      that gives a preemption width of at most 4 has been set. */
  predicate Allowed(group: U32, p: nat, call: Call) {
    Arguments(call) && (call.Init? && call.cmd ==> p == 4 && 3 <= group <= 7)
  }

  ghost predicate AllowedRun(s: State, p: nat, calls: seq<Call>)
    requires PriorityBits(p)
  {
    forall k | 0 <= k < |calls| :: Allowed(Run(s, p, calls[..k]).group, p, calls[k])
  }

  // ---------- What a run leaves behind ----------

  predicate TurnsOn(call: Call, irq: int) {
    match call
    case EnableIRQ(i) => i == irq
    case Init(channel, _, _, cmd) => cmd && channel as int == irq
    case _ => false
  }

  predicate TurnsOff(call: Call, irq: int) {
    match call
    case DisableIRQ(i) => i == irq
    case Init(channel, _, _, cmd) => !cmd && channel as int == irq
    case _ => false
  }

  predicate SetsPriority(call: Call, irq: int) {
    match call
    case SetPriority(i, _) => i == irq
    case Init(channel, _, _, cmd) => cmd && channel as int == irq
    case _ => false
  }

  predicate SetsGroup(call: Call) {
    call.SetPriorityGrouping? || call.PriorityGroupConfig?
  }

  /** The value that a call writes, given the grouping in force. */
  function WrittenPriority(call: Call, group: U32, p: nat): nat
    requires PriorityBits(p) && (call.SetPriority? || call.Init?)
  {
    match call
    case SetPriority(_, priority) => Low(priority, p)
    case Init(_, preempt, sub, _) => Encode(group, p, preempt, sub)
  }

  function GroupSet(call: Call): U32
    requires SetsGroup(call)
  {
    match call
    case SetPriorityGrouping(g) => g % 8
    case PriorityGroupConfig(word) => word / 0x100 % 8
  }

  lemma RunPrefix(calls: seq<Call>, k: nat)
    requires k < |calls|
    ensures calls[..|calls| - 1][..k] == calls[..k]
  {
  }

  /** An interrupt is enabled after a run exactly when some call turned it on and no later call turned
      it off, or it was enabled before and no call turned it off. Calls for other interrupts, and
      priority and grouping calls, have no part in it. */
  lemma {:induction false} EnabledByLastCall(s: State, p: nat, calls: seq<Call>, irq: int)
    requires PriorityBits(p)
    ensures irq in Run(s, p, calls).enabled
       <==> || (exists k :: 0 <= k < |calls| && TurnsOn(calls[k], irq)
                            && forall j | k < j < |calls| :: !TurnsOff(calls[j], irq))
            || (irq in s.enabled && forall j | 0 <= j < |calls| :: !TurnsOff(calls[j], irq))
  {
    if calls != [] {
      var n := |calls| - 1;
      EnabledByLastCall(s, p, calls[..n], irq);
      if TurnsOn(calls[n], irq) {
        assert irq in Run(s, p, calls).enabled;
      } else if TurnsOff(calls[n], irq) {
        assert irq !in Run(s, p, calls).enabled;
      } else {
        assert irq in Run(s, p, calls).enabled <==> irq in Run(s, p, calls[..n]).enabled;
        forall j | 0 <= j < n
          ensures calls[..n][j] == calls[j]
        {
        }
      }
    }
  }

  /** The priority an interrupt holds is the one written last, under the grouping then in force. */
  lemma {:induction false} PriorityIsLastWritten(s: State, p: nat, calls: seq<Call>, irq: int, k: nat)
    requires PriorityBits(p) && k < |calls| && SetsPriority(calls[k], irq)
    requires forall j | k < j < |calls| :: !SetsPriority(calls[j], irq)
    ensures irq in Run(s, p, calls).priority
    ensures Run(s, p, calls).priority[irq] == WrittenPriority(calls[k], Run(s, p, calls[..k]).group, p)
    decreases |calls|
  {
    hide Encode;
    var n := |calls| - 1;
    if k < n {
      PriorityIsLastWritten(s, p, calls[..n], irq, k);
      RunPrefix(calls, k);
      assert !SetsPriority(calls[n], irq);
    } else {
      assert calls[..n] == calls[..k];
    }
  }

  lemma {:induction false} PriorityUntouched(s: State, p: nat, calls: seq<Call>, irq: int)
    requires PriorityBits(p) && forall j | 0 <= j < |calls| :: !SetsPriority(calls[j], irq)
    ensures irq in Run(s, p, calls).priority <==> irq in s.priority
    ensures irq in s.priority ==> Run(s, p, calls).priority[irq] == s.priority[irq]
    decreases |calls|
  {
    if calls != [] {
      PriorityUntouched(s, p, calls[..|calls| - 1], irq);
    }
  }

  /** The grouping in force is the one set last. */
  lemma {:induction false} GroupIsLastSet(s: State, p: nat, calls: seq<Call>, k: nat)
    requires PriorityBits(p) && k < |calls| && SetsGroup(calls[k])
    requires forall j | k < j < |calls| :: !SetsGroup(calls[j])
    ensures Run(s, p, calls).group == GroupSet(calls[k])
    decreases |calls|
  {
    var n := |calls| - 1;
    if k < n {
      GroupIsLastSet(s, p, calls[..n], k);
      assert !SetsGroup(calls[n]);
    }
  }

  lemma {:induction false} GroupUntouched(s: State, p: nat, calls: seq<Call>)
    requires PriorityBits(p) && forall j | 0 <= j < |calls| :: !SetsGroup(calls[j])
    ensures Run(s, p, calls).group == s.group
    decreases |calls|
  {
    if calls != [] {
      GroupUntouched(s, p, calls[..|calls| - 1]);
    }
  }

  // ---------- Set the grouping first ----------

  predicate EnablingInit(call: Call) {
    call.Init? && call.cmd
  }

  /** Before call `k` the last grouping call has set 3 to 7, or there was none and the grouping was there to
      begin with. */
  ghost predicate WideBefore(s: State, calls: seq<Call>, k: nat)
    requires k <= |calls|
  {
    || (exists j :: 0 <= j < k && SetsGroup(calls[j]) && 3 <= GroupSet(calls[j])
                    && forall i | j < i < k :: !SetsGroup(calls[i]))
    || (3 <= s.group <= 7 && forall i | 0 <= i < k :: !SetsGroup(calls[i]))
  }

  lemma {:induction false} WideGroup(s: State, calls: seq<Call>, k: nat)
    requires k <= |calls|
    ensures WideBefore(s, calls, k) <==> 3 <= Run(s, 4, calls[..k]).group <= 7
    decreases k
  {
    if k > 0 {
      WideGroup(s, calls, k - 1);
      var last := calls[k - 1];
      assert calls[..k][..k - 1] == calls[..k - 1];
      if SetsGroup(last) {
        assert Run(s, 4, calls[..k]).group == GroupSet(last) <= 7;
        assert WideBefore(s, calls, k) <==> 3 <= GroupSet(last);
      } else {
        assert Run(s, 4, calls[..k]).group == Run(s, 4, calls[..k - 1]).group;
        assert WideBefore(s, calls, k) <==> WideBefore(s, calls, k - 1);
      }
    }
  }

  /** A run is allowed exactly if every call's arguments are, and before every enabling `NVIC_Init` the
      grouping in force has been set to 3 to 7. */
  lemma GroupingFirst(s: State, calls: seq<Call>)
    ensures AllowedRun(s, 4, calls)
       <==> forall k | 0 <= k < |calls| ::
              Arguments(calls[k]) && (EnablingInit(calls[k]) ==> WideBefore(s, calls, k))
  {
    hide Run, WideBefore;
    forall k | 0 <= k < |calls|
      ensures Allowed(Run(s, 4, calls[..k]).group, 4, calls[k])
         <==> Arguments(calls[k]) && (EnablingInit(calls[k]) ==> WideBefore(s, calls, k))
    {
      WideGroup(s, calls, k);
    }
  }

  /** From reset the grouping is 0, so an enabling `NVIC_Init` before any grouping call is not allowed. */
  lemma InitBeforeGrouping(calls: seq<Call>, k: nat)
    requires k < |calls| && EnablingInit(calls[k])
    requires forall j | 0 <= j < k :: !SetsGroup(calls[j])
    ensures !AllowedRun(RESET, 4, calls)
  {
    GroupUntouched(RESET, 4, calls[..k]);
  }

  // ---------- Well-formed states, and the least urgent interrupt ----------

  ghost predicate WellFormed(s: State, p: nat) {
    && (forall i: int :: i in s.priority <==> LOWEST_IRQ <= i < IRQ_COUNT)
    && (forall i | i in s.priority :: s.priority[i] < Pow2(p))
    && s.group <= 7
  }

  lemma StepWellFormed(s: State, p: nat, call: Call)
    requires PriorityBits(p) && WellFormed(s, p) && Arguments(call)
    ensures WellFormed(Step(s, p, call), p)
  {
    match call
    case SetPriority(irq, priority) => LowBound(priority, p);
    case Init(channel, preempt, sub, cmd) => EncodeFits(s.group, p, preempt, sub);
    case _ =>
  }

  lemma {:induction false} RunWellFormed(s: State, p: nat, calls: seq<Call>)
    requires PriorityBits(p) && WellFormed(s, p)
    requires forall k | 0 <= k < |calls| :: Arguments(calls[k])
    ensures WellFormed(Run(s, p, calls), p)
    decreases |calls|
  {
    if calls != [] {
      RunWellFormed(s, p, calls[..|calls| - 1]);
      StepWellFormed(Run(s, p, calls[..|calls| - 1]), p, calls[|calls| - 1]);
    }
  }

  /** The priority byte of an interrupt. */
  function ByteOf(s: State, p: nat, irq: int): nat
    requires PriorityBits(p) && irq in s.priority
  {
    Shl(s.priority[irq], 8 - p)
  }

  /** Once SysTick holds the lowest priority it keeps it through every run that does not write it: no
      other interrupt has a larger byte, and SysTick preempts nothing under any grouping. */
  lemma SysTickStaysLeastUrgent(s: State, p: nat, calls: seq<Call>, irq: int, g: nat)
    requires PriorityBits(p) && WellFormed(s, p) && s.priority[SYSTICK_IRQ] == Pow2(p) - 1
    requires forall k | 0 <= k < |calls| :: Arguments(calls[k]) && !SetsPriority(calls[k], SYSTICK_IRQ)
    requires LOWEST_IRQ <= irq < IRQ_COUNT
    ensures var t := Run(s, p, calls);
            && SYSTICK_IRQ in t.priority && irq in t.priority
            && ByteOf(t, p, irq) <= ByteOf(t, p, SYSTICK_IRQ) < 256
            && !Preempts(ByteOf(t, p, SYSTICK_IRQ), ByteOf(t, p, irq), g)
  {
    var t := Run(s, p, calls);
    RunWellFormed(s, p, calls);
    PriorityUntouched(s, p, calls, SYSTICK_IRQ);
    var low, top := t.priority[irq], t.priority[SYSTICK_IRQ];
    SumOrder(top, 0, low, 0, 8 - p);
    SumBound(top, p, 0, 8 - p);
    Pow2Small();
    ShrMonotone(ByteOf(t, p, irq), ByteOf(t, p, SYSTICK_IRQ), g + 1);
  }
}
