/**
 Clock bring-up: `SystemInit` and `SetSysClock` as a program over memory-mapped registers, against
 hardware that may answer every load with any ready flags and any switch status.
*/
module BringUp {
  import opened Bits
  import opened Clock
  import opened ClockRegisters

  const FLASH_BASE: U32 := 0x0800_0000
  const VECT_TAB_OFFSET: U32 := 0x00
  const APB1ENR_PWREN: U32 := 0x1000_0000
  const PWR_CR_VOS: U32 := 0x0000_C000

  /** `Done`, or why bring-up has not finished. The two waits without a timeout are observed for a given
      number of polls only, so that every finite part of an endless wait is covered. */
  datatype Outcome = Done | HseFailed | WaitingForPll | WaitingForSwitch

  ghost predicate SafeSince(log: seq<Snapshot>, watch: nat) {
    forall i | watch <= i < |log| :: SwitchSafe(log[i])
  }

  /** No access from position `from` on has changed CFGR. */
  ghost predicate CfgrKept(log: seq<Snapshot>, from: nat, cfgr: U32) {
    forall i | from <= i < |log| :: log[i].cfgr == cfgr
  }

  /** What is assumed of the switch status that the load at position `k` finds: it names a source that SW has
      selected since position `from`, and once it names the selected source it stays with it. */
  ghost predicate StatusFollows(log: seq<Snapshot>, from: nat, k: nat)
    requires 0 < k < |log|
  {
    && (exists i :: from <= i < k && Fields(log[i].cfgr).sw == Sws(log[k].cfgr))
    && (Sws(log[k - 1].cfgr) == Fields(log[k - 1].cfgr).sw ==> Sws(log[k].cfgr) == Fields(log[k - 1].cfgr).sw)
  }

  lemma SafeAppend(log: seq<Snapshot>, watch: nat, s: Snapshot)
    requires SafeSince(log, watch) && (watch <= |log| ==> SwitchSafe(s))
    ensures SafeSince(log + [s], watch)
  {
  }

  lemma NoOffset()
    ensures Or32(FLASH_BASE, VECT_TAB_OFFSET) == FLASH_BASE
  {
    hide Or;
    OrZero(FLASH_BASE);
  }

  class Board {
    var cr: U32
    var cfgr: U32
    var pllcfgr: U32
    var acr: U32
    var cir: U32
    var apb1enr: U32
    var pwrCr: U32
    var vtor: U32

    const osc: Oscillators
    /** The global variable `SystemCoreClock`. */
    var systemCoreClock: U32

    /** The words whose read-only bits the hardware has chosen to answer the loads so far. */
    ghost var answers: seq<U32>
    ghost var hseSeen: bool
    ghost var pllSeen: bool
    /** The clock registers after every access so far. */
    ghost var log: seq<Snapshot>
    /** Whether bring-up has begun, and if so the first position of `log` that is claimed to be safe. */
    ghost var watching: bool
    ghost var watch: nat

    /** Registers in any state. */
    constructor (osc: Oscillators, cr: U32, cfgr: U32, pllcfgr: U32, acr: U32)
      ensures this.osc == osc && systemCoreClock == SYSTEM_CORE_CLOCK
      ensures this.cr == cr && this.cfgr == cfgr && this.pllcfgr == pllcfgr && this.acr == acr
      ensures Valid() && !watching
    {
      this.osc := osc;
      this.cr, this.cfgr, this.pllcfgr, this.acr := cr, cfgr, pllcfgr, acr;
      systemCoreClock := SYSTEM_CORE_CLOCK;
      watching := false;
    }

    ghost function Now(): Snapshot
      reads this
    {
      Snapshot(cr, cfgr, pllcfgr, acr, hseSeen, pllSeen)
    }

    /** Every watched state is safe, and the registers are in the last of them. */
    ghost predicate Valid()
      reads this
    {
      watching ==> SafeSince(log, watch) && (watch < |log| ==> SwitchSafe(Now()) && log[|log| - 1] == Now())
    }

    ghost predicate Watched()
      reads this
    {
      Valid() && watching && watch < |log|
    }

    /** Bring-up has not begun, or a watched state has been reached. */
    ghost predicate Steady()
      reads this
    {
      Valid() && (watching ==> watch < |log|)
    }

    // ---------- Register accesses ----------

    method LoadCr() returns (v: U32, ghost a: U32)
      requires Valid() && (watching && watch <= |log| ==> SwitchSafe(Now()))
      modifies this`cr, this`answers, this`hseSeen, this`pllSeen, this`log
      ensures Valid() && log == old(log) + [Now()] && answers == old(answers) + [a]
      ensures v == cr && Now() == SeenCr(old(Now()), a) && Switches(cr) == Switches(old(cr))
    {
      hide SwitchSafe, SafeSince, Merged, Bit;
      var answer: U32 := *;
      a := answer;
      MergedSwitches(cr, a);
      LoadCrKeepsSafe(Now(), a);
      hseSeen, pllSeen := SeenCr(Now(), a).hseSeen, SeenCr(Now(), a).pllSeen;
      cr := Merged(cr, answer, CR_READ_ONLY);
      answers := answers + [a];
      if watching {
        SafeAppend(log, watch, Now());
      }
      log := log + [Now()];
      v := cr;
    }

    method StoreCr(v: U32)
      requires Valid() && (watching && watch <= |log| ==> SwitchSafe(WithCr(Now(), v)))
      modifies this`cr, this`hseSeen, this`pllSeen, this`log
      ensures Valid() && log == old(log) + [Now()] && Now() == WithCr(old(Now()), v)
    {
      hide SwitchSafe, SafeSince, Merged, Bit;
      hseSeen, pllSeen := hseSeen && HseOn(v), pllSeen && PllOn(v);
      cr := Merged(v, cr, CR_READ_ONLY);
      if watching {
        SafeAppend(log, watch, Now());
      }
      log := log + [Now()];
    }

    method LoadCfgr() returns (v: U32, ghost a: U32)
      requires Valid() && (watching && watch <= |log| ==> SwitchSafe(Now()))
      modifies this`cfgr, this`answers, this`log
      ensures Valid() && log == old(log) + [Now()] && answers == old(answers) + [a]
      ensures v == cfgr && Now() == SeenCfgr(old(Now()), a)
    {
      hide SwitchSafe, SafeSince, Merged, Fields;
      var answer: U32 := *;
      a := answer;
      LoadCfgrKeepsSafe(Now(), a);
      cfgr := Merged(cfgr, answer, CFGR_READ_ONLY);
      answers := answers + [a];
      if watching {
        SafeAppend(log, watch, Now());
      }
      log := log + [Now()];
      v := cfgr;
    }

    method StoreCfgr(v: U32)
      requires Valid() && (watching && watch <= |log| ==> SwitchSafe(WithCfgr(Now(), v)))
      modifies this`cfgr, this`log
      ensures Valid() && log == old(log) + [Now()] && Now() == WithCfgr(old(Now()), v)
    {
      hide SwitchSafe, SafeSince, Merged, Fields;
      cfgr := Merged(v, cfgr, CFGR_READ_ONLY);
      if watching {
        SafeAppend(log, watch, Now());
      }
      log := log + [Now()];
    }

    method StorePllcfgr(w: U32)
      requires Valid() && (watching && watch <= |log| ==> SwitchSafe(WithPllcfgr(Now(), w)))
      modifies this`pllcfgr, this`pllSeen, this`log
      ensures Valid() && log == old(log) + [Now()] && Now() == WithPllcfgr(old(Now()), w)
    {
      hide SwitchSafe, SafeSince;
      pllcfgr, pllSeen := w, false;
      if watching {
        SafeAppend(log, watch, Now());
      }
      log := log + [Now()];
    }

    method StoreAcr(v: U32)
      requires Valid() && (watching && watch <= |log| ==> SwitchSafe(Now().(acr := v)))
      modifies this`acr, this`log
      ensures Valid() && log == old(log) + [Now()] && Now() == old(Now()).(acr := v)
    {
      hide SwitchSafe, SafeSince;
      acr := v;
      if watching {
        SafeAppend(log, watch, Now());
      }
      log := log + [Now()];
    }

    // ---------- Read-modify-write accesses ----------

    /** `RCC->CR |= mask`. */
    method SetCr(mask: U32) returns (ghost a: U32)
      requires Valid() && (watching && watch <= |log| + 1 ==> Fields(cfgr).sw != 2)
      modifies this`cr, this`answers, this`hseSeen, this`pllSeen, this`log
      ensures Valid() && log == old(log) + [SeenCr(old(Now()), a), Now()] && answers == old(answers) + [a]
      ensures HseOn(cr) == (HseOn(old(cr)) || HseOn(mask)) && PllOn(cr) == (PllOn(old(cr)) || PllOn(mask))
      ensures Switches(cr) == Switches(old(cr)) + Switches(mask) && CfgrKept(log, |old(log)|, cfgr)
      ensures old(hseSeen) && HseOn(old(cr)) ==> hseSeen
    {
      hide SafeSince, Bit, Fields, Armed, SeenCr, WithCr, Or32;
      var v;
      v, a := LoadCr();
      OrSwitches(old(Now()), a, mask);
      SeenCrEffect(old(Now()), a);
      OrCrEffect(old(Now()), a, mask);
      StoreCr(Or32(v, mask));
    }

    /** `RCC->CR &= mask`. */
    method ClearCr(mask: U32) returns (ghost a: U32)
      requires Valid() && (watching && watch <= |log| + 1 ==> Fields(cfgr).sw != 2)
      modifies this`cr, this`answers, this`hseSeen, this`pllSeen, this`log
      ensures Valid() && log == old(log) + [SeenCr(old(Now()), a), Now()] && answers == old(answers) + [a]
      ensures HseOn(cr) == (HseOn(old(cr)) && HseOn(mask)) && PllOn(cr) == (PllOn(old(cr)) && PllOn(mask))
      ensures Switches(cr) == Switches(old(cr)) * Switches(mask) && CfgrKept(log, |old(log)|, cfgr)
      ensures hseSeen ==> HseOn(cr)
    {
      hide SafeSince, Bit, Fields, Armed, SeenCr, WithCr, And32;
      var v;
      v, a := LoadCr();
      AndSwitches(old(Now()), a, mask);
      SeenCrEffect(old(Now()), a);
      AndCrEffect(old(Now()), a, mask);
      StoreCr(And32(v, mask));
    }

    /** `RCC->CFGR |= mask`. Selecting the PLL demands that everything it needs is in place. */
    method SetCfgr(mask: U32) returns (ghost a: U32)
      requires Watched()
      requires var f := FieldsOr(Fields(cfgr), Fields(mask)); f.sw == 2 ==> Armed(Now()) && f == F40_FIELDS
      modifies this`cfgr, this`answers, this`log
      ensures Valid() && log == old(log) + [SeenCfgr(old(Now()), a), Now()] && answers == old(answers) + [a]
      ensures Fields(cfgr) == FieldsOr(Fields(old(cfgr)), Fields(mask))
    {
      hide SafeSince, Bit, Fields, FieldsOr, SeenCfgr, WithCfgr, Or32;
      var v;
      v, a := LoadCfgr();
      SeenCfgrEffect(old(Now()), a);
      OrCfgrEffect(old(Now()), a, mask);
      StoreCfgr(Or32(v, mask));
    }

    /** `RCC->CFGR &= mask`. */
    method ClearCfgr(mask: U32) returns (ghost a: U32)
      requires Watched() && FieldsAnd(Fields(cfgr), Fields(mask)).sw != 2
      modifies this`cfgr, this`answers, this`log
      ensures Valid() && log == old(log) + [SeenCfgr(old(Now()), a), Now()] && answers == old(answers) + [a]
      ensures Fields(cfgr) == FieldsAnd(Fields(old(cfgr)), Fields(mask))
    {
      hide SafeSince, Bit, Fields, FieldsAnd, SeenCfgr, WithCfgr, And32;
      var v;
      v, a := LoadCfgr();
      SeenCfgrEffect(old(Now()), a);
      AndCfgrEffect(old(Now()), a, mask);
      StoreCfgr(And32(v, mask));
    }

    // ---------- The waits of SetSysClock ----------

    /** A load of CR that is used for its HSE ready flag. */
    method PollHse() returns (hseStatus: U32, ghost a: U32)
      requires Watched()
      modifies this`cr, this`answers, this`hseSeen, this`pllSeen, this`log
      ensures Watched() && Switches(cr) == Switches(old(cr))
      ensures log == old(log) + [Now()] && answers == old(answers) + [a]
      ensures HseOn(cr) == HseOn(old(cr)) && PllOn(cr) == PllOn(old(cr))
      ensures hseStatus == 0 <==> !HseReady(a)
    {
      hide SwitchSafe, SafeSince, SeenCr, Bit, And;
      var v;
      v, a := LoadCr();
      SeenCrEffect(old(Now()), a);
      FlagTest(v);
      hseStatus := And32(v, CR_HSERDY);
    }

    /** The HSE wait. It polls until the flag is seen or the counter reaches the timeout, so at most
        `timeout` times; a timeout of 0 is reached when the 32-bit counter has wrapped around. */
    method WaitForHse(timeout: U32) returns (polls: nat)
      requires Watched()
      modifies this`cr, this`answers, this`hseSeen, this`pllSeen, this`log
      ensures Watched() && Switches(cr) == Switches(old(cr))
      ensures old(log) <= log && |log| == |old(log)| + polls && CfgrKept(log, |old(log)|, cfgr)
      ensures HseOn(cr) == HseOn(old(cr)) && PllOn(cr) == PllOn(old(cr))
      ensures 1 <= polls <= 0x1_0000_0000 && (timeout >= 1 ==> polls <= timeout)
      ensures |answers| == |old(answers)| + polls && old(answers) <= answers
      ensures forall j | |old(answers)| <= j < |answers| - 1 :: !HseReady(answers[j])
      ensures timeout >= 1 && polls < timeout ==> HseReady(answers[|answers| - 1])
      ensures timeout == 0 && polls < 0x1_0000_0000 ==> HseReady(answers[|answers| - 1])
    {
      hide SwitchSafe, SafeSince, Bit;
      ghost var limit: nat := if timeout == 0 then 0x1_0000_0000 else timeout;
      var startUpCounter: U32 := 0;
      var hseStatus: U32 := 0;
      polls := 0;
      var again := true;
      while again
        invariant Watched() && Switches(cr) == Switches(old(cr))
        invariant old(log) <= log && |log| == |old(log)| + polls && CfgrKept(log, |old(log)|, cfgr)
        invariant HseOn(cr) == HseOn(old(cr)) && PllOn(cr) == PllOn(old(cr))
        invariant startUpCounter == Wrap32(polls) && polls <= limit
        invariant |answers| == |old(answers)| + polls && old(answers) <= answers
        invariant again ==> polls < limit
        invariant again ==> forall j | |old(answers)| <= j < |answers| :: !HseReady(answers[j])
        invariant !again ==> polls >= 1
        invariant forall j | |old(answers)| <= j < |answers| - 1 :: !HseReady(answers[j])
        invariant !again && polls < limit ==> HseReady(answers[|answers| - 1])
        decreases again, limit - polls
      {
        ghost var a;
        hseStatus, a := PollHse();
        startUpCounter := Wrap32(startUpCounter + 1);
        polls := polls + 1;
        again := hseStatus == 0 && startUpCounter != timeout;
      }
    }

    /** The wait for the PLL, observed for at most `window` polls: it ends with the flag seen, or with
        `window` answers none of which had it. */
    method WaitForPll(window: nat) returns (ready: bool)
      requires Watched() && HseOn(cr) && PllOn(cr) && hseSeen
      modifies this`cr, this`answers, this`hseSeen, this`pllSeen, this`log
      ensures Watched() && HseOn(cr) && PllOn(cr) && hseSeen && old(answers) <= answers
      ensures Switches(cr) == Switches(old(cr)) && old(log) <= log
      ensures ready ==> pllSeen && |answers| > |old(answers)| && PllReady(answers[|answers| - 1])
      ensures !ready ==> |answers| == |old(answers)| + window
      ensures !ready ==> forall j | |old(answers)| <= j < |answers| :: !PllReady(answers[j])
    {
      hide SwitchSafe, SafeSince, SeenCr, Bit, And;
      ready := false;
      var polls := 0;
      while !ready && polls < window
        invariant Watched() && HseOn(cr) && PllOn(cr) && hseSeen && old(answers) <= answers
        invariant Switches(cr) == Switches(old(cr)) && old(log) <= log
        invariant polls <= window && |answers| == |old(answers)| + polls
        invariant ready ==> pllSeen && polls > 0 && PllReady(answers[|answers| - 1])
        invariant !ready ==> forall j | |old(answers)| <= j < |answers| :: !PllReady(answers[j])
        decreases !ready, window - polls
      {
        label poll:
        var v, a := LoadCr();
        SeenCrEffect(old@poll(Now()), a);
        FlagTest(v);
        ready := And(v, CR_PLLRDY) != 0;
        polls := polls + 1;
      }
    }

    /** The wait for the switch, observed in the same way. */
    method WaitForSwitch(window: nat) returns (ready: bool)
      requires Watched()
      modifies this`cfgr, this`answers, this`log
      ensures Watched() && Fields(cfgr) == Fields(old(cfgr)) && old(answers) <= answers
      ensures old(log) <= log
      ensures ready ==> Sws(cfgr) == 2
      ensures !ready ==> |answers| == |old(answers)| + window
      ensures !ready ==> forall j | |old(answers)| <= j < |answers| :: Sws(answers[j]) != 2
    {
      hide SwitchSafe, SafeSince, Field, And, Merged;
      ready := false;
      var polls := 0;
      while !ready && polls < window
        invariant Watched() && Fields(cfgr) == Fields(old(cfgr)) && old(answers) <= answers
        invariant old(log) <= log
        invariant polls <= window && |answers| == |old(answers)| + polls
        invariant ready ==> Sws(cfgr) == 2
        invariant !ready ==> forall j | |old(answers)| <= j < |answers| :: Sws(answers[j]) != 2
        decreases !ready, window - polls
      {
        label poll:
        var v, a := LoadCfgr();
        MergedCfgr(old@poll(cfgr), a);
        StatusTest(v);
        ready := And(v, CFGR_SWS) == CFGR_SWS_PLL;
        polls := polls + 1;
      }
    }

    // ---------- system_stm32f4xx.c ----------

    /** In the branch taken when HSE is ready: the voltage scale, and the three prescalers of CFGR. */
    method SetPrescalers()
      requires Watched() && Fields(cfgr) == RESET_FIELDS
      modifies this`apb1enr, this`pwrCr, this`cfgr, this`answers, this`log
      ensures Watched() && old(answers) <= answers && old(log) <= log
      ensures Fields(cfgr) == F40_FIELDS.(sw := 0)
      ensures apb1enr == Or32(old(apb1enr), APB1ENR_PWREN) && pwrCr == Or32(old(pwrCr), PWR_CR_VOS)
    {
      hide SafeSince, SwitchSafe, Armed, Bit, Fields, FieldsOr, Or32;
      apb1enr := Or32(apb1enr, APB1ENR_PWREN);
      pwrCr := Or32(pwrCr, PWR_CR_VOS);
      CfgrMasks(Fields(cfgr));
      ghost var a := SetCfgr(CFGR_HPRE_DIV1);
      a := SetCfgr(CFGR_PPRE2_DIV2);
      CfgrMasks(Fields(cfgr));
      a := SetCfgr(CFGR_PPRE1_DIV4);
    }

    /** Then the PLL word and the PLL switch. */
    method StartPll()
      requires Watched() && Fields(cfgr).sw != 2 && HseOn(cr) && hseSeen
      modifies this`cr, this`pllcfgr, this`answers, this`hseSeen, this`pllSeen, this`log
      ensures Watched() && old(answers) <= answers && old(log) <= log && pllcfgr == PLLCFGR_F40
      ensures HseOn(cr) && hseSeen && PllOn(cr) && Switches(cr) == Switches(old(cr)) + {24}
    {
      hide SafeSince, SwitchSafe, Armed, Bit, Fields, PllWord, PllM;
      PllConfiguration();
      Unselected(WithPllcfgr(Now(), PLLCFGR_F40));
      StorePllcfgr(PllWord(F40_PLL));
      ResetMasks();
      SwitchMasks();
      ghost var a := SetCr(CR_PLLON);
    }

    /** The last part: flash wait states, then the switch. */
    method SwitchToPll(window: nat) returns (ready: bool)
      requires Watched() && Fields(cfgr) == F40_FIELDS.(sw := 0) && pllcfgr == PLLCFGR_F40
      requires HseOn(cr) && hseSeen && PllOn(cr) && pllSeen
      modifies this`acr, this`cfgr, this`answers, this`log
      ensures Watched() && Fields(cfgr) == F40_FIELDS && Armed(Now()) && old(answers) <= answers
      ensures acr == 0x705 && old(log) <= log
      ensures ready ==> Sws(cfgr) == 2
      ensures !ready ==> |answers| == |old(answers)| + 2 + window
      ensures !ready ==> forall j | |answers| - window <= j < |answers| :: Sws(answers[j]) != 2
    {
      hide SafeSince, SwitchSafe, Bit, Fields, FieldsOr, FieldsAnd, Or;
      FlashWord();
      Unselected(Now().(acr := 0x705));
      StoreAcr(Or(Or(Or(ACR_PRFTEN, ACR_ICEN), ACR_DCEN), ACR_LATENCY_5WS));
      ClearSw(cfgr);
      ghost var a := ClearCfgr(Not32(CFGR_SW));
      CfgrMasks(Fields(cfgr));
      a := SetCfgr(CFGR_SW_PLL);
      ready := WaitForSwitch(window);
    }

    /** The whole branch. */
    method RunFromPll(window: nat) returns (outcome: Outcome)
      requires Watched() && Fields(cfgr) == RESET_FIELDS && HseOn(cr) && hseSeen
      modifies this`cr, this`cfgr, this`pllcfgr, this`acr, this`apb1enr, this`pwrCr
      modifies this`answers, this`hseSeen, this`pllSeen, this`log
      ensures Watched() && old(answers) <= answers && old(log) <= log
      ensures outcome != HseFailed && Reached(outcome, Now(), old(pllcfgr), old(acr), window, answers)
      ensures Switches(cr) == Switches(old(cr)) + {24}
      ensures apb1enr == Or32(old(apb1enr), APB1ENR_PWREN) && pwrCr == Or32(old(pwrCr), PWR_CR_VOS)
    {
      hide SafeSince, SwitchSafe, Bit, Fields, SeenCr, Armed, Or32;
      SetPrescalers();
      StartPll();
      var ready := WaitForPll(window);
      if !ready {
        return WaitingForPll;
      }
      ready := SwitchToPll(window);
      outcome := if ready then Done else WaitingForSwitch;
    }

    /** From the reset values of CFGR and PLLCFGR. Whether the PLL is started depends only on the one load
        of CR after the HSE wait. */
    method SetSysClock(timeout: U32, window: nat) returns (outcome: Outcome, polls: nat)
      requires Watched() && Fields(cfgr) == RESET_FIELDS
      modifies this`cr, this`cfgr, this`pllcfgr, this`acr, this`apb1enr, this`pwrCr
      modifies this`answers, this`hseSeen, this`pllSeen, this`log
      ensures Watched() && old(answers) <= answers && old(log) <= log
      ensures outcome == HseFailed ==> cfgr == old(cfgr) && CfgrKept(log, |old(log)|, cfgr)
      ensures 1 <= polls <= 0x1_0000_0000 && (timeout >= 1 ==> polls <= timeout)
      ensures |answers| >= |old(answers)| + 2 + polls
      ensures forall j | |old(answers)| < j < |old(answers)| + polls :: !HseReady(answers[j])
      ensures timeout >= 1 && polls < timeout ==> HseReady(answers[|old(answers)| + polls])
      ensures timeout == 0 && polls < 0x1_0000_0000 ==> HseReady(answers[|old(answers)| + polls])
      ensures outcome == HseFailed <==> !HseReady(answers[|old(answers)| + 1 + polls])
      ensures Reached(outcome, Now(), old(pllcfgr), old(acr), window, answers)
      ensures Switches(cr) == Switches(old(cr)) + if outcome == HseFailed then {16} else {16, 24}
      ensures apb1enr == if outcome == HseFailed then old(apb1enr) else Or32(old(apb1enr), APB1ENR_PWREN)
      ensures pwrCr == if outcome == HseFailed then old(pwrCr) else Or32(old(pwrCr), PWR_CR_VOS)
    {
      hide SafeSince, SwitchSafe, Bit, Fields, And, SeenCr, Armed, Or32;
      ResetMasks();
      SwitchMasks();
      ghost var a := SetCr(CR_HSEON);
      polls := WaitForHse(timeout);
      label waited:
      var v;
      v, a := LoadCr();
      SeenCrEffect(old@waited(Now()), a);
      FlagTest(v);
      if And(v, CR_HSERDY) == 0 {
        outcome := HseFailed;
      } else {
        outcome := RunFromPll(window);
      }
    }

    /** The resets at the start of `SystemInit`; the first state claimed safe is the reset of CFGR. */
    method ResetClocks()
      modifies this`cr, this`cfgr, this`pllcfgr, this`cir, this`answers, this`hseSeen, this`pllSeen
      modifies this`log, this`watching, this`watch
      ensures Valid() && watching && watch == |old(log)| + 2 < |log| && old(log) <= log && CfgrKept(log, watch, cfgr)
      ensures Fields(cfgr) == RESET_FIELDS && pllcfgr == PLLCFGR_RESET && cir == 0
      ensures |answers| == |old(answers)| + 3 && old(answers) <= answers
      ensures Switches(cr) == Switches(old(cr)) + {0} - {16, 18, 19, 24}
    {
      hide SafeSince, SwitchSafe, Fields, Bit;
      ResetCfgr();
      ResetPll();
      cir := 0x0000_0000;
    }

    method ResetCfgr()
      modifies this`cr, this`cfgr, this`answers, this`hseSeen, this`pllSeen, this`log, this`watching, this`watch
      ensures Valid() && watching && watch == |old(log)| + 2 < |log| == watch + 1 && old(log) <= log
      ensures CfgrKept(log, watch, cfgr) && Fields(cfgr) == RESET_FIELDS
      ensures |answers| == |old(answers)| + 1 && old(answers) <= answers
      ensures Switches(cr) == Switches(old(cr)) + {0}
    {
      hide SafeSince, SwitchSafe, Bit, Fields, Merged, Armed, SeenCr;
      SwitchMasks();
      watching, watch := true, |log| + 2;
      StartWatch(log, watch);
      ghost var a := SetCr(CR_HSION);
      ClearedCfgr(Now());
      Unselected(WithCfgr(Now(), 0));
      StoreCfgr(0x0000_0000);
    }

    method ResetPll()
      requires Watched() && Fields(cfgr).sw != 2
      modifies this`cr, this`pllcfgr, this`answers, this`hseSeen, this`pllSeen, this`log
      ensures Watched() && old(log) <= log && CfgrKept(log, |old(log)|, cfgr)
      ensures pllcfgr == PLLCFGR_RESET
      ensures |answers| == |old(answers)| + 2 && old(answers) <= answers
      ensures Switches(cr) == Switches(old(cr)) - {16, 18, 19, 24}
    {
      hide SafeSince, SwitchSafe, Bit, Fields, Merged, Armed, SeenCr;
      ClearMasks(Switches(cr), cr);
      ghost var a := ClearCr(0xFEF6_FFFF);
      Unselected(WithPllcfgr(Now(), PLLCFGR_RESET));
      StorePllcfgr(PLLCFGR_RESET);
      ClearMasks(Switches(cr), cr);
      a := ClearCr(0xFFFB_FFFF);
    }

    /** Whatever the registers hold at first, every state from the reset of CFGR on is safe: when SW
        selects the PLL, both oscillators are on and have been seen ready, PLLCFGR holds the intended
        word, the flash runs with five wait states and the prescalers are set. */
    method SystemInit(timeout: U32, window: nat) returns (outcome: Outcome, polls: nat)
      modifies this`cr, this`cfgr, this`pllcfgr, this`acr, this`apb1enr, this`pwrCr, this`cir, this`vtor
      modifies this`answers, this`hseSeen, this`pllSeen, this`log, this`watching, this`watch
      ensures Valid() && watching && watch == |old(log)| + 2 < |log| && old(log) <= log
      ensures outcome == HseFailed ==> CfgrKept(log, watch, cfgr)
      ensures forall i | |old(log)| + 2 <= i < |log| && log[i].cfgr % 4 == 2 ::
                && log[i].hseSeen && log[i].pllSeen
                && log[i].cr / 0x1_0000 % 2 == 1 && log[i].cr / 0x100_0000 % 2 == 1
                && log[i].pllcfgr == 0x0740_5408 && log[i].acr % 0x10 == 5
                && log[i].cfgr == 0x9402 + 4 * (log[i].cfgr / 4 % 4)
      ensures 1 <= polls <= 0x1_0000_0000 && (timeout >= 1 ==> polls <= timeout)
      ensures |answers| >= |old(answers)| + 5 + polls && old(answers) <= answers
      ensures forall j | |old(answers)| + 4 <= j < |old(answers)| + 3 + polls :: !HseReady(answers[j])
      ensures timeout >= 1 && polls < timeout ==> HseReady(answers[|old(answers)| + 3 + polls])
      ensures timeout == 0 && polls < 0x1_0000_0000 ==> HseReady(answers[|old(answers)| + 3 + polls])
      ensures outcome == HseFailed <==> !HseReady(answers[|old(answers)| + 4 + polls])
      ensures Reached(outcome, Now(), PLLCFGR_RESET, old(acr), window, answers)
      ensures outcome == Done ==> cfgr == 0x940A && pllcfgr == 0x0740_5408 && acr == 0x705
      ensures outcome == HseFailed ==> cfgr == 4 * (cfgr / 4 % 4) && pllcfgr == 0x2400_3010 && acr == old(acr)
      ensures outcome == WaitingForPll ==>
                cfgr == 0x9400 + 4 * (cfgr / 4 % 4) && pllcfgr == 0x0740_5408 && acr == old(acr)
      ensures outcome == WaitingForSwitch ==>
                cfgr == 0x9402 + 4 * (cfgr / 4 % 4) && pllcfgr == 0x0740_5408 && acr == 0x705
      ensures cir == 0 && vtor == 0x0800_0000
      ensures forall i | 0 <= i < 32 :: Bit(apb1enr, i) <==> Bit(old(apb1enr), i) || (i == 28 && outcome != HseFailed)
      ensures forall i | 0 <= i < 32 ::
                Bit(pwrCr, i) <==> Bit(old(pwrCr), i) || ((i == 14 || i == 15) && outcome != HseFailed)
      ensures Switches(cr) == Switches(old(cr)) + {0} - {18, 19, 24} + if outcome == HseFailed then {16} else {16, 24}
      ensures apb1enr == if outcome == HseFailed then old(apb1enr) else Or32(old(apb1enr), APB1ENR_PWREN)
      ensures pwrCr == if outcome == HseFailed then old(pwrCr) else Or32(old(pwrCr), PWR_CR_VOS)
    {
      hide SafeSince, Bit, Fields, Reached, Or32;
      ResetClocks();
      outcome, polls := SetSysClock(timeout, window);
      LogInNumbers(log, watch);
      ReachedInNumbers(outcome, Now(), old(acr), window, answers);
      PowerBits(old(apb1enr), old(pwrCr));
      NoOffset();
      vtor := Or32(FLASH_BASE, VECT_TAB_OFFSET);
    }

    // ---------- Frequencies ----------

    /** The switch on the status bits, which both functions below begin with. `defined` is false where the
        source divides by a PLLM of 0. */
    method SelectedClock(tmp: nat, ghost sws: nat) returns (defined: bool, clock: U32)
      requires tmp == 4 * sws && sws <= 3
      ensures defined <==> (sws == 2 ==> PllM(pllcfgr) > 0)
      ensures defined ==> clock == SysClk(sws, pllcfgr, osc)
    {
      hide And, Shr, PllVco, Div32;
      defined, clock := true, 0;
      if tmp == 0x00 {
        clock := osc.hsi;
      } else if tmp == 0x04 {
        clock := osc.hse;
      } else if tmp == 0x08 {
        var pllsource := Shr(And(pllcfgr, 0x0040_0000), 22);
        var pllm := And(pllcfgr, 0x3F);
        if pllm == 0 {
          return false, 0;
        }
        var pllvco: U32;
        if pllsource != 0 {
          pllvco := PllVco(osc.hse, pllm, Shr(And(pllcfgr, 0x7FC0), 6));
        } else {
          pllvco := PllVco(osc.hsi, pllm, Shr(And(pllcfgr, 0x7FC0), 6));
        }
        var pllp := (Shr(And(pllcfgr, 0x3_0000), 16) + 1) * 2;
        clock := Div32(pllvco, pllp);
      } else {
        clock := osc.hsi;
      }
    }

    /** A load of CFGR that is used for its prescalers only. */
    method LoadPrescalers() returns (v: U32)
      requires Steady()
      modifies this`cfgr, this`answers, this`log
      ensures Valid() && |answers| == |old(answers)| + 1 && old(answers) <= answers
      ensures log == old(log) + [Now()] && v == cfgr && Fields(v) == Fields(old(cfgr))
    {
      hide SafeSince, SwitchSafe, Fields, Sws, Merged;
      ghost var a;
      v, a := LoadCfgr();
      SeenCfgrEffect(old(Now()), a);
    }

    /** A load of CFGR that is used for its switch status: `a` is what the hardware answers. */
    method LoadStatus() returns (tmp: U32, ghost a: U32)
      requires Steady()
      modifies this`cfgr, this`answers, this`log
      ensures Valid() && answers == old(answers) + [a]
      ensures log == old(log) + [Now()] && Fields(cfgr) == Fields(old(cfgr))
      ensures tmp == 4 * Sws(a) && Sws(cfgr) == Sws(a) <= 3
    {
      hide SafeSince, SwitchSafe, Fields, Sws, Merged, And;
      var v;
      v, a := LoadCfgr();
      SeenCfgrEffect(old(Now()), a);
      StatusTest(v);
      tmp := And(v, CFGR_SWS);
    }

    /** Whatever switch status the load of CFGR returns, the result is the core clock for it. */
    method SystemCoreClockUpdate() returns (defined: bool, ghost a: U32)
      requires Steady()
      modifies this`cfgr, this`answers, this`log, this`systemCoreClock
      ensures Valid() && old(log) <= log && Fields(cfgr) == Fields(old(cfgr)) && old(answers) + [a] <= answers
      ensures defined <==> (Sws(a) == 2 ==> PllM(pllcfgr) > 0)
      ensures defined ==> |log| == |old(log)| + 2 && Sws(log[|old(log)|].cfgr) == Sws(a)
      ensures Fields(old(cfgr)).hpre < 16
      ensures defined ==> systemCoreClock == CoreClock(Sws(a), Fields(old(cfgr)).hpre, pllcfgr, osc)
      ensures defined <==> (a / 4 % 4 == 2 ==> pllcfgr % 0x40 > 0)
      ensures var d := AhbDivisor(old(cfgr) / 0x10 % 0x10);
              && (defined && (a / 4 % 4 == 0 || a / 4 % 4 == 3) ==> systemCoreClock == osc.hsi / d)
              && (defined && a / 4 % 4 == 1 ==> systemCoreClock == osc.hse / d)
              && (defined && a / 4 % 4 == 2 ==> (
                    systemCoreClock
                    == (if pllcfgr / 0x40_0000 % 2 == 1 then osc.hse else osc.hsi)
                       / (pllcfgr % 0x40) * (pllcfgr / 0x40 % 0x200)
                       % 0x1_0000_0000 / ((pllcfgr / 0x1_0000 % 4 + 1) * 2) / d))
    {
      hide SafeSince, SwitchSafe, Fields, Sws, And, Shr, Field, SysClk, PllM, CoreClock, AhbDivisor, SeenCfgr;
      HpreIndex(cfgr);
      FieldsAre(cfgr);
      FactorOfWord(pllcfgr);
      var tmp, clock, v;
      tmp, a := LoadStatus();
      FieldsAre(a);
      defined, clock := SelectedClock(tmp, Sws(a));
      if !defined {
        return;
      }
      systemCoreClock := clock;
      v := LoadPrescalers();
      HpreIndex(v);
      var shift := AHB_PRESC_TABLE[Shr(And(v, CFGR_HPRE), 4)];
      ShrBound(systemCoreClock, shift);
      systemCoreClock := Shr(systemCoreClock, shift);
      UnshiftedCoreClock(Sws(a), Fields(old(cfgr)).hpre, pllcfgr, osc);
      CoreClockIs(Sws(a), Fields(old(cfgr)).hpre, pllcfgr, osc);
    }

    /** `RCC_GetClocksFreq`, likewise. */
    method GetClocksFreq() returns (defined: bool, f: Frequencies, ghost a: U32)
      requires Steady()
      modifies this`cfgr, this`answers, this`log
      ensures Valid() && old(log) <= log && Fields(cfgr) == Fields(old(cfgr)) && old(answers) + [a] <= answers
      ensures defined <==> (Sws(a) == 2 ==> PllM(pllcfgr) > 0)
      ensures var p := Fields(old(cfgr));
              && p.hpre < 16 && p.ppre1 < 8 && p.ppre2 < 8
              && (defined ==> f == Clock.GetClocksFreq(Sws(a), p.hpre, p.ppre1, p.ppre2, pllcfgr, osc))
      ensures defined ==>
                && f.sysclk == SysClk(Sws(a), pllcfgr, osc)
                && f.hclk == f.sysclk / RccDivisor(old(cfgr) / 0x10 % 0x10)
                && f.pclk1 == f.hclk / ApbDivisor(old(cfgr) / 0x400 % 8)
                && f.pclk2 == f.hclk / ApbDivisor(old(cfgr) / 0x2000 % 8)
    {
      hide SafeSince, SwitchSafe, Fields, Sws, And, Shr, Field, SysClk, PllM;
      HpreIndex(cfgr);
      PpreIndices(cfgr);
      f := Frequencies(0, 0, 0, 0);
      var tmp, sysclk, v;
      tmp, a := LoadStatus();
      defined, sysclk := SelectedClock(tmp, Sws(a));
      if !defined {
        return;
      }
      v := LoadPrescalers();
      HpreIndex(v);
      var presc := APB_AHB_PRESC_TABLE[Shr(And(v, CFGR_HPRE), 4)];
      ShrBound(sysclk, presc);
      var hclk: U32 := Shr(sysclk, presc);
      v := LoadPrescalers();
      PpreIndices(v);
      presc := APB_AHB_PRESC_TABLE[Shr(And(v, CFGR_PPRE1), 10)];
      ShrBound(hclk, presc);
      var pclk1: U32 := Shr(hclk, presc);
      v := LoadPrescalers();
      PpreIndices(v);
      presc := APB_AHB_PRESC_TABLE[Shr(And(v, CFGR_PPRE2), 13)];
      ShrBound(hclk, presc);
      f := Frequencies(sysclk, hclk, pclk1, Shr(hclk, presc));
      ghost var p := Fields(old(cfgr));
      FieldsAre(old(cfgr));
      BusDivisors(Sws(a), p.hpre, p.ppre1, p.ppre2, pllcfgr, osc);
    }

    /** Bring-up and then the update, which is reached unless bring-up waits for ever. If the status that the
        update loads, at position `k`, follows the selection, it reports the HSI frequency after an HSE
        failure and the PLL's after success. */
    method InitAndUpdate(timeout: U32, window: nat) returns (outcome: Outcome, ghost k: nat)
      modifies this`cr, this`cfgr, this`pllcfgr, this`acr, this`apb1enr, this`pwrCr, this`cir, this`vtor
      modifies this`answers, this`hseSeen, this`pllSeen, this`log, this`watching, this`watch, this`systemCoreClock
      ensures Valid() && old(log) <= log
      ensures watching && (outcome == HseFailed || outcome == Done ==> watch < k == |log| - 2)
      ensures outcome == HseFailed && StatusFollows(log, watch, k) ==> systemCoreClock == osc.hsi
      ensures outcome == Done && StatusFollows(log, watch, k) ==> systemCoreClock == Wrap32(osc.hse / 8 * 336) / 2
    {
      hide SafeSince, SwitchSafe, Fields, Sws, Armed, CoreClock, PllM, Or32;
      var polls;
      outcome, polls := SystemInit(timeout, window);
      k := |log|;
      ghost var before := log;
      label booted:
      if outcome == HseFailed || outcome == Done {
        ghost var a;
        var defined;
        defined, a := SystemCoreClockUpdate();
        Reported(outcome, old@booted(Now()), old(acr), window, old@booted(answers), osc, Sws(a));
        if StatusFollows(log, watch, k) {
          FollowedStatus(outcome, before, watch, log, old@booted(Now()), window, old(acr), old@booted(answers));
        }
      }
    }
  }

  /** Both functions, one after the other, on any registers. The first reports the frequency whose error is
      bounded exactly when the product does not overflow; given the same status, both agree on HCLK exactly
      when HPRE is not one of 4 to 7, or the clock is 0. */
  method ReportAnyRegisters(osc: Oscillators, cr: U32, cfgr: U32, pllcfgr: U32, acr: U32)
      returns (defined: bool, clock: U32, again: bool, f: Frequencies, ghost a: U32, ghost b: U32)
    ensures defined <==> (Sws(a) == 2 ==> PllM(pllcfgr) > 0)
    ensures Fields(cfgr).hpre < 16
    ensures defined ==> clock == CoreClock(Sws(a), Fields(cfgr).hpre, pllcfgr, osc)
    ensures defined && Sws(a) == 2 ==>
              (clock == UnwrappedClock(pllcfgr, osc, Fields(cfgr).hpre) <==>
               PllSource(pllcfgr, osc) / PllM(pllcfgr) * PllN(pllcfgr) < 0x1_0000_0000)
    ensures defined && Sws(a) == Sws(b) ==>
              again && (f.hclk == clock <==> !(4 <= Fields(cfgr).hpre <= 7) || f.sysclk == 0)
  {
    hide Fields, Sws, PllM, PllN, PllP, PllSource, CoreClock, SysClk, Computed, Divided;
    HpreIndex(cfgr);
    PpreIndices(cfgr);
    var board := new Board(osc, cr, cfgr, pllcfgr, acr);
    defined, a := board.SystemCoreClockUpdate();
    clock := board.systemCoreClock;
    again, f, b := board.GetClocksFreq();
    var p := Fields(cfgr);
    if defined {
      if Sws(a) == 2 {
        CoreClockIsComputed(p.hpre, pllcfgr, osc);
      }
      if Sws(a) == Sws(b) {
        HclkAgrees(Sws(a), p.hpre, p.ppre1, p.ppre2, pllcfgr, osc);
      }
    }
  }

  function UnwrappedClock(pllcfgr: U32, osc: Oscillators, hpre: nat): nat
    requires PllM(pllcfgr) > 0 && hpre < 16
  {
    PllPRange(pllcfgr);
    Computed(PllSource(pllcfgr, osc), PllM(pllcfgr), PllN(pllcfgr), PllP(pllcfgr), AHB_PRESC_TABLE[hpre])
  }

  lemma FactorOfWord(w: U32)
    ensures PllM(w) == w % 0x40
  {
    hide PllM, PllN, PllP, PllFromHse, Field;
    FactorsAreFields(w);
  }

  lemma UnshiftedCoreClock(sws: nat, hpre: nat, w: U32, osc: Oscillators)
    requires (sws == 2 ==> PllM(w) > 0) && hpre < 16
    ensures CoreClock(sws, hpre, w, osc) == Shr(SysClk(sws, w, osc), AHB_PRESC_TABLE[hpre])
  {
  }

  lemma StartWatch(log: seq<Snapshot>, watch: nat)
    requires watch >= |log|
    ensures SafeSince(log, watch)
  {
  }

  lemma Unselected(s: Snapshot)
    requires Fields(s.cfgr).sw != 2
    ensures SwitchSafe(s)
  {
  }

  lemma LogInNumbers(log: seq<Snapshot>, watch: nat)
    requires SafeSince(log, watch)
    ensures forall i | watch <= i < |log| && log[i].cfgr % 4 == 2 ::
              && log[i].hseSeen && log[i].pllSeen
              && log[i].cr / 0x1_0000 % 2 == 1 && log[i].cr / 0x100_0000 % 2 == 1
              && log[i].pllcfgr == 0x0740_5408 && log[i].acr % 0x10 == 5
              && log[i].cfgr == 0x9402 + 4 * (log[i].cfgr / 4 % 4)
  {
    hide SwitchSafe;
    forall i | watch <= i < |log| && log[i].cfgr % 4 == 2 {
      SafeInNumbers(log[i]);
    }
  }

  /** The bits that bring-up sets in APB1ENR and in PWR->CR. */
  lemma PowerBits(apb1enr: U32, pwrCr: U32)
    ensures forall i | 0 <= i < 32 :: Bit(Or32(apb1enr, APB1ENR_PWREN), i) <==> Bit(apb1enr, i) || i == 28
    ensures forall i | 0 <= i < 32 :: Bit(Or32(pwrCr, PWR_CR_VOS), i) <==> Bit(pwrCr, i) || i == 14 || i == 15
  {
    hide Bit, Or;
    PowerMasks();
    forall i: nat | i < 32
      ensures Bit(Or32(apb1enr, APB1ENR_PWREN), i) <==> Bit(apb1enr, i) || i == 28
      ensures Bit(Or32(pwrCr, PWR_CR_VOS), i) <==> Bit(pwrCr, i) || i == 14 || i == 15
    {
      PowerBit(apb1enr, pwrCr, i);
    }
  }

  lemma PowerBit(apb1enr: U32, pwrCr: U32, i: nat)
    ensures Bit(Or32(apb1enr, APB1ENR_PWREN), i) <==> Bit(apb1enr, i) || i == 28
    ensures Bit(Or32(pwrCr, PWR_CR_VOS), i) <==> Bit(pwrCr, i) || i == 14 || i == 15
  {
    hide Bit, Or, Pow2;
    PowerMasks();
    BitOps(apb1enr, APB1ENR_PWREN, i);
    BitOps(pwrCr, PWR_CR_VOS, i);
    BitOps(Pow2(14), Pow2(15), i);
    BitPow2(28, i);
    BitPow2(14, i);
    BitPow2(15, i);
  }

  lemma PowerMasks()
    ensures APB1ENR_PWREN == Pow2(28) && PWR_CR_VOS == Or(Pow2(14), Pow2(15))
  {
    hide Or;
    Pow2Small();
    Pow2Fields();
    Pow2Add(8, 6);
    ShlIsTimes(1, 15);
    OrAbove(0x4000, 1, 15, 0x8000);
  }

  lemma ReachedInNumbers(outcome: Outcome, s: Snapshot, acr: U32, window: nat, answers: seq<U32>)
    requires Reached(outcome, s, PLLCFGR_RESET, acr, window, answers)
    ensures var status := s.cfgr / 4 % 4;
      match outcome
      case Done => s.cfgr == 0x940A && s.pllcfgr == 0x0740_5408 && s.acr == 0x705
      case HseFailed => s.cfgr == 4 * status && s.pllcfgr == 0x2400_3010 && s.acr == acr
      case WaitingForPll => s.cfgr == 0x9400 + 4 * status && s.pllcfgr == 0x0740_5408 && s.acr == acr
      case WaitingForSwitch => s.cfgr == 0x9402 + 4 * status && s.pllcfgr == 0x0740_5408 && s.acr == 0x705
  {
    hide Fields, Sws, Bit, Field;
    CfgrIs(s.cfgr, Fields(s.cfgr));
  }

  /** What each outcome means for the registers, and, for the endless waits, for the hardware. */
  ghost predicate Reached(outcome: Outcome, s: Snapshot, pllcfgr: U32, acr: U32, window: nat, answers: seq<U32>) {
    match outcome
    case Done => Fields(s.cfgr) == F40_FIELDS && Armed(s) && s.acr == 0x705 && Sws(s.cfgr) == 2
    case HseFailed => Fields(s.cfgr) == RESET_FIELDS && s.pllcfgr == pllcfgr && s.acr == acr
    case WaitingForPll =>
      && Fields(s.cfgr) == F40_FIELDS.(sw := 0) && s.pllcfgr == PLLCFGR_F40 && s.acr == acr
      && |answers| >= window && forall j | |answers| - window <= j < |answers| :: !PllReady(answers[j])
    case WaitingForSwitch =>
      && Fields(s.cfgr) == F40_FIELDS && Armed(s) && s.acr == 0x705
      && |answers| >= window && forall j | |answers| - window <= j < |answers| :: Sws(answers[j]) != 2
  }

  /** A status that follows the selection names HSI after an HSE failure, and the PLL after success. */
  lemma FollowedStatus(outcome: Outcome, before: seq<Snapshot>, watch: nat, log: seq<Snapshot>, s: Snapshot,
                       window: nat, acr: U32, answers: seq<U32>)
    requires watch < |before| < |log| && before <= log && before[|before| - 1] == s
    requires Reached(outcome, s, PLLCFGR_RESET, acr, window, answers)
    requires outcome == HseFailed ==> CfgrKept(before, watch, s.cfgr)
    requires StatusFollows(log, watch, |before|)
    ensures outcome == HseFailed ==> Sws(log[|before|].cfgr) == 0
    ensures outcome == Done ==> Sws(log[|before|].cfgr) == 2
  {
    hide Fields, Sws, Armed;
  }

  /** The frequency reported after each outcome, by the status. The divisor PLLM is 16 after an HSE failure and
      8 after success. */
  lemma Reported(outcome: Outcome, s: Snapshot, acr: U32, window: nat, answers: seq<U32>, osc: Oscillators, sws: nat)
    requires Reached(outcome, s, PLLCFGR_RESET, acr, window, answers) && (outcome == Done || outcome == HseFailed)
    ensures Fields(s.cfgr).hpre == 0 && PllM(s.pllcfgr) == if outcome == Done then 8 else 16
    ensures outcome == Done ==> CoreClock(2, 0, s.pllcfgr, osc) == Wrap32(osc.hse / 8 * 336) / 2
    ensures CoreClock(0, 0, s.pllcfgr, osc) == osc.hsi
  {
    hide Fields, PllM, PllWord, CoreClock;
    ResetFactor();
    HsiReported(s.pllcfgr, osc);
    if outcome == Done {
      AfterBringUp(s.pllcfgr, osc);
    }
  }

  lemma ResetFactor()
    ensures PllM(PLLCFGR_RESET) == 16
  {
    hide PllM, PllN, PllP, PllFromHse, Field;
    FactorsAreFields(PLLCFGR_RESET);
  }

  lemma HsiReported(w: U32, osc: Oscillators)
    ensures CoreClock(0, 0, w, osc) == osc.hsi
  {
  }
}
