/**
 The interrupt controller driver over its memory-mapped registers. Every method is proved against one
 step of the abstract controller; `Execute` carries that to every finite sequence of calls.
*/
module Nvic {
  import opened Bits
  import opened Priority
  import opened NvicRegisters
  import C = Controller

  class Driver {
    const prioBits: nat
    const enable: array<U32>
    const ip: array<U8>
    const shp: array<U8>
    var aircr: U32

    /** Every word written to AIRCR so far. */
    ghost var aircrWrites: seq<U32>

    ghost predicate Valid()
      reads this, enable, ip, shp
    {
      && PriorityBits(prioBits)
      && ip != shp
      && Consistent(Regs(), prioBits)
      && forall i | 0 <= i < |aircrWrites| :: KeyedAndQuiet(aircrWrites[i])
    }

    ghost function Regs(): Registers
      reads this, enable, ip, shp
    {
      Registers(enable[..], ip[..], shp[..], aircr)
    }

    ghost function Abs(): (s: C.State)
      requires Valid()
      reads this, enable, ip, shp
      ensures C.WellFormed(s, prioBits)
    {
      ViewWellFormed(Regs(), prioBits);
      View(Regs(), prioBits)
    }

    /** The reset state: nothing enabled, every priority 0, grouping 0. */
    constructor (prioBits: nat)
      requires PriorityBits(prioBits)
      ensures Valid() && this.prioBits == prioBits && fresh(enable) && fresh(ip) && fresh(shp)
      ensures Abs() == C.RESET && aircrWrites == []
    {
      this.prioBits := prioBits;
      enable := new U32[ENABLE_WORDS](_ => 0);
      ip := new U8[IP_BYTES](_ => 0);
      shp := new U8[SHP_BYTES](_ => 0);
      aircr := AIRCR_KEY_READ;
      aircrWrites := [];
      new;
      ResetView(Regs(), this.prioBits);
    }

    // ---------- Register writes ----------

    method WriteIser(k: nat, w: U32)
      requires k < enable.Length
      modifies enable
      ensures enable[..] == old(enable[..])[k := AfterSetEnable(old(enable[k]), w)]
    {
      enable[k] := AfterSetEnable(enable[k], w);
    }

    method WriteIcer(k: nat, w: U32)
      requires k < enable.Length
      modifies enable
      ensures enable[..] == old(enable[..])[k := AfterClearEnable(old(enable[k]), w)]
    {
      enable[k] := AfterClearEnable(enable[k], w);
    }

    method WriteAircr(w: U32)
      modifies this`aircr, this`aircrWrites
      ensures aircr == AfterAircrWrite(old(aircr), w)
      ensures aircrWrites == old(aircrWrites) + [w]
    {
      aircr := AfterAircrWrite(aircr, w);
      aircrWrites := aircrWrites + [w];
    }

    // ---------- core_cm4.h ----------

    method SetPriorityGrouping(g: U32)
      requires Valid()
      modifies this`aircr, this`aircrWrites
      ensures Valid() && Abs() == C.Step(old(Abs()), prioBits, C.SetPriorityGrouping(g))
      ensures old(aircrWrites) <= aircrWrites && |aircrWrites| == |old(aircrWrites)| + 1
      ensures aircr / 0x100 % 8 == g % 8 && aircrWrites[|aircrWrites| - 1] / 0x1_0000 == 0x5FA
    {
      GroupingWordBound(aircr, g);
      GroupingWordParts(aircr, g);
      AircrAfterWrite(aircr, GroupingWord(aircr, g));
      LowThree(g);
      var group := And(g, 7);
      var value: nat := aircr;
      value := And(value, Not32(0xFFFF_0700));
      value := Or(Or(value, Shl(0x5FA, 16)), Shl(group, 8));
      WriteAircr(value);
      GroupFieldIs(aircr);
      KeyedAndQuietIs(value);
    }

    method GetPriorityGrouping() returns (g: U32)
      requires Valid()
      ensures g == Abs().group == aircr / 0x100 % 8
    {
      GroupFieldIs(aircr);
      Pow2Small();
      ShlIsTimes(7, 8);
      AndField(aircr, 8, 3);
      SumParts(Field(aircr, 8, 3), 8, 0);
      assert Shr(And(aircr, 0x700), 8) == GroupField(aircr);
      g := Shr(And(aircr, 0x700), 8);
    }

    method EnableIRQ(irq: int)
      requires Valid() && 0 <= irq < C.IRQ_COUNT
      modifies enable
      ensures Valid() && Abs() == C.Step(old(Abs()), prioBits, C.EnableIRQ(irq))
      ensures forall i | 0 <= i < 256 ::
                Bit(enable[i / 32], i % 32) <==> i == irq || Bit(old(enable[i / 32]), i % 32)
    {
      hide BitMask, Bit;
      SetEnableBits(Regs(), irq);
      WordIndexIs(irq);
      ViewEnable(Regs(), prioBits, irq);
      WriteIser(WordIndex(irq), BitMask(irq));
    }

    method DisableIRQ(irq: int)
      requires Valid() && 0 <= irq < C.IRQ_COUNT
      modifies enable
      ensures Valid() && Abs() == C.Step(old(Abs()), prioBits, C.DisableIRQ(irq))
      ensures forall i | 0 <= i < 256 ::
                Bit(enable[i / 32], i % 32) <==> i != irq && Bit(old(enable[i / 32]), i % 32)
    {
      hide BitMask, Bit;
      ClearEnableBits(Regs(), irq);
      WordIndexIs(irq);
      ViewDisable(Regs(), prioBits, irq);
      WriteIcer(WordIndex(irq), BitMask(irq));
    }

    method SetPriority(irq: int, priority: U32)
      requires Valid() && C.LOWEST_IRQ <= irq < C.IRQ_COUNT
      modifies ip, shp
      ensures Valid() && Abs() == C.Step(old(Abs()), prioBits, C.SetPriority(irq, priority))
      ensures irq >= 0 ==> ip[irq] == priority % Pow2(prioBits) * Pow2(8 - prioBits) && shp[..] == old(shp[..])
      ensures irq < 0 ==> shp[irq + 12] == priority % Pow2(prioBits) * Pow2(8 - prioBits) && ip[..] == old(ip[..])
      ensures forall i | 0 <= i < 240 && i != irq :: ip[i] == old(ip[i])
      ensures forall i | 0 <= i < 12 && i != irq + 12 :: shp[i] == old(shp[i])
    {
      PriorityByteIs(priority, prioBits);
      ViewPriority(Regs(), prioBits, irq, priority);
      if irq < 0 {
        SystemIndexIs(irq);
        shp[SystemIndex(irq)] := PriorityByte(priority, prioBits);
      } else {
        ip[irq] := PriorityByte(priority, prioBits);
      }
    }

    /** The returned value determines the stored byte. */
    method GetPriority(irq: int) returns (priority: nat)
      requires Valid() && C.LOWEST_IRQ <= irq < C.IRQ_COUNT
      ensures priority == Abs().priority[irq]
      ensures Shl(priority, 8 - prioBits) == ByteAt(ip[..], shp[..], irq)
      ensures priority == (if irq >= 0 then ip[irq] else shp[irq + 12]) / Pow2(8 - prioBits)
    {
      if irq < 0 {
        SystemIndexIs(irq);
        ByteValueIs(shp[irq + 12], prioBits);
        priority := Shr(shp[SystemIndex(irq)], 8 - prioBits);
      } else {
        ByteValueIs(ip[irq], prioBits);
        priority := Shr(ip[irq], 8 - prioBits);
      }
    }

    // ---------- misc.c ----------

    method PriorityGroupConfig(word: U32)
      requires Valid() && C.GroupWord(word)
      modifies this`aircr, this`aircrWrites
      ensures Valid() && Abs() == C.Step(old(Abs()), prioBits, C.PriorityGroupConfig(word))
      ensures old(aircrWrites) <= aircrWrites && |aircrWrites| == |old(aircrWrites)| + 1
      ensures aircr / 0x100 % 8 == word / 0x100 && aircrWrites[|aircrWrites| - 1] == 0x5FA_0000 + word
    {
      hide Or, Field;
      ConfigWordIsSum(word);
      ConfigWordParts(word);
      AircrAfterWrite(aircr, ConfigWord(word));
      WriteAircr(Or(0x05FA_0000, word));
      GroupFieldIs(aircr);
    }

    method Init(channel: U8, preempt: U8, sub: U8, cmd: bool)
      requires Valid() && C.Allowed(Abs().group, prioBits, C.Init(channel, preempt, sub, cmd))
      modifies ip, enable
      ensures Valid() && Abs() == C.Step(old(Abs()), prioBits, C.Init(channel, preempt, sub, cmd))
      ensures cmd ==> var g := aircr / 0x100 % 8;
                && 3 <= g
                && ip[channel] == (preempt % Pow2(7 - g) * Pow2(g - 3) + sub % Pow2(g - 3)) * 0x10
      ensures forall i | 0 <= i < 240 && (i != channel || !cmd) :: ip[i] == old(ip[i])
      ensures forall i | 0 <= i < 256 ::
                Bit(enable[i / 32], i % 32)
                <==> if i == channel then cmd else Bit(old(enable[i / 32]), i % 32)
    {
      hide And, Or, Shl, Shr, View, Aligned, Encode, Bit, BitMask;
      GroupFieldIs(aircr);
      WordIndexIs(channel);
      var tmppriority: U8, tmppre: U8, tmpsub: U8 := 0x00, 0x00, 0x0F;
      if cmd {
        ViewInit(Regs(), channel, preempt, sub);
        InitByteIs(aircr, preempt, sub, aircr / 0x100 % 8);
        SetEnableBits(Regs(), channel);
        InitLocals(aircr, preempt, sub);
        tmppriority := Wrap8(Shr(Wrap32(0x700 - And(aircr, 0x700)), 0x08));
        tmppre := Wrap8(0x4 - tmppriority);
        tmpsub := Shr(tmpsub, tmppriority);

        tmppriority := Wrap8(Shl(preempt, tmppre));
        tmppriority := Or(tmppriority, And(sub, tmpsub));

        tmppriority := Wrap8(Shl(tmppriority, 0x04));
        assert tmppriority == InitByte(aircr, preempt, sub);

        ip[channel] := tmppriority;

        WriteIser(WordIndex(channel), BitMask(channel));
      } else {
        ViewDisable(Regs(), prioBits, channel);
        ClearEnableBits(Regs(), channel);
        WriteIcer(WordIndex(channel), BitMask(channel));
      }
    }

    // ---------- Any sequence of calls ----------

    /** Every finite allowed sequence of calls, in any order, leaves the registers in exactly the state
        that the abstract run describes. */
    method Execute(calls: seq<C.Call>)
      requires Valid() && C.AllowedRun(Abs(), prioBits, calls)
      modifies this`aircr, this`aircrWrites, enable, ip, shp
      ensures Valid() && Abs() == C.Run(old(Abs()), prioBits, calls) && old(aircrWrites) <= aircrWrites
    {
      for i := 0 to |calls|
        invariant Valid() && Abs() == C.Run(old(Abs()), prioBits, calls[..i]) && old(aircrWrites) <= aircrWrites
      {
        assert calls[..i + 1][..i] == calls[..i];
        assert C.Allowed(Abs().group, prioBits, calls[i]);
        Dispatch(calls[i]);
      }
      assert calls[..|calls|] == calls;
    }

    method Dispatch(call: C.Call)
      requires Valid() && C.Allowed(Abs().group, prioBits, call)
      modifies this`aircr, this`aircrWrites, enable, ip, shp
      ensures Valid() && Abs() == C.Step(old(Abs()), prioBits, call) && old(aircrWrites) <= aircrWrites
    {
      hide View, Consistent, C.Step;
      match call
      case EnableIRQ(irq) => EnableIRQ(irq);
      case DisableIRQ(irq) => DisableIRQ(irq);
      case SetPriority(irq, priority) => SetPriority(irq, priority);
      case SetPriorityGrouping(g) => SetPriorityGrouping(g);
      case PriorityGroupConfig(word) => PriorityGroupConfig(word);
      case Init(channel, preempt, sub, cmd) => Init(channel, preempt, sub, cmd);
    }
  }
}
