# Verified model of the STM32F4 support layer

A Dafny model of the parts of an STM32F407 Ethernet project where the code computes with packed words and
shared state, and proofs of what those parts promise:

- **Interrupt priorities and enables** (`Bits`, `Priority`, `Controller`, `NvicRegisters`, `Nvic`). The CMSIS
  functions and the vendor functions write the same registers in different ways. Every call, and every finite
  sequence of calls in any mixture, is proved to do to the registers exactly what one small abstract controller
  says; the order in which the processor then serves and preempts interrupts is proved to be the documented one.
- **SysTick and the ITM mailbox** (`SysTick`, `ItmMailbox`). The period of the timer over an unbounded run, and
  in-order exactly-once delivery through a one-word mailbox under every interleaving of single loads and stores.
- **Clock bring-up** (`Clock`, `ClockRegisters`, `BringUp`). `SystemInit` and `SetSysClock` run against hardware
  that may answer every load with any flags. In every state from the reset of CFGR on, the PLL is selected only
  when everything it needs is in place. The frequency arithmetic has a round trip, an exact overflow condition
  and an error bound that some source reaches for every choice of factors (`Divisors` has the number theory).
- **The block allocator** (`Malloc`, `PoolRuns`) that serves the network stack: its table of lengths describes disjoint
  regions, and determines them; when allocating and releasing undo each other, and when they do not.
- **The Internet checksum** (`InternetSum`, `StandardChecksum`, `InetChecksum`, `ChecksumField`). Three versions
  of the loop compute one sum; a chain of buffers gives the checksum of the joined bytes; incremental updates
  keep a packet valid, with one exception.

Code that changes registers, tables or packets is a class or a method with `modifies`, proved against a function
of the old state; the order, round-trip and invariant theorems are lemmas about those functions. Machine words
are bounded naturals with C's operators defined bit by bit, so every wrap-around and truncation of the source is
written out. `NVIC` register behaviour follows ARM DDI 0403 (ARMv7-M Architecture Reference Manual), sections
B1.5.4, B3.2.6, B3.3 and B3.4. The number of priority bits, the oscillator frequencies and the HSE timeout are
parameters.

Check everything with `dafny verify dfyconfig.toml`.

## Where the code and its documentation differ

The model follows the code.

- `RCC_GetClocksFreq` and `SystemCoreClockUpdate` report different HCLK values exactly when HPRE is 4 to 7 (and
  the clock is not 0): the first looks HPRE up in a table whose entries 4 to 7 serve the APB prescalers
  (`Clock.HclkAgrees`, `Clock.HclkDiffers`).
- `NVIC_Init` is documented to need a grouping call first. From reset (grouping 0) its shift count is 253 and the
  shift undefined in C; it is defined exactly for groupings 3 to 7 (`NvicRegisters.ShiftDefined`);
  `Controller.GroupingFirst` says of every sequence of calls whether it stays defined.
- `SysTick_Config(1)` reports success, but no interrupt ever comes (`SysTick.PendsEveryPeriod`).
- The mailbox delivers exactly once if and only if at most one consumer reads it
  (`ItmMailbox.DeliveryIffOneConsumer`).
- The initial `SystemCoreClock` is right for an 8 MHz crystal, up to 7 Hz more, and, over all 32-bit values, for
  one more window where the 32-bit product wraps to the same value (`Clock.InitialValueIsRight`).
- The allocator keeps a block count in 16 bits. A request of 65536 blocks or more should fail in any pool, but is
  served with what is left of the count (`Malloc.ServedProperly`, `Malloc.LargeEnough`, `Malloc.OversizedServed`).
  A request of 65536 blocks, of which nothing is left, hands out a block of a live region a second time, and
  releasing it damages that region (`Malloc.HandedOutAgain`, `Malloc.RoundTrip`).
- `mymem_free` does not check that its offset is where a region starts. From inside a region it leaves a table
  that no longer fits the live regions, and it writes beyond the table if fewer entries follow than the region has
  blocks (`Malloc.FreeDescribes`, `Malloc.ReleaseInTable`, `Malloc.OverrunExample`).
- The echo reply of a request that is zero but for type and checksum does not pass the receiver's check
  (`ChecksumField.EchoOfZeros`); a forwarded header with TTL 0 wraps to 255 and no longer fits its checksum
  (`ChecksumField.DecrementTtl`).

## Model

| member | source | states |
|---|---|---|
| Priority.Widths | project/CORE/core_cm4.h:1598-1599 | The preemption and subpriority widths always add up to the implemented bits, although the second is computed through an unsigned wrap-around |
| Priority.GroupTable | project/FWLIB/STM32F4xx_StdPeriph_Driver/src/misc.c:25-41 | With 4 priority bits, PriorityGroup_k gives k preemption and 4-k subpriority bits |
| Priority.ClampedGrouping | project/CORE/core_cm4.h:1584-1585 | Every grouping below 7-P encodes and decodes exactly as 7-P does, for all arguments |
| Priority.DecodeEncode | project/CORE/core_cm4.h:1592-1631 | Decoding an encoded priority returns both parts, each reduced to its width, for all 32-bit arguments |
| Priority.EncodeDecode | project/CORE/core_cm4.h:1592-1631 | Encoding a decoded priority returns its P low bits, for all 32-bit arguments |
| Priority.ByteIsShifted | project/CORE/core_cm4.h:1553-1555 | The stored byte is the P low bits, left-aligned, with zeros below |
| Priority.ReadBack | project/CORE/core_cm4.h:1550-1577 | Reading a stored priority back gives its P low bits |
| Priority.PriorityByteIs | project/CORE/core_cm4.h:1553-1555 | The stored byte is (priority mod 2^P) * 2^(8-P) |
| Priority.EncodeIs | project/CORE/core_cm4.h:1592-1605 | The encoded priority is (preempt mod 2^m) * 2^n + sub mod 2^n with the documented widths m and n |
| Priority.DecodeIs | project/CORE/core_cm4.h:1620-1631 | The decoded fields are priority / 2^n mod 2^m and priority mod 2^n |
| Priority.StoredOrder | project/FWLIB/STM32F4xx_StdPeriph_Driver/src/misc.c:48-51 | For in-range fields, comparing stored bytes and then IRQ numbers is comparing preemption priority, subpriority and IRQ number, in that order |
| Priority.GroupPriority | project/CORE/core_cm4.h:1592-1605 | The byte's bits above the binary point are the preemption priority, scaled when the point lies among unimplemented bits |
| Priority.PreemptionOrder | project/FWLIB/STM32F4xx_StdPeriph_Driver/src/misc.c:48-51 | One interrupt preempts another if and only if its preemption priority is smaller |
| Priority.RegroupingCoarsens | project/CORE/core_cm4.h:1435-1446 | Who preempts under a grouping does so under every smaller one, and no grouping inverts a preemption |
| Controller.EnabledByLastCall | project/CORE/core_cm4.h:1467-1483 | After any run an IRQ is enabled if and only if the last call that switched it switched it on (or none did and it was on) |
| Controller.PriorityIsLastWritten | project/CORE/core_cm4.h:1550-1556 | After any run an IRQ holds the priority written last, under the grouping then in force |
| Controller.PriorityUntouched | project/CORE/core_cm4.h:1550-1556 | Calls for other IRQs do not disturb an IRQ's priority |
| Controller.GroupIsLastSet | project/CORE/core_cm4.h:1435-1446 | The grouping in force is the one set last, by either function |
| Controller.GroupingFirst | project/FWLIB/STM32F4xx_StdPeriph_Driver/src/misc.c:131-132 | A sequence of calls meets every condition of every call if and only if the arguments are in range and, before each enabling NVIC_Init, the last grouping call set 3 to 7, or there was none and the grouping was there already |
| Controller.InitBeforeGrouping | project/FWLIB/STM32F4xx_StdPeriph_Driver/src/misc.c:131-132 | From reset, a run with an enabling NVIC_Init before any grouping call does not |
| Controller.InitIsTwoCalls | project/FWLIB/STM32F4xx_StdPeriph_Driver/src/misc.c:145-161 | NVIC_Init(enable) is SetPriority of the encoded fields followed by EnableIRQ |
| Controller.RunWellFormed | project/CORE/core_cm4.h:1550-1577 | In every reachable state each priority is below 2^P and the grouping at most 7 |
| Controller.SysTickStaysLeastUrgent | project/CORE/core_cm4.h:1682 | In every later state without a write to SysTick's priority, no byte is larger than SysTick's and SysTick preempts nothing under any grouping |
| NvicRegisters.SetOneBit | project/CORE/core_cm4.h:1470 | The ISER write enables the one IRQ and no other, over all 256 bits |
| NvicRegisters.ClearOneBit | project/CORE/core_cm4.h:1482 | The ICER write disables the one IRQ and no other |
| NvicRegisters.SystemIndexIs | project/CORE/core_cm4.h:1553 | The system handler index is IRQ+12 and within the 12 bytes if and only if the IRQ number is -12 to -1 |
| NvicRegisters.StoredIsAligned | project/CORE/core_cm4.h:1553-1577 | A stored byte has zeros in its 8-P low bits, so the value read determines it |
| NvicRegisters.GroupingWordParts | project/CORE/core_cm4.h:1440-1445 | The word written to AIRCR carries the key 0x5FA, the wanted grouping, and no reset request |
| NvicRegisters.ConfigWordParts | project/FWLIB/STM32F4xx_StdPeriph_Driver/src/misc.c:118-125 | The same for NVIC_PriorityGroupConfig, whose words 0x700 to 0x300 read back as 7 to 3 |
| NvicRegisters.ShiftDefined | project/FWLIB/STM32F4xx_StdPeriph_Driver/src/misc.c:148-150 | The shift count is one that C defines if and only if the grouping is at least 3, and then both counts are at most 4 |
| NvicRegisters.TruncationMasks | project/FWLIB/STM32F4xx_StdPeriph_Driver/src/misc.c:152-155 | Two 8-bit truncations do what masking the preemption value to its width does |
| NvicRegisters.InitByteIsEncoded | project/FWLIB/STM32F4xx_StdPeriph_Driver/src/misc.c:145-157 | NVIC_Init stores the byte of NVIC_SetPriority(NVIC_EncodePriority), for all 8-bit fields and groupings 3 to 7 |
| NvicRegisters.InitByteIs | project/FWLIB/STM32F4xx_StdPeriph_Driver/src/misc.c:145-157 | That byte is 16 times the sum of both fields, each cut to its width, for the grouping that AIRCR holds |
| NvicRegisters.ViewEnable | project/CORE/core_cm4.h:1467-1471 | On the view of all registers, the ISER write is one abstract step |
| NvicRegisters.ViewPriority | project/CORE/core_cm4.h:1550-1556 | The byte store is one abstract step and keeps the unimplemented bits zero |
| NvicRegisters.ViewInit | project/FWLIB/STM32F4xx_StdPeriph_Driver/src/misc.c:136-169 | The two writes of NVIC_Init make one abstract step |
| NvicRegisters.ViewDetermines | project/CORE/core_cm4.h:1467-1577 | The abstract state determines every enable word and every priority byte |
| NvicRegisters.ViewIs | project/CORE/core_cm4.h:1467-1577 | What the abstract state says of each enable bit, priority byte and the grouping field |
| Nvic.Driver.constructor | project/CORE/core_cm4.h:1435-1577 | The reset registers represent: nothing enabled, all priorities 0, grouping 0 |
| Nvic.Driver.SetPriorityGrouping | project/CORE/core_cm4.h:1435-1446 | Sets bits 10:8 of AIRCR to the grouping mod 8 and nothing else, with one write keyed 0x5FA |
| Nvic.Driver.GetPriorityGrouping | project/CORE/core_cm4.h:1455-1458 | Returns the grouping in force, bits 10:8 of AIRCR |
| Nvic.Driver.EnableIRQ | project/CORE/core_cm4.h:1467-1471 | Sets exactly this IRQ's bit of the 256 enable bits |
| Nvic.Driver.DisableIRQ | project/CORE/core_cm4.h:1480-1483 | Clears exactly this IRQ's enable bit |
| Nvic.Driver.SetPriority | project/CORE/core_cm4.h:1550-1556 | The byte of this IRQ, or of this system handler (number IRQ+12), becomes the argument's P low bits, left-aligned; no other byte changes |
| Nvic.Driver.GetPriority | project/CORE/core_cm4.h:1570-1577 | Returns the priority, from which the stored byte is recovered by a shift |
| Nvic.Driver.PriorityGroupConfig | project/FWLIB/STM32F4xx_StdPeriph_Driver/src/misc.c:118-125 | Sets the grouping that the word encodes, with one keyed write |
| Nvic.Driver.Init | project/FWLIB/STM32F4xx_StdPeriph_Driver/src/misc.c:136-169 | Enables with the encoded priority, or disables, this channel only: its byte and its enable bit, and no others |
| Nvic.Driver.Execute | project/CORE/core_cm4.h:1435-1577 | Every finite sequence of calls leaves the registers in the state of the abstract run; the recorded AIRCR writes only grow, and all of them are keyed |
| SysTick.Phase | project/CORE/core_cm4.h:1677-1688 | The counter value at every processor clock of an unbounded run, whatever the external reference clock does |
| SysTick.PendsEveryPeriod | project/CORE/core_cm4.h:1664-1667 | Interrupts come at exactly the multiples of `ticks`, counted in processor clocks, and never for `ticks` 1 |
| SysTick.ConsecutiveInterrupts | project/CORE/core_cm4.h:1664-1667 | Interrupts with none between them are exactly `ticks` processor clocks apart |
| SysTick.Driver.Config | project/CORE/core_cm4.h:1677-1688 | Succeeds if and only if 1 <= ticks <= 2^24; then LOAD is ticks-1, VAL 0, the three control bits are set, and SysTick has the largest priority byte; a refused call changes nothing |
| ItmMailbox.InvStep | project/CORE/core_cm4.h:1703-1762 | Every single load or store of either side keeps the mailbox invariant |
| ItmMailbox.InvRun | project/CORE/core_cm4.h:1703-1762 | The invariant holds in every state of every interleaving |
| ItmMailbox.WaitingStays | project/CORE/core_cm4.h:1755-1762 | A waiting character stays until a consumer clears it |
| ItmMailbox.SecondConsumerDuplicates | project/CORE/core_cm4.h:1736-1745 | With two consumers, a run in which one character is taken twice |
| ItmMailbox.DeliveryIffOneConsumer | project/CORE/core_cm4.h:1736-1745 | In-order exactly-once delivery in every interleaving, if and only if at most one consumer |
| ItmMailbox.Port.ReceiveChar | project/CORE/core_cm4.h:1736-1745 | Returns -1 and takes nothing, or takes the next character; never -1 when one was waiting |
| ItmMailbox.Port.CheckChar | project/CORE/core_cm4.h:1755-1762 | A result of 1 guarantees a waiting character after return |
| ItmMailbox.Port.Round | project/CORE/core_cm4.h:1703-1762 | CheckChar before ReceiveChar never yields -1, and takes a character that waits |
| ItmMailbox.Port.Poll | project/CORE/core_cm4.h:1703-1762 | The text read is what was sent, in order; a character that waits at the call is its first |
| Clock.PllWordIsSum | project/USER/system_stm32f4xx.c:617-618 | The five parts of the PLL word do not overlap and fit 32 bits |
| Clock.FactorsAreFields | project/USER/system_stm32f4xx.c:513-542 | The masks and shifts read the fields as quotients and remainders, for all words |
| Clock.FactorsOfWord | project/USER/system_stm32f4xx.c:513-542 | Every M, N, P, Q and source in range is read back from its word |
| Clock.WordOfFactors | project/USER/system_stm32f4xx.c:617-618 | Every word with zero reserved bits is the packing of what is read from it |
| Clock.SysClkIs | project/USER/system_stm32f4xx.c:501-548 | SYSCLK for each status in numbers: HSE_VALUE, HSI_VALUE, or the PLL quotient of the source that bit 22 selects |
| Clock.CoreClockIs | project/USER/system_stm32f4xx.c:494-554 | The core clock is that over the divisor of HPRE: 1 up to 7, then 2, 4, 8, 16, 64, 128, 256, 512 |
| Clock.BusDivisors | project/FWLIB/STM32F4xx_StdPeriph_Driver/src/stm32f4xx_rcc.c:1138-1159 | HCLK is divided from SYSCLK, and PCLK1 and PCLK2 from HCLK by 1, 2, 4, 8 or 16 |
| Clock.HclkAgrees | project/FWLIB/STM32F4xx_StdPeriph_Driver/src/stm32f4xx_rcc.c:1097-1160 | The two frequency functions agree on HCLK if and only if HPRE is not 4 to 7, or the clock is 0 |
| Clock.HclkDiffers | project/FWLIB/STM32F4xx_StdPeriph_Driver/src/stm32f4xx_rcc.c:1141-1145 | With HPRE 4 on a 16 MHz HSI they report 8 and 16 MHz |
| Clock.ErrorBound | project/USER/system_stm32f4xx.c:517-553 | The computed HCLK is at most the exact rational, and M*D times the shortfall is at most (M-1)*N + M*(D - gcd(N, D)), with D = P*2^h |
| Clock.ErrorBoundAttained | project/USER/system_stm32f4xx.c:517-553 | For all M, N, P and h a source below M*D has exactly this shortfall, so no smaller bound holds of all sources |
| Clock.ErrorInHertz | project/USER/system_stm32f4xx.c:517-553 | The shortfall is less than N/(P*2^h) + 1 Hz |
| Clock.FrequencyMonotone | project/USER/system_stm32f4xx.c:517-553 | HCLK does not fall with N, nor rise with M, P or the shift |
| Clock.NoOverflow | project/USER/system_stm32f4xx.c:517-526 | The 32-bit product is exact for every 9-bit N if and only if source/M <= 8405024 |
| Clock.NoOverflowInRange | project/USER/system_stm32f4xx.c:517-526 | In particular for sources up to 16 MHz and M >= 2 |
| Clock.CoreClockIsComputed | project/USER/system_stm32f4xx.c:509-553 | For all register contents with M other than 0, the function computes the frequency bounded above if and only if the product stays below 2^32 |
| Clock.AfterBringUp | project/USER/system_stm32f4xx.c:314-331 | After bring-up the word holds 8, 336, 2, 7, HSE, and the core clock is 168*(HSE/8) |
| Clock.InitialValueIsRight | project/USER/system_stm32f4xx.c:370-372 | That equals the initial SystemCoreClock exactly for two windows of crystal values |
| Clock.BusesAfterBringUp | project/FWLIB/STM32F4xx_StdPeriph_Driver/src/stm32f4xx_rcc.c:1138-1159 | With the configured factors and prescalers the buses are reported at a quarter and half of the core clock for every crystal: 168, 42 and 84 times HSE/8 without overflow |
| ClockRegisters.OrCrEffect | project/USER/system_stm32f4xx.c:573 | What a read-modify-write of CR does to switches and to what has been seen, for any answer |
| ClockRegisters.OrSwitches | project/USER/system_stm32f4xx.c:573 | It adds exactly the mask's writable bits |
| ClockRegisters.AndSwitches | project/USER/system_stm32f4xx.c:431 | The `&=` form keeps exactly the mask's writable bits |
| ClockRegisters.OrCfgrEffect | project/USER/system_stm32f4xx.c:598-605 | A read-modify-write of CFGR acts field by field, whatever switch status is loaded |
| ClockRegisters.CfgrMasks | project/USER/system_stm32f4xx.c:598-654 | The effect of the four masks on the fields of CFGR |
| ClockRegisters.ClearSw | project/USER/system_stm32f4xx.c:653 | Clearing SW leaves every other field |
| ClockRegisters.StatusTest | project/USER/system_stm32f4xx.c:499-509 | The masked status is four times the switch status |
| ClockRegisters.SafeInNumbers | project/USER/system_stm32f4xx.c:572-659 | What a switch-safe state with the PLL selected means for CR, CFGR, PLLCFGR and ACR |
| BringUp.Board.WaitForHse | project/USER/system_stm32f4xx.c:575-580 | At most `timeout` polls (2^32 for a timeout of 0), all but the last without the flag, and fewer only if the last one has it |
| BringUp.Board.WaitForPll | project/USER/system_stm32f4xx.c:624-626 | Ends with the ready flag, or every observed answer lacked it |
| BringUp.Board.WaitForSwitch | project/USER/system_stm32f4xx.c:657-659 | Ends with the PLL as reported clock, or no observed answer reported it |
| BringUp.Board.SetPrescalers | project/USER/system_stm32f4xx.c:593-606 | Voltage scale, and all of CFGR: HCLK/1, PCLK2 /2, PCLK1 /4, still on HSI |
| BringUp.Board.StartPll | project/USER/system_stm32f4xx.c:616-621 | PLL word and PLL switch, with HSE still on and seen ready |
| BringUp.Board.SwitchToPll | project/USER/system_stm32f4xx.c:642-659 | Flash word before the switch; SW selects the PLL only when armed |
| BringUp.Board.SetSysClock | project/USER/system_stm32f4xx.c:564-664 | Every outcome's registers; HSE failure if and only if the re-read lacks the flag, and then CFGR, PLLCFGR and ACR are unchanged |
| BringUp.Board.ResetClocks | project/USER/system_stm32f4xx.c:423-440 | Resets from any register contents |
| BringUp.Board.SystemInit | project/USER/system_stm32f4xx.c:417-456 | From any registers and for any answers, every register state after each single access, from the reset of CFGR on, is switch-safe; number of polls, final register values and power bits per outcome |
| BringUp.Board.SelectedClock | project/USER/system_stm32f4xx.c:501-548 | The switch statement gives SYSCLK for the reported source, and is undefined exactly for the PLL with PLLM 0 |
| BringUp.Board.SystemCoreClockUpdate | project/USER/system_stm32f4xx.c:494-554 | On any registers, SystemCoreClock becomes HSE_VALUE, HSI_VALUE or the PLL quotient, by the status the load returned, over the divisor of HPRE; undefined only for the PLL with PLLM 0 |
| BringUp.Board.GetClocksFreq | project/FWLIB/STM32F4xx_StdPeriph_Driver/src/stm32f4xx_rcc.c:1097-1160 | On any registers, SYSCLK by the status the first load returned, HCLK from SYSCLK and both bus clocks from HCLK, each over its prescaler |
| BringUp.ReportAnyRegisters | project/USER/system_stm32f4xx.c:494-554 | For all register contents and oscillators: the update reports the frequency of the error bound if and only if the PLL product does not overflow, and given the same status both functions report one HCLK if and only if HPRE is not 4 to 7 or the clock is 0 |
| BringUp.Board.InitAndUpdate | project/USER/system_stm32f4xx.c:417-554 | SystemInit and then SystemCoreClockUpdate leave HSI_VALUE after an HSE failure and the PLL frequency after success, assuming of the hardware that the status the update loads names a source SW has selected since CFGR was reset and stays with the selected source once it names it |
| Malloc.MarkDescribes | project/MALLOC/malloc.c:101-108 | Marking a free run adds one region to a table that describes disjoint regions |
| Malloc.ClearDescribes | project/MALLOC/malloc.c:127-132 | Clearing as many entries as the entry says removes one region if and only if it starts at the region's first block |
| Malloc.FreeDescribes | project/MALLOC/malloc.c:125-134 | Releasing a block keeps the table a description if and only if the block is free or a region's first |
| Malloc.ReleaseInTable | project/MALLOC/malloc.c:127-132 | Releasing stays inside the table if and only if enough entries follow the block, and always for a free block or a region's first |
| Malloc.ReleaseOverruns | project/MALLOC/malloc.c:127-132 | In a region at the end of the table it goes beyond from every block but the first |
| Malloc.OverrunExample | project/MALLOC/malloc.c:127-132 | One region of two blocks, released from its second |
| Malloc.SameRegions | project/MALLOC/malloc.c:19-27 | The table determines the regions, though it does not record where they start |
| Malloc.RoundTrip | project/MALLOC/malloc.c:87-135 | After a successful request, releasing its offset restores table and regions if and only if the block count was not cut to 0 |
| Malloc.HandedOutAgain | project/MALLOC/malloc.c:95-107 | A request of 65536 blocks is served with the highest block in use, which belongs to a live region |
| Malloc.LargeEnough | project/MALLOC/malloc.c:95-96 | The region is as large as the request if and only if the block count fits 16 bits |
| Malloc.UsedReleased | project/MALLOC/malloc.c:72-81 | A release gives back exactly the region's blocks |
| Malloc.UsedFilled | project/MALLOC/malloc.c:72-81 | An allocation uses exactly its blocks |
| Malloc.ServedProperly | project/MALLOC/malloc.c:87-111 | The allocator does what it should if and only if the count fits 16 bits or the search for the cut count fails |
| Malloc.OversizedServed | project/MALLOC/malloc.c:90-107 | From any table whose last block is free, a request of 65537 blocks is served with one |
| Malloc.ByteRangesApart | project/MALLOC/malloc.c:107 | Live regions are disjoint byte ranges inside the pool |
| Malloc.Pool.Init | project/MALLOC/malloc.c:62-67 | An empty table, with no live region |
| Malloc.Pool.Search | project/MALLOC/malloc.c:97-101 | Finds the highest place that fits, or none exists |
| Malloc.ServedInNumbers | project/MALLOC/malloc.c:87-111 | For counts that fit 16 bits: size over block size rounded up, the highest run of free entries, those entries set to the count and no others; or no such run exists |
| Malloc.Pool.Allocate | project/MALLOC/malloc.c:87-111 | Fails and changes nothing, or adds a region at the highest place that fits; with a count cut to 0 it returns the highest block in use and adds nothing; initialises an unused pool |
| Malloc.Pool.Free | project/MALLOC/malloc.c:117-135 | The three results, the exact table, when the clearing goes beyond it, and when it still describes the live regions |
| Malloc.Pool.PercentUsed | project/MALLOC/malloc.c:72-81 | The percentage of entries in use, at most 100 |
| PoolRuns.RunDescribes | project/MALLOC/malloc.c:87-135 | In every state of every run of requests, and releases of live regions by their first block, the table describes disjoint live regions |
| PoolRuns.LiveIsHeld | project/MALLOC/malloc.c:87-135 | With block counts that fit 16 bits, the live regions are exactly those handed out and not yet released |
| PoolRuns.NeverTwice | project/MALLOC/malloc.c:97-107 | In such a run no request is served with a block that is held |
| PoolRuns.AllReleased | project/MALLOC/malloc.c:125-132 | When everything has been released the table is all zeros |
| PoolRuns.Serve | project/MALLOC/malloc.c:62-135 | The functions, called with any requests by callers that release only what they hold, make such a run |
| InternetSum.SumIsUnique | project/LWIP/lwip-1.4.1/src/core/ipv4/inet_chksum.c:64-257 | Any two versions of the loop return the same value |
| InternetSum.SumInNumbers | project/LWIP/lwip-1.4.1/src/core/ipv4/inet_chksum.c:64-257 | The sum is 0 for zeros and otherwise the remainder of the word sum by 0xFFFF, from 1 to 0xFFFF |
| InternetSum.Append | project/LWIP/lwip-1.4.1/src/core/ipv4/inet_chksum.c:284-297 | The sum of two pieces: the second counts with its bytes exchanged after an odd number of bytes |
| InternetSum.FoldTwice | project/LWIP/lwip-1.4.1/src/include/ipv4/lwip/inet_chksum.h:52-54 | Two folds bring any 32-bit sum to 16 bits and keep it in one's-complement arithmetic |
| InternetSum.SwapSame | project/LWIP/lwip-1.4.1/src/include/ipv4/lwip/inet_chksum.h:47 | Exchanging the bytes is multiplication by 256 |
| StandardChecksum.StandardChecksum1 | project/LWIP/lwip-1.4.1/src/core/ipv4/inet_chksum.c:80-118 | Version 1 computes the sum |
| StandardChecksum.StandardChecksum2 | project/LWIP/lwip-1.4.1/src/core/ipv4/inet_chksum.c:134-176 | Version 2 computes it from any address, for up to 0x20000 bytes, with every 16-bit load at an even address |
| StandardChecksum.StandardChecksum3 | project/LWIP/lwip-1.4.1/src/core/ipv4/inet_chksum.c:190-256 | Version 3, with end-around carries, computes it from any address, with every 32-bit load at a multiple of 4 |
| InetChecksum.InetChecksum | project/LWIP/lwip-1.4.1/src/core/ipv4/inet_chksum.c:395-399 | The complement of the sum |
| InetChecksum.InetChecksumPbuf | project/LWIP/lwip-1.4.1/src/core/ipv4/inet_chksum.c:408-430 | The checksum of the joined payloads, however they are cut and placed |
| InetChecksum.InetChecksumPseudo | project/LWIP/lwip-1.4.1/src/core/ipv4/inet_chksum.c:271-317 | The same with the pseudo header's 12 bytes in front |
| InetChecksum.PseudoHeaderBytes | project/LWIP/lwip-1.4.1/src/core/ipv4/inet_chksum.c:303-309 | The pseudo header byte by byte |
| InetChecksum.InetChecksumPseudoPartial | project/LWIP/lwip-1.4.1/src/core/ipv4/inet_chksum.c:331-383 | The same over the first `chksum_len` bytes, although a cut buffer exchanges bytes by its whole length |
| ChecksumField.FieldAccepted | project/LWIP/lwip-1.4.1/src/core/ipv4/ip.c:366 | Exactly the generated checksum passes the check, or 0xFFFF in place of 0 |
| ChecksumField.SingleByteDetected | project/LWIP/lwip-1.4.1/src/core/ipv4/ip.c:366 | No change of a single byte passes the check |
| ChecksumField.UpdateKeeps | project/LWIP/lwip-1.4.1/src/core/ipv4/ip.c:252-257 | The incremental update keeps a packet valid or invalid, except a valid one in which only the lowered byte, equal to the decrement, and the checksum are not zero |
| ChecksumField.UpdatedBytes | project/LWIP/lwip-1.4.1/src/core/ipv4/ip.c:252-257 | The update lowers one byte, raises the checksum by as much with the carry added back, and leaves every other byte |
| ChecksumField.EchoReply | project/LWIP/lwip-1.4.1/src/core/ipv4/icmp.c:190-216 | Type 0, the raised checksum, and every other byte as in the request; the reply passes the check if and only if the request did and had a byte other than type and checksum that is not zero |
| ChecksumField.EchoOfZeros | project/LWIP/lwip-1.4.1/src/core/ipv4/icmp.c:211-216 | A valid request whose reply does not pass |
| ChecksumField.DecrementTtl | project/LWIP/lwip-1.4.1/src/core/ipv4/ip.c:238-257 | TTL lowered by one, checksum raised by one, no other byte changed; a forwarded header stays valid for TTL 2 and up, is dropped for 1, and is spoilt for 0 |

## Left out

- Nvic.Driver.Init: asks for 4 priority bits and, to enable, a grouping of 3 to 7, because the shift is undefined in C otherwise.
- Nvic.Driver.SetPriority: asks for an IRQ number from -12 up, since the index of the others is outside the array.
- BringUp.Board.WaitForPll: the wait without a timeout is observed for `window` polls, for every `window`; it ends whenever the hardware answers within them, and never-answering hardware keeps it waiting.
- BringUp.Board.WaitForSwitch: observed in the same way.
- BringUp.Board.SystemCoreClockUpdate: a division by a PLLM of 0 is undefined in C; the model reports it and gives no frequency.
- Malloc.Pool.Free: what a write beyond the table hits is not modelled, only that there is one.
- InetChecksum.InetChecksumPbuf: a chain of buffers is a sequence of payloads with the parity of their addresses, not a linked list in memory.
- InetChecksum.InetChecksumPseudoPartial: the debugging assertion on the remaining length, which only prints, is not modelled.
- StandardChecksum.StandardChecksum1: the data is a sequence of bytes; a load is the value of its bytes in little-endian order.
- The contents of the memory pools (`mymemcpy`, `myrealloc` and the clearing of a pool), and addresses instead of offsets.
- NVIC pending and active state, NVIC_SystemReset, NVIC_SetVectorTable, NVIC_SystemLPConfig, SysTick_CLKSourceConfig: single register accesses.
- ITM_SendChar and the debugger's side of the mailbox beyond its protocol: it stores a character of 0 to 255 only after it has seen the word empty.
- The branches for other devices, the FPU access bits of CPACR, and the external memory controller.
- Voltage, wait-state sufficiency and crystal accuracy: the hardware's flags are arbitrary.
- `1 << 31` on a signed operand is read as bit 31, as compilers for the target do.
- The hardware checksum engine, which the configured build uses instead of the software generation and of most checks.
- TCP, UDP, IP and ARP processing, the Ethernet driver and the application: not part of this model.
