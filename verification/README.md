# RISC-V trap and interrupt layer of the spike platform family

This project is a Dafny model of the RISC-V trap and interrupt layer of the
TRENT-OS fork of seL4, for the spike platform family (qemu, rocket-chip,
HiFive Unleashed and the HENSOLDT hcsc1 board). It covers:

- **Interrupt-id space** (`IrqSpace`). The `#if` chain picks a platform instance header. Id 0 means "no interrupt", ids `1..PLIC_MAX_IRQ` are controller lines, and `INTERRUPT_CORE_TIMER = PLIC_MAX_IRQ + 1` is the timer line.
- **Three interrupt-controller drivers**:
  - `SifivePlic`, the SiFive/U54-MC PLIC of `riscv_plic0.h`. It has a computed register layout, per-hart S-mode context banks, priority masking, enable bitmaps and a drain loop.
  - `MigvPlic`, the MiG-V PLIC of `riscv-hcsc1.h`. It uses S-mode enable bits, trigger-mode bits and 4-bit priorities.
  - `Hcsc1Plic`, the legacy register set inlined in the hcsc1 instance header. There, masking an id also completes it.
- **Controller** (`Controller`): the instance-independent view used by the platform code. It says which lines are unmasked, what was read from and written to the claim port, and the trigger mode.
- **Platform interrupt code** (`IrqLatch`): the `scause` decoding of `getNewActiveIRQ`, the `active_irq` latch of `getActiveIRQ`, `ackInterrupt`, `maskInterrupt` (timer through `sie`, lines through the controller), `isIRQPending` and `initIRQController`.
- **Timer re-arm loop** (`ResetTimer`) of `resetTimer`, with its 64-bit wrap-around and retries.
- **Trap entry** (`TrapDispatch`): the exception dispatch of `c_handle_exception`, the page-table dump trigger, and the fastpath/slowpath routing of `c_handle_syscall`.
- **Page-table debug dump** (`HexFormat`, `Sv39`): hex formatting (`print_nibble`, `print_to_hex`, `print_hex`), Sv39 entry decoding, sign extension, and the three-level walk of `printPageTableLevel`.
- **Sv39 kernel address window** (`KernelWindow`): the constants of the 64-bit mode header and the kernel ELF mapping.
- **Platform memory region tables** (`PlatformRegions`) of the instance headers.
- **C header generator** (`CHeader`, `Sorting`): how `c_header.py` turns a device tree into kernel interrupts, kernel regions and device-address macros. It covers the priority merge per label, region de-duplication, duplicate-macro detection, and the sorted output.

Some parts come from outside the model:

- Hardware reads become parameters: `scause`, `sip`, claim-register values, clock readings and page-table memory.
- A `halt()` becomes an error value of a `Result`.
- Python exceptions become error values.
- Python dictionaries become insertion-ordered lists of entries.
- The controller's claim/complete register is an access log of `ClaimRead(v)` / `CompleteWrite(v)`. This lets "the driver read only its own hart's bank" be stated about the resulting register image.

Observations on the source that the model reflects:

- `getNewActiveIRQ` compares only the low four bits of the exception code, so interrupt codes 21 and 25 alias the timer (5) and the external interrupt (9). See `IrqLatch.CauseNibbleAliases`.
- `getActiveIRQ` keeps a claimed id above `maxIRQ` in the latch but reports `irqInvalid`. See `IrqLatch.OutOfRangeClaimIsHidden`.
- `ackInterrupt` writes nothing to the controller.
- `initIRQController` does not call `plic_init_hart`, so the SiFive threshold is left as it was.
- The legacy hcsc1 driver has no `plic_init_hart`.
- The MiG-V `plic_init_controller` does not drain pending claims. The SiFive one does.
- On the legacy controller, `plic_mask_irq(true, …)` also writes a completion for the id.
- In `resetTimer`, a target that wraps past 2^64 is smaller than the clock, so the loop programs it and retries.
- The rocket-chip region table's comment speaks of 2 MiB reserved for the SBI, but the region starts at 0.
- Two hcsc1 device frames carry the comment "UART2". The first three frames are adjacent; the fourth starts one page after the third ends; none overlap. See `PlatformRegions.Hcsc1FrameGap`.
- `print_page_entry` prints PPN[2], a 26-bit field, with `print_hex(3, …)`. A PPN[2] of 0x1000 or more (a physical address of 2^42 or more) loses its top digits, and values 0x1000 apart print alike. See `Sv39.PrintedPpn2Truncated`, `Sv39.Ppn2PrintAliases` and `Sv39.LargePpnPrintsAsZero`.
- The qemu and rocket-chip `plic_get_claim` stubs end without a return statement. The model returns the free parameter `hw` there and logs no register access.
- Masking and trigger writes on MiG-V and legacy hcsc1 use `BIT(irq-1)` on a 32-bit register. For ids above 32 the register is unchanged. The compile-time bound keeps real ids at 24 or below.

## Model

| member | source | states |
|---|---|---|
| IrqSpace.SelectInstance | include/plat/spike/plat/machine.h:27-37 | the chosen instance is one whose build flag is defined and no earlier instance in the chain is defined; the error case occurs exactly when no flag is defined |
| IrqSpace.SingleFlagSelectsIt | include/plat/spike/plat/machine.h:27-37 | with exactly one build flag defined, that flag's instance is selected |
| IrqSpace.ValidIdsAreLinesOrTimer | include/plat/spike/plat/machine.h:39-50 | IS_IRQ_VALID holds exactly for controller lines 1..PLIC_MAX_IRQ and the timer line; the timer is PLIC_MAX_NUM_INT+1, equals maxIRQ and KERNEL_TIMER_IRQ, and is never irqInvalid |
| IrqSpace.InstanceLayout | include/plat/spike/plat/instance/hcsc1/hardware.h:16 | qemu and rocket-chip have no controller lines, hcsc1 has 24 and HiFive takes its count from its generated header |
| IrqSpace.NullInstancesOnlyTimer | include/plat/spike/plat/instance/qemu/hardware.h:16 | on the controller-less instances the only valid id is the timer, id 1 |
| ClaimPort.FirstZero | include/drivers/irq/riscv_plic0.h:203-210 | the index where the drain loop stops: every earlier claim is non-zero and the claim there is 0 |
| ClaimPort.PairsCompleteEveryId | include/drivers/irq/riscv_plic0.h:203-210 | a claim-then-complete sequence completes exactly the claimed ids, in order |
| ClaimPort.CompletionsAppend | include/drivers/irq/riscv_plic0.h:203-210 | the completions of concatenated access logs are the concatenation of their completions |
| SifivePlic.NumBitmapWords | include/drivers/irq/riscv_plic0.h:28-30 | the bitmap has the least number of 32-bit words that hold one bit for each of the PLIC_MAX_IRQ+1 interrupts |
| SifivePlic.BitmapCoversEveryIrq | include/drivers/irq/riscv_plic0.h:28-30 | every interrupt's enable bit lies in one of the bitmap words |
| SifivePlic.ComputeLayout | include/drivers/irq/riscv_plic0.h:36-95 | the struct is well-formed exactly when at most 1024 interrupts exist, and then pending is at 0x1000, hart_enable at 0x2000 with stride 0x80, and hart_regs at 0x200000 with stride 0x1000, as the compile-time assertions demand |
| SifivePlic.BankAddresses | include/drivers/irq/riscv_plic0.h:41-74 | bank k of the enable and context registers starts at 0x2000+0x80k and 0x200000+0x1000k, matching the register-map comments |
| SifivePlic.SModeBankIndex | include/drivers/irq/riscv_plic0.h:98-113 | hart ids 1..4 map to a bank inside hart_regs that serves that hart's S-mode context; any other hart id halts |
| SifivePlic.EverySModeBankIsSelected | include/drivers/irq/riscv_plic0.h:98-113 | every S-mode bank is the one its own hart selects, so the index map is onto the S-mode banks |
| SifivePlic.GetClaim | include/drivers/irq/riscv_plic0.h:115-123 | returns what the hardware reports and logs one claim read on the hart's S-mode bank only; all other registers are unchanged; an invalid hart halts |
| SifivePlic.CompleteClaim | include/drivers/irq/riscv_plic0.h:125-141 | logs one completion of irq on the hart's S-mode bank only; an invalid hart halts |
| SifivePlic.MaskIrq | include/drivers/irq/riscv_plic0.h:143-159 | the id's priority becomes 0 (masked) or 1 (unmasked); every other priority and all enable and context registers are unchanged |
| SifivePlic.MaskLastWriteWins | include/drivers/irq/riscv_plic0.h:143-159 | of two mask calls on one id only the later one determines the controller |
| SifivePlic.EnableIrq | include/drivers/irq/riscv_plic0.h:161-175 | the id's enable bit in the hart's S-mode bank takes the requested value; every other id's bit, every other bank and every other word are unchanged; an invalid hart halts |
| SifivePlic.InitHart | include/drivers/irq/riscv_plic0.h:177-185 | the hart's S-mode threshold becomes 0 and nothing else changes; an invalid hart halts |
| SifivePlic.MaskAndEnableAll | include/drivers/irq/riscv_plic0.h:197-200 | after the first loop every real interrupt has priority 0 and is enabled for this hart's S-mode bank; the dummy interrupt 0 and other banks are untouched |
| SifivePlic.Drain | include/drivers/irq/riscv_plic0.h:203-210 | the drain loop claims and completes every non-zero claim in order up to the first 0; it fails when the hardware never reports 0 |
| SifivePlic.InitController | include/drivers/irq/riscv_plic0.h:187-211 | after initialisation every line is masked and enabled, the threshold is untouched, and the claim log is the initial log plus claim/complete pairs for the drained ids followed by the terminating 0 read |
| MigvPlic.BitIndexInRange | include/drivers/irq/riscv-hcsc1.h:32-37 | under the compile-time bound every real id's bit position irq-1 lies inside a 32-bit register |
| MigvPlic.GetClaim | include/drivers/irq/riscv-hcsc1.h:40-43 | returns the hardware's value and logs one read of the S-mode claim register only |
| MigvPlic.CompleteClaim | include/drivers/irq/riscv-hcsc1.h:45-48 | logs one completion on the S-mode claim register only |
| MigvPlic.MaskIrq | include/drivers/irq/riscv-hcsc1.h:50-66 | for ids 1..32 bit irq-1 of the S-mode enable register becomes !disable and every other bit is kept; id 0 and ids above 32 leave the controller unchanged |
| MigvPlic.SetTrigger | include/drivers/irq/riscv-hcsc1.h:68-84 | for ids 1..32 bit irq-1 of trigger_mode records edge (1) or level (0) and every other bit is kept; id 0 and ids above 32 change nothing |
| MigvPlic.MaskLastWriteWins | include/drivers/irq/riscv-hcsc1.h:50-66 | of two mask writes to one id only the later one determines the controller |
| MigvPlic.MaskOtherId | include/drivers/irq/riscv-hcsc1.h:50-66 | masking one id does not change another id's enable state |
| MigvPlic.MaskThenRestore | include/drivers/irq/riscv-hcsc1.h:50-66 | masking an id and then restoring its earlier setting restores every id's enable state |
| MigvPlic.TriggerLastWriteWins | include/drivers/irq/riscv-hcsc1.h:68-84 | of two trigger writes to one id only the later one determines the controller |
| MigvPlic.InitController | include/drivers/irq/riscv-hcsc1.h:91-107 | ids 1..PLIC_MAX_IRQ are disabled for S-mode, every priority nibble is 1, all ids are edge-triggered and the S-mode threshold is 0; the M-mode registers and the claim log are untouched |
| Hcsc1Plic.GetClaim | include/plat/spike/plat/instance/hcsc1/hardware.h:37-40 | returns the hardware's value and logs one read of idtarget0 only |
| Hcsc1Plic.CompleteClaim | include/plat/spike/plat/instance/hcsc1/hardware.h:42-44 | logs one completion on idtarget0 only |
| Hcsc1Plic.MaskIrq | include/plat/spike/plat/instance/hcsc1/hardware.h:46-53 | bit irq-1 of ietarget0 becomes !disable and every other bit is kept, and a disable also completes the id; ids above 32 leave the enable register unchanged |
| Hcsc1Plic.SetTrigger | include/plat/spike/plat/instance/hcsc1/hardware.h:56-63 | bit irq-1 of el records the requested trigger mode and every other bit is kept |
| Hcsc1Plic.MaskOtherId | include/plat/spike/plat/instance/hcsc1/hardware.h:46-53 | masking one id does not change another id's enable state |
| Hcsc1Plic.DisableThenEnable | include/plat/spike/plat/instance/hcsc1/hardware.h:46-53 | disabling and re-enabling an enabled id restores every id's enable state and leaves one completion of the id behind |
| Hcsc1Plic.PriorityPosition | include/plat/spike/plat/instance/hcsc1/hardware.h:69-70 | the (index, bit) pair of id n+1 is the unique word and nibble that holds that id's priority: different ids never share a field |
| Hcsc1Plic.SetPriorityLowBit | include/plat/spike/plat/instance/hcsc1/hardware.h:66-71 | setting the low priority bit of one id turns that single bit on and keeps every other bit of the three priority words |
| Hcsc1Plic.CompleteRunIds | include/plat/spike/plat/instance/hcsc1/hardware.h:67-68 | the completions written by masking ids 1..n in turn are exactly 1..n |
| Hcsc1Plic.StepClearsEnable | include/plat/spike/plat/instance/hcsc1/hardware.h:67-72 | one loop iteration extends "ids 1..n are disabled, later bits kept" to n+1 |
| Hcsc1Plic.StepRaisesPriority | include/plat/spike/plat/instance/hcsc1/hardware.h:67-72 | one loop iteration extends "the low priority bits of ids 1..n are set, all other bits kept" to n+1 |
| Hcsc1Plic.InitController | include/plat/spike/plat/instance/hcsc1/hardware.h:65-76 | all 24 ids are disabled and completed in order, each id's low priority bit is set with all other priority bits kept, el is 0 (level-triggered) and threshold0 is 0; target-1 registers are untouched |
| Controller.LineBounds | include/drivers/irq/riscv_plic0.h:36-40 | a well-formed controller has at most 1023 lines; MiG-V and legacy hcsc1 have at most 24 |
| Controller.NullControllerHasNoLines | include/plat/spike/plat/instance/qemu/hardware.h:16-37 | the empty driver goes with zero controller lines |
| Controller.GetClaim | src/plat/spike/machine/hardware.c:94-95 | on a real controller (SiFive, MiG-V, legacy hcsc1) plic_get_claim returns the hardware's value and adds one claim read to the log; the empty qemu/rocket-chip stub accesses nothing and returns an arbitrary value (the parameter hw); every line's mask is unchanged; only the SiFive driver halts, and only on an invalid hart |
| Controller.CompleteClaim | include/drivers/irq/riscv_plic0.h:125-141 | on a real controller (SiFive here, the MiG-V driver and the legacy hcsc1 inline function alike) plic_complete_claim adds one completion of irq to the claim log; the empty qemu/rocket-chip stub changes nothing; every mask is unchanged; only the SiFive driver can halt, on an invalid hart |
| Controller.MaskIrq | src/plat/spike/machine/hardware.c:153-155 | plic_mask_irq leaves the line unmasked exactly when !disable and keeps every other line's state; only the legacy driver writes to the claim port |
| Controller.InitController | src/plat/spike/machine/hardware.c:241 | plic_init_controller leaves every line masked; the claim log grows by the SiFive drain pairs, the legacy completions 1..24, or nothing on MiG-V |
| Controller.SetIrqTrigger | src/plat/spike/machine/hardware.c:126-131 | setIRQTrigger records the requested trigger mode of the line, keeps every other line's mode and changes neither masks nor claim log |
| IrqLatch.CauseNibble | src/plat/spike/machine/hardware.c:91 | the code compared against the cause numbers is scause modulo 16, so it is always below 16 and the higher exception-code bits are ignored |
| IrqLatch.GetNewActiveIrq | src/plat/spike/machine/hardware.c:83-105 | a non-interrupt cause gives irqInvalid; code 9 returns the controller's claim; code 5 returns the timer id without touching the controller; any other code halts |
| IrqLatch.CauseNibbleAliases | src/plat/spike/machine/hardware.c:91-98 | interrupt codes 21 and 25 decode like the timer (5) and the external interrupt (9) |
| IrqLatch.GetActiveIrq | src/plat/spike/machine/hardware.c:107-124 | the returned id is irqInvalid or a valid id equal to the latch; a valid latch is returned with no hardware access; otherwise the latch is refilled from getNewActiveIRQ |
| IrqLatch.OutOfRangeClaimIsHidden | src/plat/spike/machine/hardware.c:113-121 | a claim above maxIRQ stays in the latch but is reported as irqInvalid |
| IrqLatch.LatchIsStable | src/plat/spike/machine/hardware.c:113-121 | after a valid id is reported, the next call reports it again whatever the hardware says |
| IrqLatch.AckInterrupt | src/plat/spike/machine/hardware.c:159-170 | acknowledging clears the latch and changes neither the controller nor sie |
| IrqLatch.AckThenGetDecodesAgain | src/plat/spike/machine/hardware.c:109-124 | after an acknowledgement the next getActiveIRQ decodes scause afresh |
| IrqLatch.WriteSieBit | src/plat/spike/machine/hardware.c:147-152 | set_sie_mask / clear_sie_mask turn exactly the masked sie bit on or off |
| IrqLatch.MaskInterrupt | src/plat/spike/machine/hardware.c:144-156 | masking the timer only changes sie bit 5, to !disable; masking any other valid id leaves sie alone and masks or unmasks that controller line |
| IrqLatch.MaskTimer | src/plat/spike/machine/hardware.c:147-152 | the timer branch sets sie bit 5 to !disable, keeps every other sie bit, and touches neither the controller nor the latch |
| IrqLatch.MaskLine | src/plat/spike/machine/hardware.c:153-155 | the controller branch leaves sie and the latch alone and, on a real controller, leaves the line unmasked exactly when !disable |
| IrqLatch.IsIrqPending | src/plat/spike/machine/hardware.c:134-138 | an interrupt is pending exactly when sip bit 5 (timer) or bit 9 (external) is set; no other sip bit matters |
| IrqLatch.InitIrqController | src/plat/spike/machine/hardware.c:237-243 | after initialisation every controller line is masked and sie bit 9 is set with all other sie bits kept; the latch is untouched |
| ResetTimer.ResetCycles | src/plat/spike/machine/hardware.c:40 | RESET_CYCLES uses truncating division: it never exceeds freq*tick/1000 and equals it when the frequency is a multiple of 1000 |
| ResetTimer.Run | src/plat/spike/machine/hardware.c:198-207 | at least one target is programmed exactly when the clock is read at all, and every target but the last costs two clock reads, so n reads program at most (n+1)/2 targets |
| ResetTimer.RunTargets | src/plat/spike/machine/hardware.c:198-207 | the k-th programmed target is the k-th clock reading plus RESET_CYCLES, wrapped to 64 bits |
| ResetTimer.RunRetries | src/plat/spike/machine/hardware.c:203-206 | every programmed target except possibly the last was already behind the clock when checked |
| ResetTimer.RunSettles | src/plat/spike/machine/hardware.c:203-206 | the loop exits exactly when a check finds the clock not past the last target |
| ResetTimer.QuickClockSettlesAtOnce | src/plat/spike/machine/hardware.c:203-206 | if the clock has not passed the first target, exactly one target is programmed |
| ResetTimer.WrappedTargetRetries | src/plat/spike/machine/hardware.c:204-206 | a target that wraps past 2^64 is behind a non-decreasing clock, so the loop programs it again |
| ResetTimer.ResetTimerLoop | src/plat/spike/machine/hardware.c:198-207 | the do-while loop computes the same programmed targets and exit as the recursive definition |
| HexFormat.NibbleChar | src/arch/riscv/c_traps.c:37-49 | the low four bits become '0'..'9' or 'A'..'F' |
| HexFormat.NibbleRoundTrip | src/arch/riscv/c_traps.c:37-49 | reading back the printed digit gives the low four bits of the input |
| HexFormat.NibbleInjective | src/arch/riscv/c_traps.c:37-49 | different nibbles print as different characters |
| HexFormat.HexDigits | src/arch/riscv/c_traps.c:51-71 | the significant digits of x consist only of the characters 0-9 and A-F |
| HexFormat.HexDigitsRoundTrip | src/arch/riscv/c_traps.c:51-71 | the digit string of x is a hex string whose value is x |
| HexFormat.HexDigitsNoLeadingZero | src/arch/riscv/c_traps.c:53-62 | the digit string is empty exactly for 0 and otherwise does not start with '0' |
| HexFormat.HexDigitsLength | src/arch/riscv/c_traps.c:51-71 | the digit string has at most n characters exactly when x < 16^n |
| HexFormat.PrintToHex | src/arch/riscv/c_traps.c:51-71 | the loop over 16 nibbles with its leading-zero flag writes exactly the shortest digit string of x, which is empty for 0 and at most 16 long |
| HexFormat.PrintHex | src/arch/riscv/c_traps.c:73-96 | the returned string is exactly width characters: the lowest width digits of x, zero-padded on the left |
| HexFormat.PrintHexPads | src/arch/riscv/c_traps.c:73-96 | when x fits in width digits the result is zero padding followed by the full digit string of x |
| HexFormat.LowDigitsSuffix | src/arch/riscv/c_traps.c:95 | when width is smaller than the digit count, the result is the last width digits, so the leading digits are dropped |
| Sv39.Decode | src/arch/riscv/c_traps.c:126-140 | every extracted field fits its width |
| Sv39.EncodeDecode | src/arch/riscv/c_traps.c:126-140 | for an entry with its reserved top ten bits clear, the fields print_page_entry extracts (PPN[2], PPN[1], PPN[0], RSW, D, A, G, U, XWR, V) reassemble the entry |
| Sv39.DecodeEncode | src/arch/riscv/c_traps.c:126-140 | fields of the right widths are recovered from the entry they build |
| Sv39.IsValid | src/arch/riscv/c_traps.c:98-101 | the validity test holds exactly when the decoded V field is 1 |
| Sv39.IsLeaf | src/arch/riscv/c_traps.c:103-106 | the leaf test holds exactly when the decoded XWR field is non-zero |
| Sv39.PrintedPpn2Truncated | src/arch/riscv/c_traps.c:129 | a PPN[2] of 0x1000 or more has more than three hex digits, so the three-digit field does not show it in full |
| Sv39.Ppn2PrintAliases | src/arch/riscv/c_traps.c:129 | two PPN[2] values 0x1000 apart print the same three-digit field |
| Sv39.LargePpnPrintsAsZero | src/arch/riscv/c_traps.c:129 | an entry whose PPN[2] is 0x1000 (physical address 2^42) prints the same PPN[2] field as one whose PPN[2] is 0 |
| Sv39.MapEntryToPhysicalAddress | src/arch/riscv/c_traps.c:108-115 | the PPN[2], PPN[1] and PPN[0] pieces recombine into the 44-bit PPN shifted to a page address |
| Sv39.PhysicalAddressOfFields | src/arch/riscv/c_traps.c:108-115 | the physical address is page aligned, below 2^56, and equals the decoded PPN fields times 4096 |
| Sv39.SignExtend | src/arch/riscv/c_traps.c:119-124 | with bit 38 set, bits 39..63 are all set and the rest is kept; otherwise the address is unchanged |
| Sv39.SignExtendCanonical | src/arch/riscv/c_traps.c:119-124 | an address inside the 39-bit space becomes canonical and keeps its low 39 bits |
| Sv39.SignExtendIdempotent | src/arch/riscv/c_traps.c:119-124 | sign-extending twice is the same as once |
| Sv39.Step | src/arch/riscv/c_traps.c:160-172 | levels 1 and 2 step by 1 GiB and 2 MiB, every other level by 4 KiB |
| Sv39.StepsNest | src/arch/riscv/c_traps.c:160-172 | 512 steps of one level cover one step of the level above, and 512 top-level steps cover the 2^39 Sv39 space |
| Sv39.Entries | src/arch/riscv/c_traps.c:178-205 | the first loop prints exactly 512 lines |
| Sv39.WalkStartsWithEntries | src/arch/riscv/c_traps.c:178-205 | a level's output begins with all 512 entries in order, each at address vaddr + i*step |
| Sv39.Walk | src/arch/riscv/c_traps.c:143-222 | a level's output starts with its own 512 entries, is just those entries from level 3 on, and every line is at a level between the starting level and 3 |
| Sv39.Children | src/arch/riscv/c_traps.c:207-221 | the descent loop prints only lines of deeper levels, down to level 3 |
| Sv39.NoPointerNoDescent | src/arch/riscv/c_traps.c:209-220 | when no entry from i on is a valid non-leaf entry, the descent loop from i prints nothing |
| Sv39.ChildrenHaveParents | src/arch/riscv/c_traps.c:207-221 | every line the descent loop from i prints one level down is entry t of the sub-table of some valid non-leaf entry j >= i, printed at that sub-table's address for t |
| Sv39.ChildInsideParent | src/arch/riscv/c_traps.c:178-221 | in a table that fits the Sv39 space, such a line's virtual address lies in [v_addr + j*step, v_addr + (j+1)*step) of its parent entry j |
| Sv39.ChildrenInsideParents | src/arch/riscv/c_traps.c:207-221 | in a table that fits the Sv39 space, every line one level down lies in the virtual range of a valid non-leaf entry j >= i |
| Sv39.WalkAddressesFit | src/arch/riscv/c_traps.c:143-222 | every v_addr passed to print_page_entry stays below 2^39 when the walk starts inside the space, so v_addr + i*step never wraps |
| Sv39.PrintPageTablePage | src/arch/riscv/c_traps.c:224-230 | the dump from the root starts with the 512 root entries at level 1 from address 0, and every line is at level 1..3 |
| Sv39.RootWalkIsSv39 | src/arch/riscv/c_traps.c:224-230 | the dump from the root prints at least the 512 root entries, on levels 1..3, and every v_addr passed to print_page_entry is below 2^39 |
| Sv39.RootWalkPrintsCanonical | src/arch/riscv/c_traps.c:117-141 | every address the dump prints after sign extension is a canonical Sv39 address |
| Sv39.RootUpperHalf | src/arch/riscv/c_traps.c:117-123 | a root line's address has bit 38 set (lies in [2^38, 2^39)) exactly when its index is 256 or more; by SignExtend's contract those are the lines printed with bits 39..63 set |
| Sv39.UpperRootEntryAddress | src/arch/riscv/c_traps.c:160-203 | root entry i is passed to print_page_entry at i GiB, which has bit 38 set exactly when i >= 256 |
| TrapDispatch.HandleException | src/arch/riscv/c_traps.c:331-343 | a VM fault event carries the cause as its type; a user-level fault carries the cause and 0 |
| TrapDispatch.VMFaultIffMemoryFault | src/arch/riscv/c_traps.c:331-343 | the VM fault handler runs exactly for the six access- and page-fault causes |
| TrapDispatch.OtherExceptionsAreUserFaults | src/arch/riscv/c_traps.c:340-342 | every other named exception becomes a user-level fault with extra 0 |
| TrapDispatch.DumpRoot | src/arch/riscv/c_traps.c:326-329 | the page table is dumped only for cause 12, from the page-aligned root whose page number is the satp PPN field |
| TrapDispatch.DumpOnlyBeforeVMFault | src/arch/riscv/c_traps.c:326-338 | a dump is always followed by the VM fault handler for an instruction page fault |
| TrapDispatch.Slowpath | src/arch/riscv/c_traps.c:349-360 | a syscall number outside [SYSCALL_MIN, SYSCALL_MAX] is unknown, every other one is handled, and the number is passed on |
| TrapDispatch.CHandleSyscall | src/arch/riscv/c_traps.c:362-380 | with the fastpath configured, SysCall and SysReplyRecv take their fastpaths; everything else goes to the slowpath |
| TrapDispatch.FastpathOnlyShortcuts | src/arch/riscv/c_traps.c:369-379 | apart from the two fastpath syscalls the fastpath configuration does not change the route |
| TrapDispatch.UnknownMeansOutOfRange | src/arch/riscv/c_traps.c:349-380 | when the fastpath syscalls are in range, a syscall is reported unknown exactly when it is out of range |
| KernelWindow.WindowSizes | include/arch/riscv/arch/64/mode/hardware.h:90-113 | the physical window is 254 GiB, the device window is the top GiB, the log buffer is the last 2 MiB, and the bases ascend |
| KernelWindow.KernelElfPaddrBase | include/arch/riscv/arch/64/mode/hardware.h:103 | the ELF physical base is physBase + 64 MiB modulo 2^64 and keeps physBase's 2 MiB alignment |
| KernelWindow.KernelElfBase | include/arch/riscv/arch/64/mode/hardware.h:106 | the kernel image base lies in the GiB below KDEV_BASE, at the ELF physical base's offset within its GiB |
| KernelWindow.ImageKeepsAlignment | include/arch/riscv/arch/64/mode/hardware.h:103-106 | the kernel image base has the same offset modulo 2 MiB as physBase |
| KernelWindow.RootSlots | include/arch/riscv/arch/64/mode/hardware.h:30-46 | PPTR_BASE uses root slot 256, the image window uses slot 510, and KDEV_BASE and the log buffer use slot 511, as the layout comment says |
| KernelWindow.PaddrToPptr | include/arch/riscv/arch/64/mode/hardware.h:35-37 | a physical address below 254 GiB maps into [PPTR_BASE, PPTR_TOP), through root slots 256..509 |
| KernelWindow.PptrRoundTrip | include/arch/riscv/arch/64/mode/hardware.h:35-37 | the direct mapping is undone by subtracting PPTR_BASE |
| PlatformRegions.AvailRegions | include/plat/spike/plat/instance/qemu/hardware.h:40-47 | each table has one region; qemu's starts 2 MiB above 0x80000000 |
| PlatformRegions.DeviceRegions | include/plat/spike/plat/instance/hcsc1/hardware.h:84-89 | only hcsc1 has device frames |
| PlatformRegions.Hcsc1FrameGap | include/plat/spike/plat/instance/hcsc1/hardware.h:84-89 | the first three hcsc1 frames are adjacent and the fourth starts one page after the third ends |
| PlatformRegions.RegionTablesWellFormed | include/plat/spike/plat/instance/hcsc1/hardware.h:78-89 | the available regions ascend without being adjacent; device frames are page aligned, ascend without overlap and avoid RAM; on RV32 the regions lie below 4 GiB |
| PlatformRegions.NullInstancesHaveNoDevices | include/plat/spike/plat/instance/rocket-chip/hardware.h:16-47 | qemu and rocket-chip have no device frames and no controller lines |
| Sorting.SortBy | tools/hardware/outputs/c_header.py:234-235 | the sorted list is a permutation of its input |
| Sorting.SortBySorted | tools/hardware/outputs/c_header.py:234-235 | for a total preorder, the result is sorted |
| Sorting.LexLeTotal | tools/hardware/outputs/c_header.py:234 | any two labels are comparable under Python's string order |
| Sorting.LexLeTransitive | tools/hardware/outputs/c_header.py:234 | the label order is transitive |
| Sorting.LexLeAntisymmetric | tools/hardware/outputs/c_header.py:234 | two labels each ordered before the other are equal |
| CHeader.OnlyFirstRegionDecides | tools/hardware/outputs/c_header.py:178-193 | the kernel goes into the first physical-memory region: appending further regions never changes the kernel base, nor whether it is an error (no memory, or the first region too small for the alignment) |
| CHeader.WinnerUnique | tools/hardware/outputs/c_header.py:204-209 | each label has at most one winning interrupt: highest priority, earliest on ties |
| CHeader.IrqStream | tools/hardware/outputs/c_header.py:200-204 | an interrupt is visited exactly when some kernel device whose rule has interrupts yields it |
| CHeader.KeepNewLabel | tools/hardware/outputs/c_header.py:206-209 | one step of the loop on a label not yet in the dictionary keeps every merge fact, with the new interrupt as its label's winner |
| CHeader.KeepKnownLabel | tools/hardware/outputs/c_header.py:206-209 | one step on a known label replaces its entry, in place, exactly when the new priority is strictly higher, and keeps every merge fact |
| CHeader.MergeIrqs | tools/hardware/outputs/c_header.py:198-209 | the merged dictionary has one entry per label seen, and each is that label's highest-priority interrupt, the first one on ties |
| CHeader.RegionStream | tools/hardware/outputs/c_header.py:200-211 | a region is visited exactly when some kernel device yields it |
| CHeader.TakeLabels | tools/hardware/outputs/c_header.py:211-216 | updating a region's label dict: the result holds exactly the old and the new labels, starts with the old ones in place, and has no label twice when the old ones had none |
| CHeader.TakeLabelsAppend | tools/hardware/outputs/c_header.py:211-216 | two successive label updates equal one update with both runs of labels |
| CHeader.AddNewRange | tools/hardware/outputs/c_header.py:211-216 | one step on a range not yet in the list appends the region, with its labels as dict keys, and keeps every de-duplication fact |
| CHeader.AddKnownRange | tools/hardware/outputs/c_header.py:211-216 | one step on a known range adds the labels that entry lacks, in place, and keeps every de-duplication fact |
| CHeader.DedupRegions | tools/hardware/outputs/c_header.py:211-216 | the region list has no two equal ranges, keeps first-seen order, covers every range seen, and each entry carries the labels of all equal regions, each once, in first-seen order |
| CHeader.InLabelsOf | tools/hardware/outputs/c_header.py:211-216 | a label is gathered for a range exactly when some input region of that range carries it |
| CHeader.DedupedLabels | tools/hardware/outputs/c_header.py:66-72 | each kept region lists (in the `contains` comment) no label twice, and exactly the labels of the input regions equal to it |
| CHeader.RepeatedLabelKeptOnce | tools/hardware/outputs/c_header.py:66-72 | two equal regions carrying the same label give one region that lists the label once |
| CHeader.PlaceAllAppend | tools/hardware/outputs/c_header.py:222-224 | the kernel offset is threaded from region to region: placing two runs of regions one after the other gives the same addresses and final offset as one run |
| CHeader.CollectMacros | tools/hardware/outputs/c_header.py:221-230 | collection succeeds exactly when no label repeats, then yields every (label, offset) in order; otherwise the error names the first repeated label, with the offset of its earlier occurrence and its own |
| CHeader.ReportedRepeatIsUnique | tools/hardware/outputs/c_header.py:225-229 | the reported repeat is determined by the input: two errors that both report the first repeat are equal |
| CHeader.OrdersAreTotal | tools/hardware/outputs/c_header.py:234-235 | ordering interrupts by label and macros by offset are total preorders |
| CHeader.Run | tools/hardware/outputs/c_header.py:169-240 | a missing header_out is an error; the header carries the computed kernel base, the memory regions unchanged and the de-duplicated kernel regions; it succeeds exactly when the base is computed and no macro label repeats |
| CHeader.RunEmitsWinnersByLabel | tools/hardware/outputs/c_header.py:198-209 | the emitted interrupts are sorted by label, one per label, each label seen has one, and each is the winning interrupt |
| CHeader.RunEmitsMacrosByOffset | tools/hardware/outputs/c_header.py:221-235 | the emitted macros are sorted by offset and are exactly the collected (label, offset) pairs |

## Left out

- printf output, and the CSR, time and cycle reads: their values are parameters of the modelled functions. This covers `read_scause`, `read_sip`, `read_satp`, `read_stval`, `get_cycles` and `rdtime`.
- `sbi_set_timer`, `set_sie_mask` and `clear_sie_mask` are modelled by their effect on the timer target and on the `sie` word only.
- `initTimer`: a single `sbi_set_timer` call with no branch, so there is nothing to prove beyond `ResetTimer.RunTargets`.
- `get_num_avail_p_regs`, `get_avail_p_reg`, `get_num_dev_p_regs` and `get_dev_p_reg` are left out; they are plain array accesses over the modelled tables.
- `map_kernel_devices` is left out: `map_kernel_frame` is not part of this model.
- The L2 cache stubs and `handleSpuriousIRQ` are left out; they have empty bodies or only print.
- `restore_user_context`, `c_handle_interrupt` and `handleInterruptEntry` are left out: inline assembly and scheduler code.
- The kernel lock macros and entry/exit hooks are left out, as are `handleVMFaultEvent`, `handleUserLevelFault`, `handleSyscall` and the fastpath bodies. The model names the handler chosen and its arguments only.
- The generated syscall numbers (`SYSCALL_MIN`, `SYSCALL_MAX`, `SysCall`, `SysReplyRecv`) are parameters.
- The stray `#xxx` directive in the fastpath block is left out; it is a preprocessor error when CONFIG_FASTPATH is set.
- The RV32 paths are left out: `get_cycles` from `rdtimeh`/`rdtime` and 32-bit `scause`. Only RV64 is modelled, except for the RV32 region table.
- HexFormat.PrintHex: the static ring of 32 buffers is not modelled. A returned string stays valid only until 32 more calls, which a pure function cannot express.
- HexFormat.PrintHex: requires width <= 32. The C pointer `rawBuf[index] + 32 - width + len` stays inside the buffer whenever width <= 32 + len and falls before it only when width > 32 + len; the bound 32 is a simplification that covers every caller (widths 1, 3 and 16).
- printPageTableLevel: the translation of a table address to a kernel pointer is left out. This covers `paddr_to_kpptr` and the window 0x40000000..0x40800000. Memory is an abstract function from (table, index) to entry.
- Sv39.Walk: the output records each entry's level, index, raw value and virtual address, not the printed line text.
- The HiFive Unleashed instance header and its generated PLIC_MAX_NUM_INT are not part of this model. Its line count is a parameter, and HiFive has no region table here.
- The MiG-V `plic_init_hart` has an empty body and `initIRQController` does not call it, so it has no counterpart.
- The register base addresses (`PLIC_BASE`, `PLIC_PPTR_BASE`) are left out: registers are fields of the controller state, not memory.
- The UART drivers are left out; they do not belong to the trap and interrupt layer.
- `FdtParser`, `HardwareYaml`, the `Region` class and `hardware.utils.memory` are not part of this model. Device interrupts and regions are inputs, region equality is equality of (base, size). A region's labels are the keys of a dict, as `group.labels.keys()` in the template shows, so `take_labels` is modelled as a dict update: new labels are added at the end, and a label already present stays where it is.
- `align_base`, `set_kernel_offset` and `get_labelled_addresses` are parameters; a failing `align_base` is an error value.
- The Jinja template rendering and the file write in `create_c_header_file` are left out; the model stops at the template arguments.
- CHeader.RunEmitsMacrosByOffset: the stability of Python's sort (equal offsets keep insertion order) is not stated, only sortedness and the permutation.
- CHeader.RunEmitsWinnersByLabel: the same holds for labels, which are distinct there, so order is fully determined.
- SifivePlic.Drain: a hardware that never reports 0 would make the C loop run forever; the model takes a finite sequence of claim values and reports running out of them as an error.
- ResetTimer.Run: a clock that keeps outrunning the target would loop forever; the model takes a finite sequence of clock readings and reports not settling.
- SifivePlic.MaskIrq: ids above PLIC_MAX_IRQ are excluded, because the C code would write past the `priority` array.
- SifivePlic.EnableIrq: ids above PLIC_MAX_IRQ are excluded, because the C code would write past the enable bitmap.
- MigvPlic.MaskIrq and MigvPlic.SetTrigger: ids above 64 are excluded. For them `BIT(irq-1)` shifts a 64-bit value by 64 or more, which C leaves undefined.
- Hcsc1Plic.MaskIrq and Hcsc1Plic.SetTrigger: id 0 and ids above 64 are excluded, because `BIT(irq-1)` is then an undefined shift. The platform code passes only ids 1..24 to them.
