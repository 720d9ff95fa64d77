# Verification of the Pano G2 terminal: simulator, firmware and logic

This project models the repository's RISC-V instruction-set simulator and the trap code that runs on it, the
AXI4 to AXI4-Lite burst converter, the flash driver with the TFTP loader and the configuration log above it,
the text terminal with the scan-out of its video memory, and the command-line splitter; and it proves what
they are for.

## Layout

| files | content |
|---|---|
| Words, Numbers, Isa, MExtension | machine words, the numbers and digits they stand for, the instruction set with its decoder, multiplication and division |
| Hart, Mmu, Exec | the simulator as a state machine: traps and CSRs, translation, one step |
| Instructions, LoadStore | what every instruction does, in the numbers, digits and bytes of the ISA manual |
| Sv32, Privilege, Traps, CsrFile | translation against the architecture, privilege over all runs, interrupts and nesting, the CSR file |
| Handler, Transparency, ExceptionTable | the assembly entry and exit code instruction by instruction, whole traps, the C dispatcher |
| ByteMemory, Regions, Machine | the byte map, memory devices in regions, and the simulator as an object, all in place |
| AxiBurst, AxiWrite, AxiRead | burst addresses, write bursts, read bursts |
| Nor, SpiFlash | the flash device, the driver |
| Transfer, FlashLimits, Loader | writing a file, exactly when that works, the loader with comparing and saving |
| ConfigLog, Config | the log of tagged entries, the functions that read and extend it |
| Terminal, ScanOut | the text screen, the pixel pipeline |
| CommandLine | splitting and unquoting in place |

The simulator is there twice: `Machine.Riscv` is the object, with its fields, loops and memory devices, and
every method of it is proved against the state machine of `Exec`, about which the theorems are stated. The
same holds for the flash loader, the terminal, the scan-out and both halves of the converter: a class in the
form of the source, proved against functions on its state.

## How the source is read

- An error exit and a failed assertion end the simulation (`Halted`). So does undefined behaviour the
  simulator can run into: a shift by 32 or more, and a valid entry found when the page-table walk goes on past
  level 0, where the unsigned level counter wraps.
- Signed overflow in MUL is read as the wrap-around that compilers give.
- Where code and architecture differ the code is followed: FENCE with a destination register clears it, CSR
  accesses have no privilege check, writes to SSTATUS, SIE and SIP clear the machine's bits
  (`CsrFile.SupervisorWindow`), the accessed and dirty bits, MXR and the ASID are ignored.
- Interrupts and console characters are inputs of a step. A program run takes any sequence of them.
- The physical memory of a hart maps word numbers to words. `Regions` shows that memory devices attached at
  word-aligned, non-wrapping regions make up such a map, `ByteMemory` that the map is one little-endian byte map.
- The trap code is the default build, in which the stack pointer is not taken from MSCRATCH.
- `spi_write` takes the length of each chunk from the whole request, so it can program more than it was asked to.
  The flash theorems hold for this code, whatever memory follows the buffer.
- A backspace at the start of a line leaves the cursor one column behind the line above (`Terminal.OffTheLine`).
- The first cell of a frame is fetched before the frame begins; `ScanOut.Frame` excludes it and
  `ScanOut.FirstCellIsStale` says what is shown there.

Claims that hold on part of the inputs only are stated as equivalences, with the condition a caller can check:
`Sv32.TranslationRefinesSv32`, `Sv32.HaltCauses`, `Sv32.PermittedIsTranslated`, `Transparency.EcallReturns`,
`CsrFile.SupervisorWindow`, `AxiBurst.ModelAgreesExactly`, `AxiBurst.ModelReadAgreesExactly`,
`SpiFlash.WrittenExact`, `FlashLimits.SucceedsExactlyWhen`, `Loader.CompareFile`, `Config.GuardExactly`,
`Terminal.OffTheLine`.

## Model

| member | source | states |
|---|---|---|
| Isa.DecodeEncode | cores/cpu/riscv/isa_sim/riscv_isa.h:12-450 | the simulator's masks and immediate macros decode every encoding of the RV32IM, CSR and privileged instructions of the ISA manual back to that instruction |
| MExtension.SignedProduct | cores/cpu/riscv/isa_sim/riscv.cpp:1300-1318 | MUL and MULH are the two halves of the exact signed 64-bit product |
| MExtension.MixedProduct | cores/cpu/riscv/isa_sim/riscv.cpp:1319-1327 | MUL and MULHSU are the halves of the signed-by-unsigned product |
| MExtension.UnsignedProduct | cores/cpu/riscv/isa_sim/riscv.cpp:1328-1336 | MUL and MULHU are the halves of the unsigned product |
| MExtension.SignedDivision | cores/cpu/riscv/isa_sim/riscv.cpp:1337-1372 | DIV and REM: q*b + r = a, r smaller than b with the sign of a, and the results for a zero divisor and for INT_MIN / -1 |
| MExtension.UnsignedDivision | cores/cpu/riscv/isa_sim/riscv.cpp:1349-1383 | DIVU and REMU: q*b + r = a and r < b, and the results for a zero divisor |
| Instructions.ComputesAlu | cores/cpu/riscv/isa_sim/riscv.cpp:923-1090 | for all operands: sums and differences modulo 2^32, and, or and exclusive or digit by digit, comparisons of the signed and unsigned numbers, shifts as multiplication by and division rounded down by 2^n; a shift by 32 or more stops the simulation |
| Instructions.ComputesMulDiv | cores/cpu/riscv/isa_sim/riscv.cpp:1300-1383 | MUL to REMU of two registers, rs1 the dividend: the word of the exact product, the quotient rounded toward zero with its remainder, and the special cases |
| Instructions.Branches | cores/cpu/riscv/isa_sim/riscv.cpp:1111-1200 | a branch jumps exactly when its condition holds of the signed or unsigned numbers, and writes no register |
| Instructions.Jumps | cores/cpu/riscv/isa_sim/riscv.cpp:1091-1110 | JAL and JALR: the link is pc + 4, the target the sum, rounded down to even for JALR |
| Instructions.UpperImmediates | cores/cpu/riscv/isa_sim/riscv.cpp:995-1010 | LUI and AUIPC |
| Instructions.NoEffects | cores/cpu/riscv/isa_sim/riscv.cpp:1452-1515 | WFI and the fences only go on; an unknown instruction stops the simulation |
| Instructions.Returns | cores/cpu/riscv/isa_sim/riscv.cpp:1408-1451 | MRET in machine mode and SRET in supervisor mode go to the saved pc, elsewhere they stop the simulation |
| Instructions.WriteRegister | cores/cpu/riscv/isa_sim/riscv.cpp:1516-1517 | the result goes to rd and to no other register, and x0 stays zero |
| LoadStore.ComputesLoad | cores/cpu/riscv/isa_sim/riscv.cpp:1201-1260 | a load gives the number of the bytes at the translated address, least significant first, sign-extended on demand; a page fault traps, a misaligned or unmapped access stops the simulation |
| LoadStore.ComputesStore | cores/cpu/riscv/isa_sim/riscv.cpp:1261-1299 | a store puts the base-256 digits of rs2 at the translated address and changes no other byte |
| Sv32.TranslationRefinesSv32 | cores/cpu/riscv/isa_sim/riscv.cpp:364-586 | for every address, access, page table and root in user and supervisor mode: the translation gives the verdict and address of section 4.3.2 of the Privileged Architecture exactly when it does not stop the simulator and is not a permitted access through a misaligned superpage or through tables above 32-bit space |
| Sv32.HaltCauses | cores/cpu/riscv/isa_sim/riscv.cpp:425-455 | the simulator stops during a translation exactly when a leaf's page is not in memory, a supervisor meets a user page it may not use, a reserved entry names a page not in memory, or a valid entry stands behind a level-0 pointer |
| Sv32.WalkStopsExactly | cores/cpu/riscv/isa_sim/riscv.cpp:390-458 | whether the walk stops the simulator, said of the two or three entries it reads |
| Sv32.NoLeafIsPageFault | cores/cpu/riscv/isa_sim/riscv.cpp:390-418 | without a leaf, a reserved entry or a level-0 pointer the translation is exactly a page fault |
| Sv32.SeenIsLeaf | cores/cpu/riscv/isa_sim/riscv.cpp:386-422 | the leaf found with truncated table numbers is the architecture's when the tables lie below 2^32, and otherwise the architecture finds none |
| Sv32.BareTranslation | cores/cpu/riscv/isa_sim/riscv.cpp:380-384 | with translation off, supervisor mode has the identity; user mode has a page fault on every access, where the architecture has the identity |
| Sv32.PermittedIsTranslated | cores/cpu/riscv/isa_sim/riscv.cpp:364-586 | whatever the architecture permits is translated to its address exactly when the page is in memory |
| Sv32.WalkTwoReads | cores/cpu/riscv/isa_sim/riscv.cpp:390-458 | unless an entry at level 0 is a pointer the walk ends within two reads, with the entries it read |
| Sv32.OffsetKept | cores/cpu/riscv/isa_sim/riscv.cpp:513-521 | a granted access keeps the low 12 bits of the address, 22 through an aligned superpage |
| Sv32.SumIsDigit | cores/cpu/riscv/isa_sim/riscv_isa.h:473-473 | SUM is binary digit 18 of the status register |
| Sv32.TruncatedRootDiffers | cores/cpu/riscv/isa_sim/riscv.cpp:386-396 | a root page number above 20 bits is truncated, so there the simulator differs from the architecture |
| Sv32.MisalignedSuperpageDiffers | cores/cpu/riscv/isa_sim/riscv.cpp:425-440 | a misaligned superpage is granted where the architecture faults |
| Privilege.ResetInv | cores/cpu/riscv/isa_sim/riscv.cpp:240-273 | reset establishes the invariant: privilege 0 to 3, x0 zero, only the six interrupt bits in mip and mie |
| Privilege.StepWithKeeps | cores/cpu/riscv/isa_sim/riscv.cpp:874-1583 | one step, with any interrupt line and console input, keeps the invariant, and if it raises the privilege it ends at the trap vector of the new level |
| Privilege.RunInv | cores/cpu/riscv/isa_sim/riscv.cpp:1559-1583 | every run keeps the invariant |
| Privilege.PrivilegeSafety | cores/cpu/riscv/isa_sim/riscv.cpp:240-1583 | over every run from reset the invariant holds, and each step that ends at a higher privilege ends with pc at mtvec or stvec of that level |
| Traps.InterruptDelivery | cores/cpu/riscv/isa_sim/riscv.cpp:1519-1547 | the interrupt taken is the lowest-numbered enabled one, those not delegated first; it lands in the mode it is for, with the cause 2^31 plus its number; none is taken in machine mode with MIE clear |
| Traps.ExecutionEnds | cores/cpu/riscv/isa_sim/riscv.cpp:874-1557 | an instruction that completes writes its register, and then the interrupt the architecture picks is taken in front of the next one |
| Traps.TrapEntry | cores/cpu/riscv/isa_sim/riscv.cpp:803-870 | trap entry: the mode by the delegation digit of the cause, the cause register as a number (the code, or 2^31 plus the interrupt), the saved pc, stval on delegated traps, the status fields, and nothing else |
| Traps.CallsTrap | cores/cpu/riscv/isa_sim/riscv.cpp:1384-1407 | ECALL traps with code 8 plus the mode, EBREAK with code 3, at their own address |
| Traps.PageFaultsTrap | cores/cpu/riscv/isa_sim/riscv.cpp:543-580 | page faults trap with code 12, 13 or 15 for a fetch, load or store, at the instruction, with the address |
| Traps.TimerTicks | cores/cpu/riscv/isa_sim/riscv.cpp:1566-1572 | the time goes up by one, and the timer interrupt becomes pending exactly when it reaches the threshold: number 5 if that is delegated, else 7 |
| Traps.ExternalRaised | cores/cpu/riscv/isa_sim/riscv.cpp:1594-1598 | the external line makes interrupt 11 pending and no other |
| Traps.PushMachineFields | cores/cpu/riscv/isa_sim/riscv.cpp:845-869 | trap entry to machine mode saves MIE and the privilege, clears MIE and leaves all other status fields |
| Traps.PushSupervisorFields | cores/cpu/riscv/isa_sim/riscv.cpp:821-843 | the same for supervisor mode, SIE and SPP |
| Traps.PopMachineFields | cores/cpu/riscv/isa_sim/riscv.cpp:1408-1426 | MRET restores MIE, sets MPIE, clears MPP and leaves all other status fields |
| Traps.PopSupervisorFields | cores/cpu/riscv/isa_sim/riscv.cpp:1434-1451 | the same for SRET |
| Traps.MachineTrapReturns | cores/cpu/riscv/isa_sim/riscv.cpp:845-869 | a trap to machine mode and an MRET with the save fields kept return to the same pc, privilege and enable bits |
| Traps.NestedTrapsUnwind | cores/cpu/riscv/isa_sim/riscv.cpp:803-870 | a delegated trap into S, in it a trap into M, then MRET, then SRET: the first pc, privilege, SIE and MIE come back |
| CsrFile.SetOther | cores/cpu/riscv/isa_sim/riscv.cpp:661-672 | writing one CSR leaves the registers behind all others |
| CsrFile.WriteReadsBack | cores/cpu/riscv/isa_sim/riscv.cpp:661-672 | a CSR written whole reads back with the bits that exist, and the write returned the old value |
| CsrFile.SupervisorWindow | cores/cpu/riscv/isa_sim/riscv.cpp:756-771 | updates through SSTATUS, SIE and SIP leave the machine's bits alone exactly when they set or clear bits, or those bits were zero |
| CsrFile.AccessesRegister | cores/cpu/riscv/isa_sim/riscv.cpp:657-785 | a CSR by its number: the access shows the old digits under its mask, and writes, sets or clears digits with those of the operand under the mask |
| CsrFile.AccessesConstant | cores/cpu/riscv/isa_sim/riscv.cpp:730-799 | the numbers that read as constants, and that all numbers not listed stop the simulation |
| CsrFile.ControlsSimulator | cores/cpu/riscv/isa_sim/riscv.cpp:682-722 | the control CSR: a zero top byte ends the simulation, 2 reads a character |
| CsrFile.SetsTimer | cores/cpu/riscv/isa_sim/riscv.cpp:779-790 | a write to the time sets the threshold and withdraws the pending timer interrupt; zero and clearing do nothing |
| CsrFile.ComputesCsr | cores/cpu/riscv/isa_sim/riscv.cpp:1457-1500 | the CSR instructions: rd gets the value before, the operand is rs1 or its number |
| CsrFile.ResetIsZero | cores/cpu/riscv/isa_sim/riscv.cpp:240-273 | after reset: machine mode, the start address, and zero in all registers and CSRs |
| Handler.QuietStep | cores/cpu/riscv/isa_sim/riscv.cpp:874-1557 | with interrupts disabled in machine mode one step is the effect of its instruction on registers, memory and three CSRs, whatever interrupts arrive |
| Handler.ProgramRuns | cores/cpu/riscv/isa_sim/riscv.cpp:1559-1583 | the same for a straight line of code |
| Handler.EntryCode | pano/fw/arch/riscv/exception_asm.h:6-62 | the entry code saves x1 to x31, mcause, mstatus and mepc in a frame of 35 words below sp, changes no other memory, and calls the handler with the frame in a0 and the exit code in ra |
| Handler.FrameFilled | pano/fw/arch/riscv/exception_asm.h:12-58 | every saved register and CSR is in its slot and no other word of memory changes |
| Handler.EpilogueRuns | pano/fw/arch/riscv/exception_asm.h:64-104 | the exit code restores mepc, mstatus and all registers from the frame in a0, up to the MRET |
| Transparency.FixMppFields | pano/fw/arch/riscv/exception.c:38-42 | the handler's fix-up sets MPP to machine mode and leaves all other status fields |
| Transparency.FrameCause | pano/fw/arch/riscv/exception_asm.h:46-47 | the cause in the frame is the number of the trap |
| Transparency.TrapEnters | pano/fw/arch/riscv/exception_asm.h:6-62 | from a trap to the C handler, whatever interrupts arrive at each instruction |
| Transparency.ContextResumes | pano/fw/arch/riscv/exception_asm.h:64-109 | whatever context a handler returns, its own or another, is the one resumed after the MRET |
| Transparency.TrapTransparent | pano/fw/arch/riscv/exception_asm.h:6-109 | a trap, the entry code, a handler that returns its frame as prepared, the exit code and MRET: all registers, status fields and memory outside the frame as the handler left it |
| Transparency.InterruptTransparent | pano/fw/arch/riscv/exception_asm.h:6-109 | an interrupt taken in machine mode resumes at the interrupted pc with x1 to x31, privilege and MIE as before |
| Transparency.EcallReturns | pano/fw/arch/riscv/exception.c:52-66 | a system call returns behind its ECALL with all registers, always in machine mode: the privilege is the same exactly when it was machine mode |
| ExceptionTable.Table.Handle | pano/fw/arch/riscv/exception.c:36-78 | the frame is fixed up in place (MPP, and pc past an ECALL) and the handler for the cause is chosen |
| ExceptionTable.Table.SetSyscallHandler | pano/fw/arch/riscv/exception.c:23-28 | sets the three ECALL entries and no other |
| ExceptionTable.SyscallsReachHandler | pano/fw/arch/riscv/exception.c:23-68 | with a system call handler set every ECALL reaches it and the choice for interrupts is unchanged and never aborts |
| ExceptionTable.HandlerChosen | pano/fw/arch/riscv/exception.c:36-78 | from the trap to the handler: every interrupt reaches the interrupt handler, every exception the one registered for its code; without one an interrupt is ignored and an exception aborts |
| ByteMemory.LoadRefines | cores/cpu/riscv/isa_sim/memory.h:79-125 | a load of 1, 2 or 4 bytes is the little-endian value of the bytes, zero or sign extended, and fails in the same cases |
| ByteMemory.StoreRefines | cores/cpu/riscv/isa_sim/memory.h:127-160 | a store changes exactly its bytes |
| ByteMemory.MemoryRefinement | cores/cpu/riscv/isa_sim/memory.h:79-160 | any sequence of loads and stores behaves as on one byte map |
| Regions.SimpleMemory.Load | cores/cpu/riscv/isa_sim/memory.h:79-125 | the case by case load of a device is the load of the hart's memory |
| Regions.SimpleMemory.Store | cores/cpu/riscv/isa_sim/memory.h:127-160 | the same for stores |
| Regions.SimpleMemory.Reset | cores/cpu/riscv/isa_sim/memory.h:74-77 | all words zero |
| Regions.Bus.Find | cores/cpu/riscv/isa_sim/riscv.cpp:278-286 | the lookup loop finds the first region attached that contains the address |
| Regions.Bus.Attach | cores/cpu/riscv/isa_sim/riscv.cpp:113-128 | up to 16 regions; the physical memory grows by the cleared words that no earlier region has, and keeps the others |
| Regions.Bus.Load | cores/cpu/riscv/isa_sim/riscv.cpp:591-618 | a load through the regions is a load from the one physical memory they make up |
| Regions.Bus.ReadWord | cores/cpu/riscv/isa_sim/riscv.cpp:328-359 | the same for page-table entries and instructions |
| Regions.Bus.Store | cores/cpu/riscv/isa_sim/riscv.cpp:623-652 | a store through the regions is a store to that memory, and the regions go on showing it |
| Machine.Riscv.constructor | cores/cpu/riscv/isa_sim/riscv.cpp:240-273 | the state after reset |
| Machine.Riscv.SetInterrupt | cores/cpu/riscv/isa_sim/riscv.cpp:1594-1598 | the external interrupt becomes pending |
| Machine.Riscv.TakeException | cores/cpu/riscv/isa_sim/riscv.cpp:803-870 | the fields after a trap are those of the state machine |
| Machine.Riscv.Walk | cores/cpu/riscv/isa_sim/riscv.cpp:364-460 | the page-table loop, entry by entry through the bus, computes the walk |
| Machine.Riscv.MmuTranslate | cores/cpu/riscv/isa_sim/riscv.cpp:465-586 | translation with its page faults taken |
| Machine.Riscv.LoadWord | cores/cpu/riscv/isa_sim/riscv.cpp:591-618 | a load with translation, page fault or end of the simulation |
| Machine.Riscv.StoreWord | cores/cpu/riscv/isa_sim/riscv.cpp:623-652 | the same for a store |
| Machine.Riscv.AccessRegister | cores/cpu/riscv/isa_sim/riscv.cpp:661-672 | the register update that every standard CSR shares |
| Machine.Riscv.Access | cores/cpu/riscv/isa_sim/riscv.cpp:657-799 | all CSR accesses |
| Machine.Riscv.Dispatch | cores/cpu/riscv/isa_sim/riscv.cpp:917-1515 | every instruction up to its write-back has the effect of the state machine |
| Machine.Riscv.PendingInterrupt | cores/cpu/riscv/isa_sim/riscv.cpp:1519-1556 | the interrupt loop takes the first enabled interrupt or goes on to the next instruction |
| Machine.Riscv.ExecuteOne | cores/cpu/riscv/isa_sim/riscv.cpp:874-1557 | fetch, execute, write back and interrupts refine the state machine |
| Machine.Riscv.StepOne | cores/cpu/riscv/isa_sim/riscv.cpp:1559-1583 | a step of the object is a step of the state machine, timer included |
| AxiBurst.IncrBeat | fpga/axi4_axi4lite_conv.v:93-122 | beat n of an incrementing burst is at addr + 4n modulo 2^32 |
| AxiBurst.WrapVisits | fpga/axi4_axi4lite_conv.v:93-122 | a wrapping burst of 2, 4, 8 or 16 beats visits every word of its aligned window at exactly one beat |
| AxiBurst.WrapStays | fpga/axi4_axi4lite_conv.v:93-122 | a wrapping burst never leaves its window and would return to its start |
| AxiBurst.UnrollRead | cores/cpu/riscv/top_cache_axi/tb/tb_axi4_mem.cpp:23-40 | the memory model's list of read addresses, from the start rounded down, with the last one marked |
| AxiBurst.ModelAgreesExactly | cores/cpu/riscv/top_cache_axi/tb/tb_axi4_mem.cpp:127-165 | converter and memory model agree on all addresses of a burst exactly when the type is not 3 or there is one beat |
| AxiBurst.ModelReadAgreesExactly | cores/cpu/riscv/top_cache_axi/tb/tb_axi4_mem.cpp:23-40 | for reads, exactly when moreover the start is word aligned |
| AxiWrite.Converter.Clock | fpga/axi4_axi4lite_conv.v:127-285 | the registers of the write side after a clock edge |
| AxiWrite.WriteBursts | fpga/axi4_axi4lite_conv.v:220-327 | over every legal run the lite writes are the beats of the accepted bursts, in order and with their addresses, and each burst gets exactly one response, with its id, after its last beat |
| AxiWrite.WriteCycles | fpga/axi4_axi4lite_conv.v:205-327 | over every legal run each cycle does what a converter without registers would: between bursts an offered command is taken exactly when the slave is ready, with its first beat or before it; in a burst an offered beat is written exactly when the slave is ready; then the answer goes to the master exactly when it is there and wanted |
| AxiWrite.BurstEnds | fpga/axi4_axi4lite_conv.v:205-327 | a legal run that offers the missing beats to a ready slave and then lets the slave answer ends with the response of the burst, with its id |
| AxiWrite.SidesTogether | fpga/axi4_axi4lite_conv.v:287-304 | the address and data handshakes of the lite port always come together |
| AxiRead.Converter.Clock | fpga/axi4_axi4lite_conv.v:127-218 | the registers of the read side after a clock edge |
| AxiRead.ReadBursts | fpga/axi4_axi4lite_conv.v:170-327 | over every run, whatever the master does, no command causes more than ARLEN+1 lite reads, all earlier ones have caused as many, at their beat addresses, and the replies carry the id with RLAST on beat ARLEN only |
| AxiRead.ReadCycles | fpga/axi4_axi4lite_conv.v:170-327 | over every run each cycle does what a converter without registers would: between bursts an offered command is taken exactly when the slave is ready; in a burst the next read is made exactly when the slave is ready, until there are ARLEN+1; each answer goes through |
| AxiRead.BurstEnds | fpga/axi4_axi4lite_conv.v:170-327 | a run in which the slave is ready as often as reads are missing, and as many answers are taken as are missing, ends the burst with ARLEN+1 reads and replies |
| AxiRead.OneBurstAtATime | fpga/axi4_axi4lite_conv.v:127-165 | no command is accepted while a burst is in progress |
| Nor.AndByte | fw/include/spiffs_config_g2.h:313-319 | programming an erased byte stores it, programming the same byte again changes nothing |
| Nor.ProgramsDigits | fw/include/spiffs_config_g2.h:313-319 | programming clears exactly the binary digits that are zero in the data |
| Nor.Device.PageProgram | pano/fw/common/spi_drv.c:165-173 | programming within a page clears bits of the bytes addressed and no others |
| SpiFlash.WrittenExact | pano/fw/common/spi_drv.c:157-163 | how many bytes a write programs: never past the last page of the request, and more than asked unless it lies in one page or ends at the end of one |
| SpiFlash.ProgramsInPages | pano/fw/common/spi_drv.c:157-176 | no page program crosses a page |
| SpiFlash.Write | pano/fw/common/spi_drv.c:140-181 | the write loop ends, refuses what does not fit the chip, and programs the buffer's bytes |
| SpiFlash.WriteMeaning | pano/fw/common/spi_drv.c:140-181 | the range asked for holds old AND data; nothing before it or past its last page changes |
| SpiFlash.ExcessHarmless | pano/fw/common/spi_drv.c:157-163 | where the buffer goes on with the flash's own content the excess changes nothing |
| SpiFlash.Read | pano/fw/common/spi_drv.c:113-138 | the bytes of the range |
| SpiFlash.EraseRange | pano/fw/common/spi_drv.c:183-218 | the loop over the sectors of the range erases all whole ones, each once and in order, or refuses the request; it returns -1 either way |
| Transfer.FileFlashed | fw/pano_term/tftp_ldr.c:106-191 | a file sent in TFTP blocks ends up in the flash byte for byte, each touched sector erased exactly once and before its first program, nothing else changed |
| FlashLimits.SucceedsExactlyWhen | fw/pano_term/tftp_ldr.c:127-148 | writing works for every file, content and buffer memory exactly when the first block lies in one sector and the file starts a page or is one block |
| FlashLimits.LongStraddleErases | fw/pano_term/tftp_ldr.c:134-143 | when the first block crosses a sector boundary the byte behind the boundary ends as 255, whatever file, flash content and memory: the second block's erase wipes the end of the first |
| FlashLimits.UnalignedSpoils | fw/pano_term/tftp_ldr.c:145-147 | off a page boundary the first byte of the second payload ends and-ed with what followed the first payload in memory, whatever file and flash content |
| Loader.TftpLoader.FlashOne | fw/pano_term/tftp_ldr.c:127-148 | one buffer written, with the erase it may need |
| Loader.TftpLoader.CompareOne | fw/pano_term/tftp_ldr.c:150-171 | one buffer compared; on a difference the count stops at it |
| Loader.TftpLoader.CopyOne | fw/pano_term/tftp_ldr.c:119-125 | one buffer copied to memory, if the whole packet fits |
| Loader.TftpLoader.Receive | fw/pano_term/tftp_ldr.c:106-191 | a received packet in each of the transfer modes |
| Loader.TftpLoader.Send | fw/pano_term/tftp_ldr.c:79-104 | the next bytes of a saved range |
| Loader.CompareFile | fw/pano_term/tftp_ldr.c:150-191 | a comparison succeeds exactly when the range holds the file, else FlashAdr + BytesTransfered is the first byte that differs |
| Loader.FlashThenCompare | fw/pano_term/tftp_ldr.c:106-191 | a file just written compares without a difference |
| Loader.FlashThenSave | fw/pano_term/tftp_ldr.c:79-191 | saving the range of a file just written returns the file |
| Loader.FileCopied | fw/pano_term/tftp_ldr.c:119-125 | a file goes to memory byte for byte exactly when it fits, else the transfer ends with an error |
| ConfigLog.ReadIsLittleEndian | fw/pano_term/main.c:1667-1671 | tags, lengths and addresses are stored least significant byte first |
| ConfigLog.ScanFindsEnd | fw/pano_term/main.c:1667-1683 | on a well-formed log the scan finds its end |
| ConfigLog.ServerIsLast | fw/pano_term/main.c:1685-1697 | applying the log sets the server address to the last one logged |
| ConfigLog.DirtyIsLast | fw/pano_term/main.c:1736-1763 | a tag is dirty exactly when its last logged value differs from the data |
| ConfigLog.AppendKeeps | fw/pano_term/main.c:1786-1791 | the log with an entry behind it is again a log, with one more entry |
| ConfigLog.LookupAppended | fw/pano_term/main.c:1797-1801 | the last writer wins: an entry changes the value of its tag and of no other |
| Config.ConfigStore.Parse | fw/pano_term/main.c:1652-1711 | the address behind the log, the server address on demand, and what happens with a block that is no log |
| Config.ConfigStore.Check | fw/pano_term/main.c:1714-1767 | whether the tag's value differs from the data |
| Config.ConfigStore.Add | fw/pano_term/main.c:1769-1795 | an entry with room for an end mark is appended, all other flash bytes stay, and it is applied; otherwise nothing happens |
| Config.ConfigStore.Update | fw/pano_term/main.c:1797-1801 | nothing is written when the value is the current one or the default, room or not; otherwise the entry is appended and the server address is the last one logged |
| Config.ConfigStore.Commit | fw/pano_term/main.c:1814-1821 | once the server address in use is committed, applying the log in the flash gives it, whatever address there was; nothing happens exactly when it was not current and there is no room for an end mark |
| Config.ConfigStore.CheckEmpty | fw/pano_term/main.c:1542-1562 | whether every page of the sector equals the second page of the buffer |
| Config.GuardExactly | fw/pano_term/main.c:1782-1784 | the space check is exact for entries that fit the rest of the block, and passes for longer ones because it wraps |
| Config.UpdateTwice | fw/pano_term/main.c:1797-1801 | the same update twice: the second call leaves the flash as the first one left it, so that one entry is added at most; the tag has the new value and every other tag its old one |
| Config.ZeroSectorTakenForEmpty | fw/pano_term/main.c:1542-1562 | a sector of zeros is taken for an empty one |
| Config.ErasedSectorIsEmptyLog | fw/pano_term/main.c:1667-1668 | an erased sector is the empty log |
| Terminal.Vt100.constructor | fw/pano_term/vt100.c:1049-1054 | the screen at start-up shows an empty document |
| Terminal.Vt100.ClearLines | fw/pano_term/vt100.c:214-240 | the lines are cleared and no others |
| Terminal.Vt100.Scroll | fw/pano_term/vt100.c:281-337 | the screen moves up and the free lines are cleared; nothing happens for zero or fewer lines |
| Terminal.Vt100.Move | fw/pano_term/vt100.c:340-392 | the last column holds the cursor, the last line scrolls, and a move to the left of a line goes to the line above, counted from one column too far |
| Terminal.Vt100.RemoveCursor | fw/pano_term/vt100.c:394-407 | the hidden character comes back |
| Terminal.Vt100.DrawCursor | fw/pano_term/vt100.c:409-417 | the cursor hides a character that lifting it gives back |
| Terminal.Vt100.PutChar | fw/pano_term/vt100.c:420-434 | a character put on the screen is put in the document |
| Terminal.Vt100.Receive | fw/pano_term/vt100.c:976-1039 | one received character other than ESC, backspace and delete included, does to the screen what it does to the document |
| Terminal.Vt100.ReceiveAll | fw/pano_term/vt100.c:976-1039 | after any text from start-up the screen with the cursor lifted is the last 64 lines of the document, and every access is in bounds |
| Terminal.LinesStand | fw/pano_term/vt100.c:984-995 | lines typed from start-up stand one below the other, each followed by blanks, for any number of lines; the document grows by a cleared line exactly when the last one is left |
| Terminal.NewLineMeans | fw/pano_term/vt100.c:984-989 | a newline goes to the start of the next line; from the last line a cleared one is added first |
| Terminal.ReturnMeans | fw/pano_term/vt100.c:991-993 | a carriage return goes to the start of the line and changes no text; bell and answer-back do nothing |
| Terminal.ReturnOverwrites | fw/pano_term/vt100.c:991-993 | text behind a carriage return overwrites the line from its start |
| Terminal.DeleteMeans | fw/pano_term/vt100.c:1004-1011 | delete blanks the cell at the cursor and leaves the cursor there, in the last column one to the left |
| Terminal.BackspaceMeans | fw/pano_term/vt100.c:997-1003 | backspace goes left, or from the start of a line behind the end of the line above, if that is on the screen |
| Terminal.TabMeans | fw/pano_term/vt100.c:1012-1018 | a tab puts blanks up to the next multiple of four and changes nothing else |
| Terminal.PrintsLine | fw/pano_term/vt100.c:1026-1029 | printable text that fits the line is put there as it is and only there |
| Terminal.PastStays | fw/pano_term/vt100.c:976-1039 | without backspaces, lines above the current one never change |
| Terminal.OffTheLine | fw/pano_term/vt100.c:340-361 | the column is off the line exactly after a backspace from the start of a line |
| Terminal.BackspaceAtStart | fw/pano_term/vt100.c:356-359 | after such a backspace the next character goes to the start of the line that was left, and only the one after it to the end of the line above |
| Terminal.TabColumn | fw/pano_term/vt100.c:1007-1013 | a tab moves right to a multiple of four or to the last column |
| Terminal.FullLineOverwrites | fw/pano_term/vt100.c:346-354 | of printable text too long for the line, what fits before the last column stays and the last column holds the last character |
| ScanOut.Console.Clock | fpga/console.v:232-277 | the registers after a pixel clock |
| ScanOut.PixelStep | fpga/console.v:254-276 | one text pixel keeps the counters on the beam and the shift register on its cell |
| ScanOut.Frame | fpga/console.v:215-277 | over every frame v_addr = 160*v_row + v_col at every text pixel, and all but those of the first cell show their cell's font bit and colours |
| ScanOut.FirstCellIsStale | fpga/console.v:243-276 | the first cell of a frame shows what the shift register held before |
| ScanOut.BandColour | fpga/console.v:228-228 | between text and status line the screen is black with a grey rule of two lines |
| CommandLine.QuotingRoundTrip | fw/pano_term/strmbtok.c:82-102 | up to 8 arguments, each bare or between quotes of either kind, joined by spaces, come back |
| CommandLine.EmptyArgument | fw/pano_term/strmbtok.c:7-50 | two spaces in a row make an empty argument |
| CommandLine.StrippedParts | fw/pano_term/strmbtok.c:82-90 | exactly the spaces and tabs at the start of the line are skipped |
| CommandLine.Splitter.NextToken | fw/pano_term/strmbtok.c:7-50 | the next token is cut in place and the rest stays |
| CommandLine.Splitter.Unquote | fw/pano_term/strmbtok.c:55-80 | the text at p becomes the text without its quotes and no byte outside it changes |
| CommandLine.Splitter.Parse | fw/pano_term/strmbtok.c:82-102 | for every line the arguments found in the buffer are its tokens without their quotes; unquoting one disturbs no other |
| CommandLine.Splitter.ParseQuoted | fw/pano_term/strmbtok.c:82-102 | on a buffer with up to 8 arguments, bare or quoted, joined by spaces, the splitting in place leaves exactly these arguments |

## Left out

- Handler.EntryCode: the frame must be mapped memory outside the code, because the simulator ends on any other access.
- Sv32.TranslationRefinesSv32: the accessed and dirty bits, MXR and the ASID are not part of the architecture's side, because the simulator ignores them.
- Regions.SimpleMemory.Load: the word buffer is a map from word index to word rather than an array, and an access outside it is not modelled.
- Regions.Bus.Attach: regions of whole words that do not wrap around, each with a device of its own that is at least as long.
- Machine.Riscv.Access: output to the console, trace control and the print request have no effect, and an exit ends the simulation; that the page-table walk for a print request's format can end the simulation is not modelled.
- AxiWrite.WriteBursts: the lite slave has one write outstanding, and the master offers no data before its command; that a slow slave answers at all is not part of the claim.
- SpiFlash.Write: address and length do not wrap around 32 bits together.
- SpiFlash.Read: the range lies in the chip.
- SpiFlash.EraseRange: write enable, status polling and the SPI signals are not modelled; address and length do not wrap around 32 bits together.
- Loader.TftpLoader.CompareOne: the compared range lies in the chip.
- Loader.TftpLoader.Send: the saved range lies in the chip.
- Loader.TftpLoader.Receive: a packet is one buffer; in a chain the code writes every buffer at the address of the first.
- Config.ConfigStore.Check: the same blocks as for Parse.
- Config.ConfigStore.Parse: lengths that make the scan go back or read behind the block buffer are excluded, because there the code loops or reads memory that is not its own.
- Config.ConfigStore.Update: the same entries as for Add, when the value is not the current one.
- Config.ConfigStore.Commit: the same.
- Config.ConfigStore.Add: an entry longer than the rest of the block is excluded, because the check lets it pass and it is copied past the end of the buffer (`Config.GuardExactly`).
- Terminal.Vt100.Receive: escape sequences, and with them cursor addressing, scroll regions and wrapping, are not part of the text fragment.
- Terminal.Vt100.ReceiveAll: the same.
- Terminal.Vt100.Move: moves to the left of the line by a whole width, or together with a move down, which only escape sequences can ask for.
- CommandLine.Splitter.Unquote: a text that without its quotes does not fit the 256-byte scratch buffer is excluded, because the code writes past that buffer.
- CommandLine.Splitter.Parse: the same.
- Networking, DHCP, Ethernet polling, LEDs, shell commands and printing.
- Breakpoints, statistics, tracing, ELF loading, the cosimulation interface and the SystemC and Verilator wrappers.
- The queues and random delays of the AXI memory model, and its byte accesses.
- The bus interface of the console's video memory, and writes to it during a frame.
- The status line of the terminal, which is the same code on another part of video memory.
- UART, I2C, audio, GPIO, clocks, resets, pin constraints, fonts, scripts and binary-to-text tools.
