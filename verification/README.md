# Sail models, verified

This project models two connected bodies of code from the Sail repository and proves properties of them in Dafny.

**The ARMv8 user-mode instruction model** (`aarch64_small/`). Instructions, state and configuration are in
`Instructions`; what each instruction does, as a function of the state, is in `Semantics`; the clauses as they
run, with registers and buffers updated step by step, are methods of `Machines.Machine`, each proved to end where
`Semantics` says. `Footprint` states what the static analysis claims (`Analyser` computes it as the source does)
and `FootprintSound` and `FootprintEvents` prove the claims against the semantics: what changes, what results
depend on, which addresses are used, where control goes, what kind of access is made, and that independent
instructions commute. `NeededInputs` proves the other half, that no input and no address register is announced too
much: `FootprintNeeded` says what needed means, `NeededData`, `NeededControl` and `NeededMemory` decide it for every
register of every instruction and list the exceptions, over states tried in `NeededSums`, `NeededValues`, `NeededBits`,
`NeededLogic` and `NeededProducts`. `Audit` runs the two side by side: the analysis that is computed covers the machine that
runs. `Effects` describes what every data-processing instruction leaves by numbers, bits and flags, and the
machine's clauses promise it. Below them are the bit-vector library (`BitVectors`, `Shifts`, `CommonLib`, `A64Lib`), CRC
as division over GF(2) (`Gf2`), the swap network of the reversals (`SwapNetwork`), the memory-access buffers
(`MemAccess`), memory as numbers (`MemoryNumbers`), what loads and stores move (`AccessMeanings`), what branches and
system instructions decide and show (`ControlMeanings`), and consequences for short programs (`Programs`, `Bitfields`,
`StoreLoad`) and single instructions (`Meanings`).

**The C runtime that executes such models** (`lib/`). Length-tagged bit vectors (`SailBits`, `SailSlices`), byte
reversal (`ByteOrder`, `FastReversal`), exact rationals (`SailReals`), the lazily allocated block memory (`Rts`, `Ram`), the ELF
loader (`Elf`) and the file layout it reads (`ElfLayout`).

Bit vectors are sequences of bits with the least significant first, GMP integers are `int`, GMP rationals are
`real`, 64-bit C arithmetic is written modulo 2^64. `dafny verify dfyconfig.toml` checks everything.

## Where code and expectation differ

- The footprint of `TMStart`, `TMTest` and a `LoadLiteral` prefetch announces outputs that need not be written, so
  those outputs are not functions of the announced inputs; `FootprintSound.FootprintExact` gives the exact condition.
- Some announced inputs make no difference: the analysis looks at register names only, so it announces both operands of
  x - x, the factors of a product with the zero register, the flags of a choice between equal values, and SPSel, which
  EL0 never uses. `NeededData.DataIdle`, `NeededControl.SystemIdle` and `NeededMemory.MemoryIdle` list all such cases.
- In big-endian memory a register pair stored by STP comes back exchanged from LDP, because the halves are reversed
  separately on the way out and together on the way in; a 64-bit STXP pair comes back exchanged from LDXP, because
  STXP orders the halves by the endianness and the 64-bit LDXP does not.
- `shift_bits_right_arith` sets bits above its length when the sign is set and the shift exceeds the length.
- The entry point `loadELFHdr` reports is not byte-swapped for big-endian files; `Elf.EntryExact` says when that matters.
- `reverse_endianness` rounds a length that is not whole bytes up, so its result can exceed the length;
  `ByteOrder.ReversalFits` says when.
- `loadBlock64` keeps 32 bits of the segment sizes; an offset past the end of the file passes the size check of
  `loadProgHdr32/64` by unsigned wrap-around, and the read that follows is outside the buffer (`OutsideBuffer`).
- The register aliases of `aarch64_small/armV8_pstate.sail` all go through NZCV; the intended registers of
  `arm/armV8_pstate.sail` are modelled. `Replicate` and line 793 of `ExtendReg` are garbled in the port; their meaning
  is taken from the generated `aarch64_small/armV8_embed.lem`. The six-bit `S + 1` of `DecodeBitMasks` is integer
  addition there, so it does not wrap.

## Model

| member | source | states |
|---|---|---|
| `FootprintSound.NothingElseChanges` | aarch64_small/aarch64_regfp.sail:136-599 | For every instruction and state: a register, flag or PC outside the announced outputs oR keeps its value |
| `FootprintSound.FootprintExact` | aarch64_small/aarch64_regfp.sail:136-599 | For an instruction that finishes: states that agree on the announced inputs iR, the PC and memory end alike (exit or finish, same events, same memory) and agree on oR, exactly when the instruction is not a refused TSTART with a target register, TTEST, or a literal prefetch naming a register |
| `FootprintSound.Parallel` | aarch64_small/aarch64_regfp.sail:136-599 | Agreement on iR and on any further registers is kept by execution and extended to everything written; the PC is needed only for branches |
| `FootprintSound.UncoveredTest` | aarch64_small/aarch64_regfp.sail:161-164 | TTEST announces all of NZCV but leaves the reserved bits: a pair of states with equal inputs and different outputs exists for every state |
| `FootprintSound.IndependentCommute` | aarch64_small/aarch64_regfp.sail:136-599 | Register-only instructions (data processing, branches, TTEST, MRS, MSR, hints, CLREX) whose footprints do not meet commute: same final state, same exits |
| `FootprintSound.NextAddressAnnounced` | aarch64_small/aarch64_regfp.sail:136-599 | After execution the PC is unchanged with the successor announced, or at an announced concrete address with its tag byte stripped, or an indirect target was announced |
| `FootprintSound.StripTagIdentity` | aarch64_small/armV8_common_lib.sail:759-799 | An announced concrete address is the real one exactly when its tag byte equals bit 55 or tag removal is off for it |
| `FootprintEvents.MemoryEventsExact` | aarch64_small/armV8.sail:716-1555 | A load makes one read, a store announces one address and writes one value, with the effective address, size and kind of the instruction; a failed store-exclusive makes none |
| `FootprintEvents.AddressesDetermined` | aarch64_small/aarch64_regfp.sail:296-487 | The announced address registers aR fix every address an instruction uses, whatever memory and all other registers hold |
| `FootprintEvents.KindSound` | aarch64_small/aarch64_regfp.sail:36-71 | Every event of an instruction is of the announced instruction kind; of the transaction kinds only a commit commits |
| `FootprintEvents.AnalysisDefined` | aarch64_small/aarch64_regfp.sail:136-599 | An instruction that finishes has an analysis (acquire/release/exclusive accesses with the access types their decoder gives) |
| `FootprintEvents.OnlyWritesChangeMemory` | aarch64_small/aarch64_regfp.sail:136-599 | Memory changes only under instructions announced as memory writes |
| `Agreement.AgreeCondition` | aarch64_small/aarch64_regfp.sail:105-116 | A condition code depends only on the flags ConditionHoldsIFP names |
| `FootprintData.WriteDetermined` | aarch64_small/armV8.sail:1615-2344 | What a data-processing instruction writes depends only on its announced inputs |
| `FootprintData.WriteTargets` | aarch64_small/aarch64_regfp.sail:488-599 | A data-processing instruction writes exactly its announced outputs, for every state |
| `FootprintMemory.MemoryMatching` | aarch64_small/aarch64_regfp.sail:296-487 | Loads and stores from states agreeing on iR and memory end alike and agree on what they write; nothing outside oR changes |
| `Analyser.InitialAnalysis` | aarch64_small/aarch64_regfp.sail:136-599 | The step-by-step analysis yields the claimed iR, oR, aR, next addresses and kind, or gives up exactly where the claim does |
| `NeededInputs.TightAnalysis` | aarch64_small/aarch64_regfp.sail:136-599 | The computed analysis announces nothing too much: for every register, some instruction of the form depends on it in two states that differ in it alone exactly when it is in iR and not one of the listed idle inputs, or is an output that may keep its old value; and the address of a load or store depends on it exactly when it is in aR and not the stack selection, a post-indexed index or of an access that is never made |
| `NeededInputs.InputsExact` | aarch64_small/aarch64_regfp.sail:136-599 | The same of the claimed iR, for every instruction of the four groups |
| `NeededData.DataInputsExact` | aarch64_small/aarch64_regfp.sail:488-599 | Data processing: a register or flag changes the result of an instruction with the same registers, width, operation and condition (immediates and positions free), in two states that differ in it alone, exactly when it is announced and not idle: SPSel, operands the zero register hides, x - x and a word checked against itself, a choice between equal values, a product without an upper half |
| `NeededControl.BranchInputsExact` | aarch64_small/aarch64_regfp.sail:165-293 | Branches: a register or flag (the PC, for a call) decides where control goes or what the link register holds exactly when it is announced and is not the exception level |
| `NeededControl.NextAddressesExact` | aarch64_small/aarch64_regfp.sail:165-293 | Every announced next address is gone to from some state at the same PC, an indirect one being any address, unless the branch is decided the other way beforehand (an always-true condition, a test of the zero register) |
| `NeededControl.SystemInputsExact` | aarch64_small/aarch64_regfp.sail:142-275 | System instructions: a register or flag matters exactly when it is announced and not idle (a mask the operand names, a move to an unknown system register or into the zero register), or is the reserved part of NZCV under TTEST or the target of TSTART |
| `NeededMemory.MemoryInputsExact` | aarch64_small/aarch64_regfp.sail:296-487 | Loads and stores: a register changes how the access ends, its events, memory or an output exactly when it is announced and not idle (SPSel, CurrentEL, accesses never made that move no base, a post-indexed index that is kept nowhere), or is the target of a literal prefetch |
| `NeededMemory.AddressesExact` | aarch64_small/aarch64_regfp.sail:296-487 | The address of a load or store depends on a register exactly when it is announced in aR and is not SPSel, a post-indexed index, or of an access that is never made |
| `NeededMemory.KindReached` | aarch64_small/aarch64_regfp.sail:36-71 | What is announced as a read or write makes one from some state exactly when the access can be made at all: no conflicting registers, a known access type, an exclusive pair |
| `Audit.Audited` | aarch64_small/aarch64_regfp.sail:136-599 | The analysis computed and the instruction run: when the machine finishes there is an analysis, no register outside its oR has changed, every new event is of its kind, memory changed only if it announces a write, and the PC is where one of its next addresses puts it |
| `Audit.AuditedTwice` | aarch64_small/aarch64_regfp.sail:136-599 | Two machines that agree on the computed iR, on the PC and on memory run the instruction alike: both finish or neither, with equal new events, equal memory, equal iR and (when every announced write happens) equal oR; agreement on the computed aR alone makes the new events of two finishing runs equal |
| `FootprintMemory.AcqExcMatching` | aarch64_small/aarch64_regfp.sail:306-357 | Acquire, release and exclusive accesses: runs from states that agree on the announced inputs and memory end alike and agree on the announced outputs, and nothing else changes |
| `FootprintMemory.PairMatching` | aarch64_small/aarch64_regfp.sail:456-487 | The same for both register-pair forms: base, transferred registers of a store and writeback are all a run depends on and changes |
| `FootprintMemory.SingleMatching` | aarch64_small/aarch64_regfp.sail:393-455 | The same for LoadImmediate and LoadRegister |
| `FootprintSound.BranchMatching` | aarch64_small/aarch64_regfp.sail:165-293 | Branches from states that agree on the announced inputs and the PC go the same way to the same place, change only what is announced, and agree on it when taken |
| `FootprintSound.BranchNextAnnounced` | aarch64_small/aarch64_regfp.sail:165-293 | After a branch the PC is at its successor or announced target, tag byte stripped, or an indirect target was announced |
| `Machines.Machine.Execute` | aarch64_small/armV8.sail:112-2344 | One instruction run step by step ends in the state, events and exit the Semantics module gives |
| `Machines.Machine.AddSubImmediate` | aarch64_small/armV8.sail:1615-1638 | ADD/SUB immediate: register or SP holds x + imm or x - imm modulo 2^N and nothing else changes but, on request, the flags, which report the exact unsigned and signed totals: zero, sign, carry or no borrow, signed overflow |
| `Machines.Machine.AddSubExtendRegister` | aarch64_small/armV8.sail:1841-1862 | ADD/SUB extended register: the same total and flags, the second operand being the low part of a register read signed or unsigned, times 2^shift |
| `Machines.Machine.AddSubShiftedRegister` | aarch64_small/armV8.sail:1885-1904 | ADD/SUB shifted register: the same total and flags for the operand that is the register multiplied by 2^amount, divided by it rounding down (unsigned or signed), or turned by it |
| `Machines.Machine.AddSubCarry` | aarch64_small/armV8.sail:1923-1936 | ADC/SBC: x + y + C or x - y - (1 - C) modulo 2^N, the flags reporting the exact totals |
| `Machines.Machine.ConditionalCompare` | aarch64_small/armV8.sail:1953-1999 | CCMP/CCMN: only the flags change; they report the exact difference or sum when the condition holds and are the given ones otherwise |
| `Machines.Machine.ConditionalSelect` | aarch64_small/armV8.sail:2018-2032 | CSEL/CSINC/CSINV/CSNEG: the register holds the first operand if the condition holds, otherwise the second, its successor, complement or negative modulo 2^N |
| `Machines.Machine.BitfieldMove` | aarch64_small/armV8.sail:1673-1685 | Each bit of the result: from the turned source inside both masks, from the destination (or zero) inside the top mask only, sign or destination outside it; nothing else changes |
| `Machines.Machine.ExtractRegister` | aarch64_small/armV8.sail:1704-1712 | EXTR: the register holds the number of the register pair divided by 2^lsb, modulo 2^N |
| `Machines.Machine.LogicalImmediate` | aarch64_small/armV8.sail:1738-1757 | AND/ORR/EOR immediate: each bit is the operation of the operand bits; on request N is that of the top bits, Z says no bit is set, C and V are clear; nothing else changes |
| `Machines.Machine.LogicalShiftedRegister` | aarch64_small/armV8.sail:2323-2341 | AND/ORR/EOR and their inverted forms: the same, for the operand that is the register multiplied, divided or turned, inverted on request |
| `Machines.Machine.MoveWide` | aarch64_small/armV8.sail:1783-1796 | MOVN/MOVZ/MOVK, bit by bit: the quarter at pos from the immediate, the rest old, zero, or all of it inverted |
| `Machines.Machine.Address` | aarch64_small/armV8.sail:1814-1821 | ADR/ADRP: the register holds PC + offset modulo 2^64, the PC first rounded down to a multiple of 4096 for ADRP |
| `Machines.Machine.Reverse` | aarch64_small/armV8.sail:2065-2091 | The nested loops over the control word leave the bits backwards (RBIT) or the bytes of every container backwards (REV forms) |
| `Machines.Machine.CountLeading` | aarch64_small/armV8.sail:2104-2114 | CLZ/CLS write the k for which the top k bits (below the sign, for CLS) are equal and the next one differs |
| `Machines.Machine.Division` | aarch64_small/armV8.sail:2134-2145 | UDIV/SDIV: zero for a zero divisor, otherwise the q modulo 2^N whose remainder is smaller than the divisor and has the sign of the dividend |
| `Machines.Machine.Shift` | aarch64_small/armV8.sail:2161-2167 | LSLV/LSRV/ASRV/RORV: the number multiplied by 2^k modulo 2^N, divided by 2^k rounding down (unsigned or signed), or turned by k, for k the amount modulo the width |
| `Machines.Machine.Crc` | aarch64_small/armV8.sail:2183-2196 | The reversal loops and the in-place division leave, bit-reversed, a remainder of the combined accumulator and value by the polynomial with exactly the terms of CRC-32 or CRC-32C, for which a quotient exists |
| `Machines.Machine.Accumulate` | aarch64_small/armV8.sail:2218-2263 | The number returned is c + x y or c - x y modulo 2^width, operands read unsigned or signed |
| `Machines.Machine.MultiplyAddSub` | aarch64_small/armV8.sail:2218-2231 | MADD/MSUB: the register holds c + x y or c - x y modulo 2^N, nothing else changes |
| `Machines.Machine.MultiplyAddSubLong` | aarch64_small/armV8.sail:2250-2263 | SMADDL, SMSUBL, UMADDL, UMSUBL: the same modulo 2^64 with operands read signed or unsigned |
| `Machines.Machine.MultiplyHigh` | aarch64_small/armV8.sail:2279-2288 | UMULH/SMULH: the register holds x y divided by 2^64 rounding down, modulo 2^64 |
| `Machines.Machine.BranchTo` | aarch64_small/armV8_common_lib.sail:759-799 | Every bit of the new PC: the target's, except that bits 63..56 repeat bit 55 when tag removal is on for its half; nothing else changes |
| `Machines.Machine.BranchRegister` | aarch64_small/armV8.sail:623-628 | BR/BLR/RET: the target is read before the link register is written |
| `Machines.Machine.TMStart` | aarch64_small/armV8.sail:112-127 | Below full depth: nesting one higher, no event, the outermost status or zero in the register, nothing else changed; at full depth: nothing changed but one abort event, whose status has bit 10 as its only one |
| `Machines.Machine.MoveSystemRegister` | aarch64_small/armV8.sail:517-522 | MRS of NZCV, DAIF or TPIDR_EL0 leaves a value that writing back would change nothing; after MSR the register reads as the bits of the value it keeps; any other register leaves the model |
| `Machines.Machine.Single` | aarch64_small/armV8.sail:1111-1190 | LoadImmediate and LoadRegister step by step: checks, announcement, writeback, access; AccessMeanings says which numbers that moves |
| `Machines.Machine.Pair` | aarch64_small/armV8.sail:1454-1555 | LoadStorePair and LoadStorePairNonTemp step by step; AccessMeanings says which numbers that moves |
| `Machines.Machine.LoadStoreAcqExc` | aarch64_small/armV8.sail:783-942 | Acquire, release and exclusive accesses step by step; AccessMeanings says which numbers that moves |
| `Machines.Machine.LoadLiteral` | aarch64_small/armV8.sail:716-735 | LDR literal and its prefetch form; AccessMeanings says which number it loads |
| `Machines.Machine.FlushWriteBuffer` | aarch64_small/armV8_common_lib.sail:733-755 | Every address: the byte of the buffered value at its distance above the announced address, if less than the size, else the byte it held; one event; a buffer of the wrong kind leaves the model |
| `Effects.EffectExact` | aarch64_small/armV8.sail:1615-2344 | For every data-processing instruction and state, the description by numbers, bits and flags holds of exactly one state, the one the instruction leaves |
| `Effects.CarrySum` | aarch64_small/armV8_common_lib.sail:499-510 | AddWithCarry of x and y (or NOT y): the exact total modulo 2^N, with flags for the exact unsigned and signed totals |
| `Effects.ShiftUnique` | aarch64_small/armV8_A64_lib.sail:858-873 | Being the multiplied, divided or turned register determines the shifted operand |
| `MemAccess.RMem` | aarch64_small/armV8_A64_lib.sail:356-394 | Whatever the split, a read access appends the whole access once; it fails exactly on an alignment fault, a split exclusive access, or a buffer mismatch |
| `MemAccess.WMem` | aarch64_small/armV8_A64_lib.sail:410-449 | The same for writes, the value reversed for big-endian memory |
| `MemAccess.WriteBytes` | aarch64_small/armV8_A64_lib.sail:426-444 | Appending byte by byte builds the buffer of one whole append; no contiguity assert fails where the whole append would not |
| `MemAccess.AppendWriteByte` | aarch64_small/armV8_common_lib.sail:713-731 | The same for write buffers and their values |
| `MemAccess.StoreThenLoad` | aarch64_small/armV8_A64_lib.sail:356-448 | A store then a load of the same place and size returns the value, in both endiannesses, aligned or not, for every pair of access types that gets through; a load of the store's own type always does |
| `MemAccess.StoreSucceeds` | aarch64_small/armV8_A64_lib.sail:278-290 | A store gets through exactly when it does not fault, is whole if exclusive, and has a known kind |
| `MemAccess.LoadSucceeds` | aarch64_small/armV8_A64_lib.sail:278-290 | A load gets through exactly when it does not fault, is whole if exclusive, and has a known kind |
| `MemAccess.PairSucceeds` | aarch64_small/armV8.sail:1521-1534 | A pair store gets through exactly when both halves pass those checks and the kind is known |
| `MemAccess.LoadTwoSucceeds` | aarch64_small/armV8.sail:1535-1555 | The same for a pair load |
| `MemAccess.StoreTwoMemory` | aarch64_small/armV8.sail:1521-1534 | A pair store leaves its two oriented halves side by side |
| `MemAccess.PairStoreThenLoad` | aarch64_small/armV8.sail:1521-1555 | A pair read back through one buffer gets through for the same access type: unchanged in little-endian memory, halves exchanged in big-endian memory |
| `MemAccess.PairSurvives` | aarch64_small/armV8.sail:1521-1555 | A pair survives the round trip exactly when memory is little-endian or the halves are equal |
| `StoreLoad.StoreThenLoadRegister` | aarch64_small/armV8.sail:1111-1190 | STR then LDR of the same place: read signed for a signed load and unsigned otherwise, the loaded register is the number the stored one held; a load of the store's access type always gets through |
| `StoreLoad.StorePairThenLoadPair` | aarch64_small/armV8.sail:1454-1555 | STP then LDP into two registers always gets through: the pair in little-endian memory, the registers exchanged in big-endian memory |
| `StoreLoad.StoreExclusiveThenLoad` | aarch64_small/armV8.sail:783-942 | A successful STXP then LDXP (of the same access type it always gets through): 32-bit pairs come back in both endiannesses, 64-bit pairs come back exchanged in big-endian memory |
| `AccessMeanings.SingleLoadMeaning` | aarch64_small/armV8.sail:716-735 | After LDR literal, LDRSW literal, LDR, LDRS and their byte and half-word forms, acquire and exclusive loads: the register is the number in the bytes at the location, in the byte order of memory, read signed for a signed load and unsigned otherwise, zero above its width |
| `AccessMeanings.PairLoadMeaning` | aarch64_small/armV8.sail:1454-1555 | After LDP, LDPSW, LDNP and LDXP the two registers are the numbers at the location and right after it, read signed or unsigned; exchanged in big-endian memory except for exclusive words |
| `AccessMeanings.SingleStoreMeaning` | aarch64_small/armV8.sail:1111-1190 | After a store, store-release or successful store-exclusive the bytes at the location are the number of the register, in the byte order of memory, and every other byte is as it was |
| `AccessMeanings.PairStoreMeaning` | aarch64_small/armV8.sail:1454-1555 | After STP, STNP or a successful STXP the two registers lie side by side, in this order in either byte order, and every other byte is as it was |
| `AccessMeanings.ExclusiveStatus` | aarch64_small/armV8.sail:783-942 | A store-exclusive that succeeds reports 0; one that fails reports 1, makes no event and leaves memory alone |
| `AccessMeanings.BaseMoves` | aarch64_small/armV8.sail:1111-1190 | With writeback the base ends at base plus displacement modulo 2^64, pre- and post-indexed alike |
| `AccessMeanings.LocationExact` | aarch64_small/armV8.sail:1277-1290 | The address of an access is base plus displacement modulo 2^64, or the base alone when post-indexed; a register offset is its low 32 or 64 bits read signed or unsigned, times 2^shift |
| `AccessMeanings.AccessFinishes` | aarch64_small/armV8.sail:716-1555 | A load or store finishes exactly when its registers do not conflict, the stack pointer it uses is a multiple of 16 if that is checked, its access type is known, and the location is a multiple of the size where that is asked for (exclusive, ordered or checked accesses); a failing store-exclusive and a single prefetch need none of this |
| `AccessMeanings.KindMeaning` | aarch64_small/armV8_common_lib.sail:660-755 | The kind of a read or write says whether it is exclusive, and whether it is an acquire, a release or a stream |
| `MemoryNumbers.LoadedNumber` | aarch64_small/armV8_A64_lib.sail:356-394 | A read delivers the number in memory: each byte more is the next lower digit in big-endian and the next higher one in little-endian memory |
| `MemoryNumbers.StoredNumber` | aarch64_small/armV8_A64_lib.sail:410-449 | A write puts the number of its value into memory, in either byte order |
| `CommonLib.AddWithCarryMeaning` | aarch64_small/armV8_common_lib.sail:499-510 | Result and carry hold the whole unsigned sum, overflow is leaving the signed range, N and Z read the result, at every width |
| `CommonLib.ConditionsDecideComparisons` | aarch64_small/armV8_common_lib.sail:851-872 | After AddWithCarry(x, NOT y, 1) every condition code decides exactly its comparison of x and y, at every width N >= 1 |
| `ControlMeanings.ConditionTable` | aarch64_small/armV8_common_lib.sail:851-872 | Each of the sixteen conditions on every combination of flags, and each odd one the complement of the even one before it |
| `ControlMeanings.LogicalConditions` | aarch64_small/armV8_common_lib.sail:851-872 | After a logical instruction every condition compares the signed result with zero, carry and overflow being clear |
| `ControlMeanings.BranchMeaning` | aarch64_small/armV8.sail:195-216 | CBZ and CBNZ look at whether the register number is zero, TBZ and TBNZ at one bit of it, B.cond at its flags: not taken they change nothing, taken they go to PC plus offset modulo 2^64 (or the register) apart from the tag byte, and a call leaves its own address plus 4 |
| `ControlMeanings.SystemMoveMeaning` | aarch64_small/armV8_A64_lib.sail:738-764 | MRS shows and MSR takes N, Z, C, V at bits 31 to 28 of NZCV and D, A, I, F at bits 9 to 6 of DAIF, reserved bits around them; other encodings leave the model |
| `ControlMeanings.ImmediateMeaning` | aarch64_small/armV8.sail:338-353 | DAIFSet and DAIFClr set or clear the masks whose operand bit, 3 to 0 for D, A, I, F, is one; SPSel takes bit 0 |
| `ControlMeanings.TransactionTest` | aarch64_small/armV8.sail:157-162 | After TTEST the condition EQ holds exactly outside a transaction |
| `ControlMeanings.TransactionAbort` | aarch64_small/armV8.sail:172-180 | TABORT reports, inside a transaction only, its reason plus 256 for retry plus 512 |
| `ControlMeanings.TransactionCommit` | aarch64_small/armV8.sail:138-149 | TCOMMIT goes one level up, is visible at the outermost level only and undefined outside a transaction |
| `ControlMeanings.BarrierMeaning` | aarch64_small/armV8.sail:462-471 | Barriers, hints and CLREX change nothing; ISB always reports itself, DSB for the full system and DMB also for the inner shareable domain, with the accesses they order |
| `CommonLib.AddChainExact` | aarch64_small/armV8_common_lib.sail:499-510 | Limb sums chained through the carry compute the full sum, for any number of limbs |
| `CommonLib.SubtractChainExact` | aarch64_small/armV8_common_lib.sail:499-510 | Limb differences chained through the carry compute the full difference, the last carry being "no borrow" |
| `Programs.ChainRunExact` | aarch64_small/armV8.sail:1885-1936 | ADDS/ADCS (SUBS/SBCS) on any number of registers compute the full sum (difference), the final C flag being the carry-out (no borrow) |
| `Programs.CompareThenBranch` | aarch64_small/armV8.sail:212-215 | B.cond after CMP is taken exactly when its comparison of the two registers holds |
| `Programs.ConditionalCompareChains` | aarch64_small/armV8.sail:1984-1999 | A conditional compare makes the next condition the conjunction of two comparisons |
| `Shifts.LslMeaning` | aarch64_small/armV8_common_lib.sail:255-277 | LSL multiplies by 2^shift modulo 2^N; the carry is the last bit shifted out |
| `Shifts.LsrMeaning` | aarch64_small/armV8_common_lib.sail:281-304 | LSR divides, dropping the remainder; the carry is the last bit dropped |
| `Shifts.AsrMeaning` | aarch64_small/armV8_common_lib.sail:164-186 | ASR divides the signed value rounding towards minus infinity |
| `Shifts.RorMeaning` | aarch64_small/armV8_common_lib.sail:330-353 | ROR takes bit i from position (i + shift) mod N; the carry-out of ROR_C is its top bit, bit (shift - 1) mod N of the operand |
| `Shifts.RorComposes` | aarch64_small/armV8_common_lib.sail:330-353 | Rotations add up |
| `Shifts.RorFullTurn` | aarch64_small/armV8_common_lib.sail:330-353 | A full turn is the identity |
| `Shifts.Replicate` | aarch64_small/armV8_common_lib.sail:357-367 | The shift-and-or loop repeats x through N bits, and fails exactly when its length does not divide N |
| `Shifts.HighestSetBit` | aarch64_small/armV8_common_lib.sail:221-234 | The scan finds the most significant one, or says there is none |
| `Shifts.CountLeadingZeroBits` | aarch64_small/armV8_common_lib.sail:207-212 | The number of leading zeros |
| `Shifts.CountLeadingSignBits` | aarch64_small/armV8_common_lib.sail:201-203 | The length of the run of sign bits, the sign itself not counted |
| `Shifts.LeadingZerosValue` | aarch64_small/armV8_common_lib.sail:207-212 | k leading zeros mean 2^(N-k-1) <= value < 2^(N-k) |
| `A64Lib.DecodeBitMasks` | aarch64_small/armV8_A64_lib.sail:816-851 | The masks computed through HighestSetBit, ROR and Replicate are the runs described by S and R in every element; reserved encodings are exactly those described |
| `A64Lib.LogicalImmediateMixed` | aarch64_small/armV8_A64_lib.sail:835-838 | A logical immediate is neither all zeros nor all ones |
| `A64Lib.ExtendRegMeaning` | aarch64_small/armV8_A64_lib.sail:788-812 | ExtendReg is the low part read unsigned or signed, times 2^shift, modulo 2^N |
| `A64Lib.ExtendRegNumber` | aarch64_small/armV8_A64_lib.sail:788-812 | ExtendReg keeps 8, 16, 32 or 64 bits for the B, H, W and X types, read unsigned for UXT and signed for SXT, times 2^shift modulo 2^N, for 32-bit and 64-bit registers |
| `A64Lib.MaskedMoveMeaning` | aarch64_small/armV8.sail:1673-1685 | With whole-register masks: S >= R puts bits S..R at bit 0, otherwise bits S..0 at bit N-R; zeros, sign copies or the old destination elsewhere |
| `Bitfields.DecodeBitfield` | aarch64_small/armV8.sail:1644-1670 | decodeBitfield accepts exactly the unreserved encodings and gives whole-register masks |
| `Bitfields.DecodedMovesField` | aarch64_small/armV8.sail:1644-1685 | From encoding to effect: the value written by SBFM, BFM and UBFM, bit by bit, for all register values |
| `Meanings.HighProductMeaning` | aarch64_small/armV8.sail:2279-2288 | UMULH and SMULH give the product divided by 2^64, rounded down |
| `Meanings.ProductIgnoresSign` | aarch64_small/armV8.sail:2218-2231 | The low bits of c +- x*y do not depend on reading the operands signed or unsigned, so MADD/MSUB need no signed form |
| `Meanings.QuotientMeaning` | aarch64_small/armV8.sail:2134-2145 | The quotient leaves a remainder smaller than the divisor, with the sign of the dividend |
| `Meanings.DivisionFits` | aarch64_small/armV8.sail:2134-2145 | UDIV is exact; SDIV is exact but for the most negative value divided by minus one |
| `Meanings.ExtractMeaning` | aarch64_small/armV8.sail:1704-1712 | EXTR shifts the number held by the register pair right |
| `Meanings.ExtractRotates` | aarch64_small/armV8.sail:1704-1712 | EXTR of a register with itself is a rotation |
| `Meanings.SelectMeaning` | aarch64_small/armV8.sail:2018-2032 | CSINC, CSINV and CSNEG give successor, complement and negative modulo 2^N |
| `Meanings.PageBaseMeaning` | aarch64_small/armV8.sail:1814-1821 | ADRP starts from the PC rounded down to its 4096-byte page |
| `Meanings.ConstantBuilt` | aarch64_small/armV8.sail:1783-1796 | MOVZ and three MOVKs build any 64-bit constant from its quarters |
| `Meanings.SystemPutGet` | aarch64_small/armV8_A64_lib.sail:738-764 | MSR then MRS returns what was written (32 bits of it for NZCV and DAIF) |
| `Meanings.SystemGetPut` | aarch64_small/armV8_A64_lib.sail:738-764 | MRS then MSR changes nothing |
| `Meanings.StartThenCommit` | aarch64_small/armV8.sail:112-149 | A transaction started and committed leaves the nesting as it was; only the outermost commit is visible |
| `Meanings.StartHolds` | aarch64_small/armV8.sail:112-127 | TSTART goes one level deeper with the status of the start in its register, or is refused with a status whose only one is bit 10 |
| `Meanings.ReadBack` | aarch64_small/armV8_A64_lib.sail:738-764 | A system register read into a general register and written back from it changes nothing else |
| `Meanings.CallThenReturn` | aarch64_small/armV8.sail:595-628 | A call then RET continues after the call; only the link register and the PC have changed |
| `Meanings.PushThenPop` | aarch64_small/armV8.sail:1111-1190 | After a pre-indexed store that gets through, the matching post-indexed load gets through exactly unless the new stack pointer fails its alignment check, and then restores the base and delivers the value |
| `Meanings.TestMeaning` | aarch64_small/armV8.sail:1738-1757 | ANDS then EQ or MI tests for a common one or a common top bit |
| `Gf2.Poly32Mod2` | aarch64_small/armV8_common_lib.sail:422-434 | The in-place loop returns the remainder of data by x^32 + poly over GF(2), with a quotient |
| `Gf2.RemainderCharacterised` | aarch64_small/armV8_common_lib.sail:422-434 | r is the computed remainder exactly when some quotient divides data with remainder r |
| `Gf2.DivisionUnique` | aarch64_small/armV8_common_lib.sail:422-434 | Quotient and remainder are unique |
| `Gf2.RemLinear` | aarch64_small/armV8_common_lib.sail:422-434 | The remainder is linear in the data |
| `Gf2.RemLeadingZeros` | aarch64_small/armV8_common_lib.sail:422-434 | The remainder ignores leading zeros |
| `Gf2.BitReverse` | aarch64_small/armV8_common_lib.sail:406-413 | The loop reverses the bits |
| `Gf2.CrcComposes` | aarch64_small/armV8.sail:2183-2196 | A CRC step on a 2d-bit value is two steps, low half first, for any accumulator and polynomial |
| `Gf2.CrcFoldsChunks` | aarch64_small/armV8.sail:2183-2196 | CRC over any chunks joined low to high is the fold of the CRC over the chunks |
| `Gf2.CrcLinear` | aarch64_small/armV8.sail:2183-2196 | A CRC step is linear in accumulator and value together |
| `Gf2.CrcPolyTerms` | aarch64_small/armV8.sail:2189 | Bit k of the two polynomial constants is set exactly for the terms of the CRC-32 polynomial (0,1,2,4,5,7,8,10,11,12,16,22,23,26) and of the CRC-32C polynomial (0,6,8,9,10,11,13,14,18,19,20,22,23,25,26,27,28) |
| `Gf2.CrcTopBit` | aarch64_small/armV8.sail:2183-2196 | From the empty accumulator a value whose only one is its top bit leaves the bit-reversed polynomial, at every size |
| `Gf2.CrcKeepsAccumulators` | aarch64_small/armV8.sail:2183-2196 | Two accumulators give the same checksum of a value exactly when they are equal |
| `Gf2.CrcKeepsValues` | aarch64_small/armV8.sail:2183-2196 | Two values of at most 32 bits give the same checksum from an accumulator exactly when they are equal |
| `Programs.CrcShowsPolynomial` | aarch64_small/armV8.sail:2183-2196 | CRC32 and CRC32C with a zero accumulator and a value whose only one is its top bit leave a one at bit 31 - k exactly for the terms k of their own polynomial, at every size |
| `Programs.CrcByHalves` | aarch64_small/armV8.sail:2183-2196 | One CRC instruction on a 2d-bit register equals two on its halves, low half first |
| `SwapNetwork.Network` | aarch64_small/armV8.sail:2065-2091 | The swap network with control word V gives result[i] = x[i xor V], for every power-of-two width covering V |
| `SwapNetwork.NetworkInvolution` | aarch64_small/armV8.sail:2065-2091 | Every control word is undone by a second pass |
| `SwapNetwork.NetworkComposes` | aarch64_small/armV8.sail:2065-2091 | Two control words compose to their exclusive or |
| `Programs.RbitReversesBits` | aarch64_small/armV8.sail:2065-2091 | RBIT reverses all bits |
| `Programs.RevReversesBytes` | aarch64_small/armV8.sail:2065-2091 | REV16/REV32/REV64 reverse the bytes of every 16, 32 or 64 bits |
| `Programs.ReverseTwice` | aarch64_small/armV8.sail:2065-2091 | Every reversal undoes itself |
| `SwapNetwork.BigEndianReverseBytes` | aarch64_small/armV8_common_lib.sail:528-535 | The recursive halving is byte reversal |
| `SwapNetwork.ByteReversedInvolution` | aarch64_small/armV8_common_lib.sail:528-535 | Byte reversal undoes itself |
| `FastReversal.ReverseEndianness` | lib/sail.c:1001-1033 | For every length: all paths reverse the bytes of the value padded to whole bytes, and the result fits the length exactly when it is whole bytes or the lowest byte fits the bits left over |
| `FastReversal.ReverseEndiannessLoop` | lib/sail.c:1022-1031 | The generic byte loop reverses the bytes of the value padded to whole bytes, for every length |
| `ByteOrder.ReversalFits` | lib/sail.c:1022-1031 | When the reversal of a padded value is below 2^len: whole bytes, or the lowest byte below 2^(len mod 8) |
| `ByteOrder.ReversedBytesTwice` | lib/sail.c:1001-1033 | Byte reversal of a value undoes itself |
| `ByteOrder.Rev16IsReversal` | lib/elf.c:37-41 | rev16 is byte reversal |
| `ByteOrder.Rev32IsReversal` | lib/elf.c:43-49 | rev32 is byte reversal |
| `ByteOrder.Rev64IsReversal` | lib/elf.c:51-61 | rev64 is byte reversal |
| `ByteOrder.ReversalsAgree` | lib/sail.c:1001-1033 | reverse_endianness, BigEndianReverse, rev16/rev32/rev64 and the REV network agree at every common width |
| `SailBits.AddBits` | lib/sail.c:587-592 | Addition modulo 2^len |
| `SailBits.SubBits` | lib/sail.c:594-600 | Subtraction modulo 2^len |
| `SailBits.AddThenSub` | lib/sail.c:587-600 | Subtraction undoes addition |
| `SailBits.NotBits` | lib/sail.c:637-644 | Complement: every bit flipped, value 2^len - 1 - x |
| `SailBits.SailSigned` | lib/sail.c:766-782 | The signed reading |
| `SailBits.MultsVec` | lib/sail.c:646-658 | The signed product, exact for equal lengths |
| `SailBits.MultVec` | lib/sail.c:660-665 | The unsigned product; for equal lengths the final normalise changes nothing |
| `SailBits.SignExtend` | lib/sail.c:681-693 | Sign extension keeps the signed value |
| `SailBits.EqBits` | lib/sail.c:700-710 | The bit-by-bit comparison decides equality |
| `SailBits.Append` | lib/sail.c:790-796 | Concatenation is exact |
| `SailBits.ReplicateBits` | lib/sail.c:821-830 | Replication is the repeated pattern |
| `SailBits.FastReplicateBits` | lib/sail.c:832-839 | The overlapping word variant equals the repetition for v < 2^shift, times >= 1, shift*times <= 64 |
| `SailBits.RepeatedBit` | lib/sail.c:821-839 | Bit i of a repetition is bit i mod shift of the pattern |
| `SailBits.NormalizeLbits` | lib/sail.c:572-578 | Normalising reduces modulo 2^len |
| `SailSlices.GetSliceInt` | lib/sail.c:857-867 | The bit loop is floor(n / 2^start) mod 2^len, for every integer |
| `SailSlices.SetSliceInt` | lib/sail.c:872-889 | The bit loop writes the slice into any integer |
| `SailSlices.GetAfterSet` | lib/sail.c:857-889 | A written slice is read back |
| `SailSlices.SplicedBit` | lib/sail.c:872-889 | Every two's-complement bit outside the slice is unchanged |
| `SailSlices.SliceBit` | lib/sail.c:857-867 | Bit i of a slice is bit start + i of the two's-complement integer, for every integer |
| `SailSlices.SetTwice` | lib/sail.c:872-889 | A second write to the same place wins |
| `SailSlices.SetSame` | lib/sail.c:857-889 | Writing back what was read changes nothing |
| `SailSlices.Slice` | lib/sail.c:912-924 | The bit-loop slice |
| `SailSlices.VectorSubrange` | lib/sail.c:723-734 | Shift-and-mask gives the same slice as the bit loops |
| `SailSlices.Sslice` | lib/sail.c:926-937 | The 64-bit word variant gives the same slice |
| `SailSlices.TruncateLSB` | lib/sail.c:744-757 | The upper bits are kept |
| `SailSlices.VectorUpdateSubrange` | lib/sail.c:891-910 | An updated subrange stays within the length and changes only its bits |
| `SailSlices.ShiftBitsLeft` | lib/sail.c:960-965 | Left shift modulo 2^len |
| `SailSlices.ShiftBitsRightArith` | lib/sail.c:974-986 | The result is a valid vector exactly when the sign is clear or the shift is at most the length, and is then the floor of the signed value over 2^shift |
| `SailReals.SqrtReal` | lib/sail.c:1115-1172 | For every op >= 0: ends within 101 rounds with op <= result^2 < op + 10^-60, exact for perfect squares |
| `SailReals.StepIdentity` | lib/sail.c:1148-1166 | After a step n^2 - op = (p - n)^2 |
| `SailReals.ErrorShrinks` | lib/sail.c:1148-1166 | From an estimate not too small the squared error shrinks at least four-fold |
| `SailReals.NearRoot` | lib/sail.c:1115-1172 | Such a result is at least the true root and less than 10^-30 above it |
| `SailReals.PerfectSquareExact` | lib/sail.c:1115-1122 | The perfect-square test recognises exactly the squares |
| `SailReals.RealPower` | lib/sail.c:1220-1245 | base^exp for every integer exponent, the inverse for negative ones, with exactly popcount + bitlength - 1 <= 2 bitlength - 1 multiplications |
| `SailReals.PowerAdd` | lib/sail.c:1220-1245 | Exponents add: the law that fixes the power |
| `SailReals.IntPowerStep` | lib/sail.c:1220-1245 | For every integer exponent e and base b != 0: b^0 == 1 and b^(e+1) == b b^e |
| `SailReals.IntPowerAdd` | lib/sail.c:1220-1245 | Integer exponents of either sign add |
| `SailReals.IntPowerUnique` | lib/sail.c:1220-1245 | The power is the only function of the exponent with that step law |
| `Rts.BlockList.constructor` | lib/rts.c:63-88 | A new memory is zero everywhere |
| `Rts.BlockList.Write` | lib/rts.c:92-123 | A write updates exactly one address of the total map; block ids stay distinct and aligned |
| `Rts.BlockList.BlockFor` | lib/rts.c:92-123 | The block of an address is found or allocated, contents unchanged |
| `Rts.BlockList.Read` | lib/rts.c:125-141 | A read returns the map's value, zero for a missing block |
| `Rts.BlockList.Kill` | lib/rts.c:192-213 | Killing memory leaves it zero everywhere |
| `Rts.MaskingSplits` | lib/rts.c:92-141 | The bit masks split an address into block id and offset |
| `Ram.Memory.WriteTagBool` | lib/rts.c:143-172 | A tag write changes no byte |
| `Ram.Memory.Run` | lib/rts.c:92-190 | Any run of byte and tag writes leaves the replayed byte and tag maps, with ids distinct and aligned |
| `Ram.LastWriteWins` | lib/rts.c:92-190 | After any run an address holds the last byte written there, whatever tags were written |
| `Ram.WriteRam` | lib/rts.c:215-239 | write_ram stores the data little-endian, the address wrapping at 2^64 |
| `Ram.ReadRam` | lib/rts.c:256-277 | read_ram loads the little-endian value |
| `Ram.FastReadRam` | lib/rts.c:241-254 | For every size, fast_read_ram returns the low 64 bits of what read_ram loads, so the same value up to 8 bytes |
| `Ram.LoadAfterStore` | lib/rts.c:215-277 | What is written is what is read back |
| `Ram.StoredAt` | lib/rts.c:215-239 | A store changes exactly the addresses of its range |
| `Ram.DisjointStoresCommute` | lib/rts.c:215-239 | Stores to disjoint ranges commute |
| `Elf.LoadELFHdr` | lib/elf.c:351-375 | Loading succeeds exactly for loadable files, and then every address holds the byte of the image over what was there and class and entry point are reported; a failing file reports its first error, memory holding the image of the headers before it |
| `Elf.EntryExact` | lib/elf.c:351-375 | The reported entry point, never byte-swapped, is the declared one exactly in little-endian files or when the bytes of the field read the same backwards |
| `Elf.GoodFileImage` | lib/elf.c:248-375 | With an acceptable header and good program headers (sizes below 2^32, bytes in the file) every address holds the byte of the last PT_LOAD segment covering it, zero behind its file part, or what it held |
| `Elf.LastSegmentWins` | lib/elf.c:248-308 | The last covering segment decides an address; uncovered addresses keep their byte |
| `Elf.LoadBlock` | lib/elf.c:248-289 | A block load writes the file bytes and the zero fill and nothing else, addresses wrapping at 2^32 or 2^64 |
| `Elf.LoadProgHdr` | lib/elf.c:260-308 | One program header: its error, or its segment over what was there; ElfLayout says which bytes of the file these are |
| `Elf.SegmentErrorExact` | lib/elf.c:269-274 | The wrapping size check and the buffer bound together accept exactly the segments whose bytes are in the file |
| `Elf.NarrowingExact` | lib/elf.c:279-308 | Keeping 32 bits of the sizes of a 64-bit segment keeps the addresses it covers exactly when both sizes are below 2^32 |
| `Elf.HalfFacts` | lib/elf.c:37-76 | Byte-swapping a little-endian half-word read gives the big-endian field |
| `Elf.WordFacts` | lib/elf.c:43-77 | The same for words |
| `Elf.XwordFacts` | lib/elf.c:51-78 | The same for double words |
| `ElfLayout.HeaderReadBack` | lib/elf.c:137-196 | A buffer that holds a program header as its fields one after the other, in class and byte order, is read as exactly its offset, physical address, file size and memory size, and as nothing when its type is not PT_LOAD |
| `ElfLayout.FileReadBack` | lib/elf.c:117-172 | A buffer that begins with a file header, its fields one after the other in class and byte order, is accepted exactly for executable files of RISC-V, or of ARM or AArch64 by class, and the header table, entry size, count and entry point are then the fields written |
| `ElfLayout.HeadersFound` | lib/elf.c:310-375 | The headers found in a file made of a file header and a program header table are exactly those of the table, in order |
| `ElfLayout.FileImage` | lib/elf.c:248-375 | Such a file whose PT_LOAD segments are below 2^32 in size and inside the file loads, and every address then holds the byte of the last one that occupies it, the file byte below the file size and zero up to the memory size, or what it held |
| `ElfLayout.FileLoads` | lib/elf.c:248-375 | Such a file loads exactly when for every PT_LOAD header as many bytes as the low 32 bits of the file size say are in the file |
| `ElfLayout.LoadFile` | lib/elf.c:351-375 | Loading such a file: fails exactly when a segment cannot be read, otherwise reports the class, and the entry point when little-endian, and leaves that image |

## Left out

- Exception generation, debug, `System`, ERET, DRPS and the ImplementationDefined markers: the source leaves the model (or does nothing) there, in analysis and execution alike.
- Exception levels above EL0; SCTLR, TCR, the outcome of store-exclusive and the transaction start effect are fixed parameters (`Config`), so the footprint theorems do not speak of reading them.
- SIMD stubs, decode tables other than `decodeBitfield`, and system registers other than NZCV, DAIF, SPSel and TPIDR_EL0.
- Concurrency of memory: an access reads or writes one sequential memory when its buffer is flushed; `wMem_Val_ATOMIC` always succeeds once `speculate_exclusive_success` did.
- The register lists of the analysis are modelled as sets: order and repetition are not captured. The dia component is always DIAFP_none in the source and is omitted.
- The AST union is split into four groups (data, memory, branch, system); `pair` with a 128-bit data size follows the decoder, not the type annotation.
- `quot` is taken to round towards zero, as the comment beside it asks; `mod` and `Align` only meet non-negative operands.
- SailBits.AddBits: output arguments do not alias inputs; the same holds for every runtime operation.
- SailBits.ReplicateBits: the C `int` loop counter is not bounded, so counts of 2^31 and more are modelled exactly.
- SailSlices.GetSliceInt: the bit index start + i is unbounded, while the C index wraps at 2^64.
- Ram.FastReadRam: the bit count data_size * 8 is unbounded, while the C product overflows at 2^60 bytes; sizes are not negative.
- SailReals.RealPower: exponents are those a machine integer holds except the smallest one, whose absolute value does not fit.
- Elf.LoadELFHdr: the product of header index and entry size is not limited to the C `int` range; symbol lookup is not modelled; the null output pointers the C code accepts are always given.
- `sub_nat`, `string_take`, `arm_align` and decimal parsing of negative reals: as written they do not compute the function their name suggests.
- File reading, gzip, option parsing, tracing, printing, timers and random numbers.
