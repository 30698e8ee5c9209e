/** The user-mode (EL0) part of the ARMv8 model: registers, state and the instruction AST
    (aarch64_small/armV8.h.sail, armV8_pstate.sail, armV8.sail). */
module Instructions {
  import opened Ints
  import opened BitVectors
  import opened CommonLib
  import A64Lib
  import opened MemAccess

  // ----- state -----

  /** A register number; 31 names the zero register or the stack pointer. */
  type RegIndex = n: nat | n < 32
  type GeneralIndex = n: nat | n < 31
  type Word = b: Bits | |b| == 64 witness Zeros(64)
  type Reserved = b: Bits | |b| == 28 witness Zeros(28)
  type Nesting = b: Bits | |b| == 8 witness Zeros(8)
  type RegBank = s: seq<Word> | |s| == 31 witness seq(31, _ => Zeros(64))

  datatype Daif = Daif(d: bool, a: bool, i: bool, f: bool)

  /** The registers an EL0 program can observe, and memory. NZCV and DAIF are split into their fields and
      the remaining reserved bits. */
  datatype State = State(
    x: RegBank, sp: Word, pc: Word,
    flags: Flags, nzcvRest: Reserved, daif: Daif, daifRest: Reserved,
    spSel: bool, tpidr: Word, txNesting: Nesting, txDepth: Nesting,
    mem: Mem)

  /** Control state no instruction here changes, and the outcomes left to the environment. */
  datatype Config = Config(
    bigEndian: bool, checkAlignment: bool, checkStack: bool, tbi0: bool, tbi1: bool,
    exclusiveSucceeds: bool, startEffect: Word)

  /** The names a footprint can mention. */
  datatype Reg =
    | R(n: GeneralIndex) | SpEl0 | Pc
    | FlagN | FlagZ | FlagC | FlagV | NzcvRest
    | MaskD | MaskA | MaskI | MaskF | DaifRest
    | SpSel | CurrentEl | Tpidr | TxNesting | TxDepth

  function Read(s: State, r: Reg): Bits {
    match r
    case R(n) => s.x[n]
    case SpEl0 => s.sp
    case Pc => s.pc
    case FlagN => [s.flags.n]
    case FlagZ => [s.flags.z]
    case FlagC => [s.flags.c]
    case FlagV => [s.flags.v]
    case NzcvRest => s.nzcvRest
    case MaskD => [s.daif.d]
    case MaskA => [s.daif.a]
    case MaskI => [s.daif.i]
    case MaskF => [s.daif.f]
    case DaifRest => s.daifRest
    case SpSel => [s.spSel]
    case CurrentEl => [false, false]
    case Tpidr => s.tpidr
    case TxNesting => s.txNesting
    case TxDepth => s.txDepth
  }

  /** A state is what its registers and its memory read. */
  lemma SameState(s: State, t: State)
    requires (forall r :: Read(s, r) == Read(t, r)) && s.mem == t.mem
    ensures s == t
  {
    SameBanks(s, t);
    SameFlags(s, t);
    SameDaif(s, t);
    assert Read(s, SpEl0) == Read(t, SpEl0) && Read(s, Pc) == Read(t, Pc);
    assert Read(s, NzcvRest) == Read(t, NzcvRest) && Read(s, DaifRest) == Read(t, DaifRest);
    assert Read(s, SpSel)[0] == Read(t, SpSel)[0] && Read(s, Tpidr) == Read(t, Tpidr);
    assert Read(s, TxNesting) == Read(t, TxNesting) && Read(s, TxDepth) == Read(t, TxDepth);
  }

  lemma SameBanks(s: State, t: State)
    requires forall r :: Read(s, r) == Read(t, r)
    ensures s.x == t.x
  {
    forall n: GeneralIndex ensures s.x[n] == t.x[n] { assert Read(s, R(n)) == Read(t, R(n)); }
  }

  lemma SameFlags(s: State, t: State)
    requires forall r :: Read(s, r) == Read(t, r)
    ensures s.flags == t.flags
  {
    assert Read(s, FlagN)[0] == Read(t, FlagN)[0] && Read(s, FlagZ)[0] == Read(t, FlagZ)[0];
    assert Read(s, FlagC)[0] == Read(t, FlagC)[0] && Read(s, FlagV)[0] == Read(t, FlagV)[0];
  }

  lemma SameDaif(s: State, t: State)
    requires forall r :: Read(s, r) == Read(t, r)
    ensures s.daif == t.daif
  {
    assert Read(s, MaskD)[0] == Read(t, MaskD)[0] && Read(s, MaskA)[0] == Read(t, MaskA)[0];
    assert Read(s, MaskI)[0] == Read(t, MaskI)[0] && Read(s, MaskF)[0] == Read(t, MaskF)[0];
  }

  /** `rX` and `rSP`: the low `width` bits. */
  function RX(s: State, n: RegIndex, width: nat): (r: Bits)
    requires width <= 64
    ensures |r| == width
  {
    if n != 31 then Mask(s.x[n], width) else Zeros(width)
  }

  function RSP(s: State, width: nat): (r: Bits)
    requires width <= 64
    ensures |r| == width
  {
    Mask(s.sp, width)
  }

  /** `wX` and `wSP`: zero-extending writes. */
  function WX(s: State, n: RegIndex, value: Bits): State
    requires |value| <= 64
  {
    if n != 31 then s.(x := s.x[n := ZeroExtend(value, 64)]) else s
  }

  function WSP(s: State, value: Bits): State
    requires |value| <= 64
  {
    s.(sp := ZeroExtend(value, 64))
  }

  lemma WrittenReads(s: State, d: RegIndex, v: Bits, w: nat)
    requires d != 31 && w <= |v| <= 64
    ensures RX(WX(s, d, v), d, w) == v[..w]
    ensures w == |v| ==> RX(WX(s, d, v), d, w) == v
  {
    assert ZeroExtend(v, 64)[..w] == v[..w];
  }

  // ----- instructions -----

  datatype MemOp = Load | Store | Prefetch
  datatype MoveWideOp = MoveN | MoveZ | MoveK
  datatype RevOp = RBIT | REV16 | REV32 | REV64
  datatype CountOp = CLZ | CLS
  datatype PStateField = FieldDaifSet | FieldDaifClr | FieldSp
  datatype HintOp = HintNop | HintYield | HintWfe | HintWfi | HintSev | HintSevl
  datatype BranchType = Call | Eret | Dbgexit | Ret | Jmp | Exception | Unknown
  datatype BarrierOp = DSB | DMB | ISB
  datatype Domain = Nonshareable | InnerShareable | OuterShareable | FullSystem
  datatype BarrierTypes = ReadsOnly | WritesOnly | AllAccesses

  datatype SystemOp =
    | TMStart(t: RegIndex)
    | TMCommit
    | TMAbort(retry: bool, reason: Bits)
    | TMTest
    | MoveSystemImmediate(operand: Bits, field: PStateField)
    | Hint(hint: HintOp)
    | ClearExclusiveMonitor(crm: nat)
    | Barrier(op: BarrierOp, domain: Domain, types: BarrierTypes)
    | MoveSystemRegister(t: RegIndex, op0: nat, op1: nat, op2: nat, crn: nat, crm: nat, read: bool)

  datatype BranchOp =
    | CompareAndBranch(t: RegIndex, datasize: nat, iszero: bool, offset: Word)
    | BranchConditional(offset: Word, condition: Cond)
    | TestBitAndBranch(t: RegIndex, datasize: nat, bitPos: nat, bitVal: bool, offset: Word)
    | BranchImmediate(branchType: BranchType, offset: Word)
    | BranchRegister(n: RegIndex, branchType: BranchType)

  datatype MemoryOp =
    | LoadLiteral(t: RegIndex, memop: MemOp, signed: bool, size: nat, offset: Word, datasize: nat)
    | LoadStoreAcqExc(n: RegIndex, t: RegIndex, t2: RegIndex, s: RegIndex, acctype: AccType, excl: bool,
                      pair: bool, memop: MemOp, elsize: nat, regsize: nat, datasize: nat)
    | LoadStorePairNonTemp(wback: bool, postindex: bool, n: RegIndex, t: RegIndex, t2: RegIndex,
                           acctype: AccType, memop: MemOp, scale: nat, datasize: nat, offset: Word)
    | LoadImmediate(n: RegIndex, t: RegIndex, acctype: AccType, memop: MemOp, signed: bool, wback: bool,
                    postindex: bool, offset: Word, regsize: nat, datasize: nat)
    | LoadRegister(n: RegIndex, t: RegIndex, m: RegIndex, acctype: AccType, memop: MemOp, signed: bool,
                   wback: bool, postindex: bool, extendType: A64Lib.ExtendType, shift: nat,
                   regsize: nat, datasize: nat)
    | LoadStorePair(wback: bool, postindex: bool, n: RegIndex, t: RegIndex, t2: RegIndex, acctype: AccType,
                    memop: MemOp, signed: bool, datasize: nat, offset: Word)

  /** Data processing: registers, flags and the PC are combined, one register or the flags are written. */
  datatype DataOp =
    | AddSubImmediate(d: RegIndex, n: RegIndex, datasize: nat, subOp: bool, setflags: bool, imm: Bits)
    | BitfieldMove(d: RegIndex, n: RegIndex, datasize: nat, inzero: bool, extend: bool, R: nat, S: nat,
                   masks: A64Lib.Masks)
    | ExtractRegister(d: RegIndex, n: RegIndex, m: RegIndex, datasize: nat, lsb: nat)
    | LogicalImmediate(d: RegIndex, n: RegIndex, datasize: nat, setflags: bool, bitOp: BitOp, imm: Bits)
    | MoveWide(d: RegIndex, datasize: nat, imm: Bits, pos: nat, opcode: MoveWideOp)
    | Address(d: RegIndex, page: bool, offset: Word)
    | AddSubExtendRegister(d: RegIndex, n: RegIndex, m: RegIndex, datasize: nat, subOp: bool, setflags: bool,
                           extendType: A64Lib.ExtendType, shift: nat)
    | AddSubShiftedRegister(d: RegIndex, n: RegIndex, m: RegIndex, datasize: nat, subOp: bool, setflags: bool,
                            shiftType: A64Lib.ShiftType, amount: nat)
    | AddSubCarry(d: RegIndex, n: RegIndex, m: RegIndex, datasize: nat, subOp: bool, setflags: bool)
    | ConditionalCompareImmediate(n: RegIndex, datasize: nat, subOp: bool, condition: Cond, flags: Flags, imm: Bits)
    | ConditionalCompareRegister(n: RegIndex, m: RegIndex, datasize: nat, subOp: bool, condition: Cond, flags: Flags)
    | ConditionalSelect(d: RegIndex, n: RegIndex, m: RegIndex, datasize: nat, condition: Cond,
                        elseInv: bool, elseInc: bool)
    | Reverse(d: RegIndex, n: RegIndex, datasize: nat, revOp: RevOp)
    | CountLeading(d: RegIndex, n: RegIndex, datasize: nat, countOp: CountOp)
    | Division(d: RegIndex, n: RegIndex, m: RegIndex, datasize: nat, unsigned: bool)
    | Shift(d: RegIndex, n: RegIndex, m: RegIndex, datasize: nat, shiftType: A64Lib.ShiftType)
    | CRC(d: RegIndex, n: RegIndex, m: RegIndex, size: nat, crc32c: bool)
    | MultiplyAddSub(d: RegIndex, n: RegIndex, m: RegIndex, a: RegIndex, destsize: nat, datasize: nat, subOp: bool)
    | MultiplyAddSubLong(d: RegIndex, n: RegIndex, m: RegIndex, a: RegIndex, destsize: nat, datasize: nat,
                         subOp: bool, unsigned: bool)
    | MultiplyHigh(d: RegIndex, n: RegIndex, m: RegIndex, a: RegIndex, destsize: nat, datasize: nat, unsigned: bool)
    | LogicalShiftedRegister(d: RegIndex, n: RegIndex, m: RegIndex, datasize: nat, setflags: bool, bitOp: BitOp,
                             shiftType: A64Lib.ShiftType, amount: nat, invert: bool)

  /** The constructors of the source's one AST union, in four groups. */
  datatype Instr =
    | Data(data: DataOp)
    | Memory(memory: MemoryOp)
    | Branch(branch: BranchOp)
    | System(system: SystemOp)

  predicate Width(n: nat) { n == 32 || n == 64 }
  predicate DataWidth(n: nat) { n == 8 || n == 16 || n == 32 || n == 64 }

  /** What the types of the AST and its decoders guarantee of every instruction. */
  predicate WellFormed(i: Instr) {
    match i
    case Data(data) => WellFormedData(data)
    case Memory(memory) => WellFormedMemory(memory)
    case Branch(branch) => WellFormedBranch(branch)
    case System(system) => WellFormedSystem(system)
  }

  predicate WellFormedSystem(i: SystemOp) {
    && (i.TMAbort? ==> |i.reason| == 5)
    && (i.MoveSystemImmediate? ==> |i.operand| == 4)
  }

  predicate WellFormedBranch(i: BranchOp) {
    && (i.CompareAndBranch? ==> Width(i.datasize))
    && (i.TestBitAndBranch? ==> Width(i.datasize) && i.bitPos < i.datasize)
  }

  predicate WellFormedMemory(i: MemoryOp) {
    match i
    case LoadLiteral(_, memop, _, size, _, datasize) =>
      memop == Load ==> size in {4, 8} && datasize == 8 * size
    case LoadStoreAcqExc(_, _, _, _, _, _, pair, _, elsize, regsize, datasize) =>
      && DataWidth(elsize) && regsize == (if elsize == 64 then 64 else 32)
      && datasize == (if pair then 2 * elsize else elsize) && (pair ==> Width(elsize))
    case LoadStorePairNonTemp(_, _, _, _, _, _, _, _, datasize, _) => Width(datasize)
    case LoadImmediate(_, _, _, _, _, _, _, _, regsize, datasize) =>
      Width(regsize) && DataWidth(datasize) && datasize <= regsize
    case LoadRegister(_, _, _, _, _, _, _, _, _, shift, regsize, datasize) =>
      Width(regsize) && DataWidth(datasize) && datasize <= regsize && shift <= 4
    case LoadStorePair(_, _, _, _, _, _, _, _, datasize, _) => Width(datasize)
  }

  predicate WellFormedData(i: DataOp) {
    && (!i.Address? && !i.CRC? && !i.MultiplyAddSub? && !i.MultiplyAddSubLong? && !i.MultiplyHigh?
        ==> Width(i.datasize))
    && (i.AddSubImmediate? ==> |i.imm| == i.datasize)
    && (i.BitfieldMove? ==> i.R < i.datasize && i.S < i.datasize && |i.masks.wmask| == |i.masks.tmask| == i.datasize)
    && (i.ExtractRegister? ==> i.lsb < i.datasize)
    && (i.LogicalImmediate? ==> |i.imm| == i.datasize)
    && (i.MoveWide? ==> |i.imm| == 16 && i.pos + 16 <= i.datasize)
    && (i.AddSubExtendRegister? ==> i.shift <= 4)
    && (i.ConditionalCompareImmediate? ==> |i.imm| == i.datasize)
    && (i.Reverse? ==> (i.revOp == REV64 ==> i.datasize == 64))
    && (i.CRC? ==> DataWidth(i.size))
    && (i.MultiplyAddSub? || i.MultiplyAddSubLong? ==> Width(i.destsize) && DataWidth(i.datasize))
    && (i.MultiplyHigh? ==> Width(i.destsize))
  }

  // ----- events -----

  datatype BarrierKind = BarrierDsb(types: BarrierTypes) | BarrierDmb(types: BarrierTypes) | BarrierIsb

  /** What an instruction does outside its registers: the external calls of the source, in order. */
  datatype Event =
    | MemRead(readKind: ReadKind, address: Bits, size: nat)
    | WriteAddress(writeKind: WriteKind, address: Bits, size: nat)
    | WriteValue(exclusive: bool, size: nat)
    | BarrierEvent(barrier: BarrierKind)
    | TxCommitted
    | TxAborted(status: Bits)

  /** `not_implemented`, faults and failing asserts leave the model; otherwise there is a new state. */
  datatype Outcome = Exit | Done(state: State, events: seq<Event>)
}
