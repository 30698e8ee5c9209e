/** The static analysis of the model (aarch64_small/aarch64_regfp.sail): which registers an instruction
    reads, writes and uses for addresses, where control can go next, and what kind of instruction it is. */
module Footprint {
  import opened Wrappers
  import opened BitVectors
  import opened CommonLib
  import opened MemAccess
  import opened Instructions
  import Semantics

  datatype Nia = Successor | Concrete(address: Word) | Indirect

  datatype TransKind = TransStart | TransCommit | TransAbort

  datatype InstructionKind =
    | IkSimple
    | IkBranch
    | IkMemRead(readKind: ReadKind)
    | IkMemWrite(writeKind: WriteKind)
    | IkBarrier(barrier: BarrierKind)
    | IkTrans(trans: TransKind)

  datatype Analysis = Analysis(iR: set<Reg>, oR: set<Reg>, aR: set<Reg>, nias: set<Nia>, ik: InstructionKind)

  const NZCV_FP: set<Reg> := {FlagN, FlagZ, FlagC, FlagV}
  const NZCV_FULL: set<Reg> := {FlagN, FlagZ, FlagC, FlagV, NzcvRest}
  const DAIF_FP: set<Reg> := {MaskD, MaskA, MaskI, MaskF}
  const DAIF_FULL: set<Reg> := {MaskD, MaskA, MaskI, MaskF, DaifRest}
  const RSP_FP: set<Reg> := {SpSel, SpEl0}
  const CHECK_SP_FP: set<Reg> := {CurrentEl} + RSP_FP
  const BIG_ENDIAN_FP: set<Reg> := {CurrentEl}

  function XFP(n: RegIndex): set<Reg> { if n != 31 then {R(n)} else {} }

  function ConditionFP(cond: Cond): set<Reg> {
    match cond / 2
    case 0 => {FlagZ}
    case 1 => {FlagC}
    case 2 => {FlagN}
    case 3 => {FlagV}
    case 4 => {FlagC, FlagZ}
    case 5 => {FlagN, FlagV}
    case 6 => {FlagN, FlagV, FlagZ}
    case _ => {}
  }

  /** A base or source register that 31 makes the stack pointer. */
  function SourceFP(n: RegIndex): set<Reg> { if n == 31 then RSP_FP else XFP(n) }

  /** Registers of an optional part. */
  function If(b: bool, regs: set<Reg>): set<Reg> { if b then regs else {} }

  // ----- what the analysis claims, register set by register set -----

  /** Does this instruction write the stack pointer? */
  predicate WritesSp(i: DataOp) {
    (i.AddSubImmediate? || i.AddSubExtendRegister? || i.LogicalImmediate?) && i.d == 31 && !i.setflags
  }

  function DataReads(i: DataOp): set<Reg> {
    match i
    case AddSubImmediate(_, n, _, _, _, _) => SourceFP(n) + If(WritesSp(i), {SpSel})
    case AddSubExtendRegister(_, n, m, _, _, _, _, _) => SourceFP(n) + XFP(m) + If(WritesSp(i), {SpSel})
    case AddSubShiftedRegister(_, n, m, _, _, _, _, _) => XFP(n) + XFP(m)
    case AddSubCarry(_, n, m, _, _, _) => XFP(n) + XFP(m) + {FlagC}
    case BitfieldMove(d, n, _, inzero, _, _, _, _) => XFP(n) + If(!inzero, XFP(d))
    case ExtractRegister(_, n, m, _, _) => XFP(n) + XFP(m)
    case LogicalImmediate(_, n, _, _, _, _) => XFP(n) + If(WritesSp(i), {SpSel})
    case LogicalShiftedRegister(_, n, m, _, _, _, _, _, _) => XFP(n) + XFP(m)
    case MoveWide(d, _, _, _, opcode) => If(opcode == MoveK, XFP(d))
    case Address(_, _, _) => {Pc}
    case ConditionalCompareImmediate(n, _, _, condition, _, _) => XFP(n) + ConditionFP(condition)
    case ConditionalCompareRegister(n, m, _, _, condition, _) => XFP(n) + XFP(m) + ConditionFP(condition)
    case ConditionalSelect(_, n, m, _, condition, _, _) => XFP(n) + XFP(m) + ConditionFP(condition)
    case Reverse(_, n, _, _) => XFP(n)
    case CountLeading(_, n, _, _) => XFP(n)
    case Division(_, n, m, _, _) => XFP(n) + XFP(m)
    case Shift(_, n, m, _, _) => XFP(n) + XFP(m)
    case CRC(_, n, m, _, _) => XFP(n) + XFP(m)
    case MultiplyAddSub(_, n, m, a, _, _, _) => XFP(n) + XFP(m) + XFP(a)
    case MultiplyAddSubLong(_, n, m, a, _, _, _, _) => XFP(n) + XFP(m) + XFP(a)
    case MultiplyHigh(_, n, m, _, _, _, _) => XFP(n) + XFP(m)
  }

  predicate SetsFlags(i: DataOp) {
    || ((i.AddSubImmediate? || i.AddSubExtendRegister? || i.AddSubShiftedRegister? || i.AddSubCarry?
         || i.LogicalImmediate? || i.LogicalShiftedRegister?) && i.setflags)
    || i.ConditionalCompareImmediate? || i.ConditionalCompareRegister?
  }

  function DataWrites(i: DataOp): set<Reg> {
    If(SetsFlags(i), NZCV_FP)
    + if i.ConditionalCompareImmediate? || i.ConditionalCompareRegister? then {}
      else if WritesSp(i) then {SpEl0} else XFP(i.d)
  }

  function BranchReads(i: BranchOp): set<Reg> {
    {CurrentEl}
    + match i
      case CompareAndBranch(t, _, _, _) => XFP(t)
      case BranchConditional(_, condition) => ConditionFP(condition)
      case TestBitAndBranch(t, _, _, _, _) => XFP(t)
      case BranchImmediate(branchType, _) => If(branchType == Call, {Pc})
      case BranchRegister(n, branchType) => XFP(n) + If(branchType == Call, {Pc})
  }

  function BranchWrites(i: BranchOp): set<Reg> {
    {Pc} + If((i.BranchImmediate? || i.BranchRegister?) && i.branchType == Call, XFP(30))
  }

  function BranchNext(i: BranchOp, s: State): set<Nia> {
    match i
    case BranchRegister(n, _) => if n == 31 then {Concrete(Zeros(64))} else {Indirect}
    case BranchImmediate(_, _) => {Concrete(Semantics.Target(i, s))}
    case CompareAndBranch(_, _, _, _) => {Successor, Concrete(Semantics.Target(i, s))}
    case BranchConditional(_, _) => {Successor, Concrete(Semantics.Target(i, s))}
    case TestBitAndBranch(_, _, _, _, _) => {Successor, Concrete(Semantics.Target(i, s))}
  }

  function SystemFP(r: Semantics.SysReg): set<Reg> {
    match r
    case SysNzcv => NZCV_FULL
    case SysDaif => DAIF_FULL
    case SysTpidr => {Tpidr}
  }

  function SystemReads(i: SystemOp): set<Reg> {
    match i
    case TMStart(_) => {TxNesting, TxDepth}
    case TMCommit => {TxNesting}
    case TMAbort(_, _) => {TxNesting}
    case TMTest => {TxNesting}
    case MoveSystemImmediate(_, field) => If(field != FieldSp, DAIF_FP)
    case Hint(_) => {}
    case ClearExclusiveMonitor(_) => {}
    case Barrier(_, _, _) => {}
    case MoveSystemRegister(t, op0, op1, op2, crn, crm, read) =>
      var r := Semantics.SystemRegister(op0, op1, crn, crm, op2);
      if !read then XFP(t) else if r.Some? then SystemFP(r.value) else {}
  }

  function SystemWrites(i: SystemOp): set<Reg> {
    match i
    case TMStart(t) => {TxNesting} + XFP(t)
    case TMCommit => {TxNesting}
    case TMAbort(_, _) => {}
    case TMTest => NZCV_FULL
    case MoveSystemImmediate(_, field) => if field == FieldSp then {SpSel} else DAIF_FP
    case Hint(_) => {}
    case ClearExclusiveMonitor(_) => {}
    case Barrier(_, _, _) => {}
    case MoveSystemRegister(t, op0, op1, op2, crn, crm, read) =>
      var r := Semantics.SystemRegister(op0, op1, crn, crm, op2);
      if read then XFP(t) else if r.Some? then SystemFP(r.value) else {}
  }

  function BarrierKindOf(op: BarrierOp, types: BarrierTypes): BarrierKind {
    match op
    case DSB => BarrierDsb(types)
    case DMB => BarrierDmb(types)
    case ISB => BarrierIsb
  }

  /** None where the analysis gives up (`not_implemented`, a missing match case). */
  function SystemKind(i: SystemOp): Option<InstructionKind> {
    match i
    case TMStart(_) => Some(IkTrans(TransStart))
    case TMCommit => Some(IkTrans(TransCommit))
    case TMAbort(_, _) => Some(IkTrans(TransAbort))
    case TMTest => Some(IkSimple)
    case MoveSystemImmediate(_, _) => Some(IkSimple)
    case Hint(hint) => if hint in {HintWfe, HintWfi, HintSevl} then None else Some(IkSimple)
    case ClearExclusiveMonitor(_) => Some(IkSimple)
    case Barrier(op, _, types) => Some(IkBarrier(BarrierKindOf(op, types)))
    case MoveSystemRegister(_, op0, op1, op2, crn, crm, _) =>
      if Semantics.SystemRegister(op0, op1, crn, crm, op2).Some? then Some(IkSimple) else None
  }

  /** `rmem_kind`: unlike the flush, a non-exclusive atomic read is announced as plain. */
  function RMemKind(acctype: AccType, exclusive: bool): Option<InstructionKind> {
    if !exclusive && acctype == Atomic then Some(IkMemRead(ReadPlain))
    else
      match ReadKindOf(acctype, exclusive)
      case None => None
      case Some(k) => Some(IkMemRead(k))
  }

  function WMemKind(acctype: AccType, exclusive: bool): Option<InstructionKind> {
    match WriteKindOf(acctype, exclusive)
    case None => None
    case Some(k) => Some(IkMemWrite(k))
  }

  /** Base register, with the stack alignment check when it is the stack pointer. */
  function BaseFP(n: RegIndex): set<Reg> { if n == 31 then CHECK_SP_FP else XFP(n) }

  function WriteBackReads(wback: bool, n: RegIndex): set<Reg> { If(wback && n == 31, {SpSel}) }
  function WriteBackWrites(wback: bool, n: RegIndex): set<Reg> { If(wback, if n == 31 then {SpEl0} else XFP(n)) }

  function MemoryReads(i: MemoryOp): set<Reg> {
    match i
    case LoadLiteral(_, _, _, _, _, _) => {Pc}
    case LoadStoreAcqExc(n, t, t2, _, _, _, pair, memop, elsize, _, _) =>
      BaseFP(n)
      + If(memop == Store, XFP(t) + If(pair, XFP(t2)) + BIG_ENDIAN_FP)
      + If(memop == Load && pair && elsize == 32, BIG_ENDIAN_FP)
    case LoadStorePairNonTemp(wback, _, n, t, t2, _, memop, _, _, _) =>
      BaseFP(n) + WriteBackReads(wback, n) + If(memop == Store, XFP(t) + XFP(t2) + BIG_ENDIAN_FP)
    case LoadStorePair(wback, _, n, t, t2, _, memop, _, _, _) =>
      BaseFP(n) + WriteBackReads(wback, n) + If(memop == Store, XFP(t) + XFP(t2) + BIG_ENDIAN_FP)
    case LoadImmediate(n, t, _, memop, _, wback, _, _, _, _) =>
      BaseFP(n) + WriteBackReads(wback, n) + If(memop == Store, XFP(t) + BIG_ENDIAN_FP)
    case LoadRegister(n, t, m, _, memop, _, wback, _, _, _, _, _) =>
      XFP(m) + BaseFP(n) + WriteBackReads(wback, n) + If(memop == Store, XFP(t) + BIG_ENDIAN_FP)
  }

  function MemoryWrites(i: MemoryOp): set<Reg> {
    match i
    case LoadLiteral(t, _, _, _, _, _) => XFP(t)
    case LoadStoreAcqExc(_, t, t2, s, _, excl, pair, memop, _, _, _) =>
      If(memop == Store && excl, XFP(s)) + If(memop == Load, XFP(t) + If(pair, XFP(t2)))
    case LoadStorePairNonTemp(wback, _, n, t, t2, _, memop, _, _, _) =>
      WriteBackWrites(wback, n) + If(memop == Load, XFP(t) + XFP(t2))
    case LoadStorePair(wback, _, n, t, t2, _, memop, _, _, _) =>
      WriteBackWrites(wback, n) + If(memop == Load, XFP(t) + XFP(t2))
    case LoadImmediate(n, t, _, memop, _, wback, _, _, _, _) =>
      WriteBackWrites(wback, n) + If(memop == Load, XFP(t))
    case LoadRegister(n, t, _, _, memop, _, wback, _, _, _, _, _) =>
      WriteBackWrites(wback, n) + If(memop == Load, XFP(t))
  }

  function MemoryAddresses(i: MemoryOp): set<Reg> {
    if i.memop == Prefetch && !i.LoadStorePairNonTemp? && !i.LoadStorePair? then {}
    else
      match i
      case LoadLiteral(_, _, _, _, _, _) => {Pc}
      case LoadStoreAcqExc(n, _, _, _, _, _, _, _, _, _, _) => SourceFP(n)
      case LoadStorePairNonTemp(_, _, n, _, _, _, _, _, _, _) => SourceFP(n)
      case LoadStorePair(_, _, n, _, _, _, _, _, _, _) => SourceFP(n)
      case LoadImmediate(n, _, _, _, _, _, _, _, _, _) => SourceFP(n)
      case LoadRegister(n, _, m, _, _, _, _, _, _, _, _, _) => XFP(m) + SourceFP(n)
  }

  function MemoryKind(i: MemoryOp): Option<InstructionKind> {
    match i
    case LoadLiteral(_, memop, _, _, _, _) =>
      (match memop case Load => Some(IkMemRead(ReadPlain)) case Prefetch => Some(IkSimple) case Store => None)
    case LoadStoreAcqExc(_, _, _, _, acctype, excl, pair, memop, _, _, _) =>
      (match memop
       case Store => WMemKind(acctype, excl)
       case Load => RMemKind(acctype, excl || pair)
       case Prefetch => Some(IkSimple))
    case LoadStorePairNonTemp(_, _, _, _, _, acctype, memop, _, _, _) => PairKind(acctype, memop)
    case LoadStorePair(_, _, _, _, _, acctype, memop, _, _, _) => PairKind(acctype, memop)
    case LoadImmediate(_, _, acctype, memop, _, _, _, _, _, _) => SingleKind(acctype, memop)
    case LoadRegister(_, _, _, acctype, memop, _, _, _, _, _, _, _) => SingleKind(acctype, memop)
  }

  function SingleKind(acctype: AccType, memop: MemOp): Option<InstructionKind> {
    match memop
    case Store => WMemKind(acctype, false)
    case Load => RMemKind(acctype, false)
    case Prefetch => Some(IkSimple)
  }

  /** Pairs have no prefetch form. */
  function PairKind(acctype: AccType, memop: MemOp): Option<InstructionKind> {
    if memop == Prefetch then None else SingleKind(acctype, memop)
  }

  function Reads(i: Instr): set<Reg> {
    match i
    case Data(data) => DataReads(data)
    case Memory(memory) => MemoryReads(memory)
    case Branch(branch) => BranchReads(branch)
    case System(system) => SystemReads(system)
  }

  function Writes(i: Instr): set<Reg> {
    match i
    case Data(data) => DataWrites(data)
    case Memory(memory) => MemoryWrites(memory)
    case Branch(branch) => BranchWrites(branch)
    case System(system) => SystemWrites(system)
  }

  function Addresses(i: Instr): set<Reg> { if i.Memory? then MemoryAddresses(i.memory) else {} }

  function NextAddresses(i: Instr, s: State): set<Nia> { if i.Branch? then BranchNext(i.branch, s) else {Successor} }

  function Kind(i: Instr): Option<InstructionKind> {
    match i
    case Data(_) => Some(IkSimple)
    case Memory(memory) => MemoryKind(memory)
    case Branch(_) => Some(IkBranch)
    case System(system) => SystemKind(system)
  }

  function Claimed(i: Instr, s: State): Option<Analysis> {
    match Kind(i)
    case None => None
    case Some(ik) => Some(Analysis(Reads(i), Writes(i), Addresses(i), NextAddresses(i, s), ik))
  }
}
