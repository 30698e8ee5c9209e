/** What each instruction does at EL0, as a function of the state: the specification that the
    step-by-step clauses of the model meet (aarch64_small/armV8.sail). */
module Semantics {
  import opened Wrappers
  import opened Ints
  import opened BitVectors
  import opened CommonLib
  import opened Shifts
  import opened A64Lib
  import opened Gf2
  import opened SwapNetwork
  import opened Rts
  import opened MemAccess
  import opened Instructions

  // ----- data processing -----

  /** The one write of a data-processing instruction: a register or the stack pointer, and perhaps the flags. */
  datatype Write = Write(d: RegIndex, toSp: bool, value: Bits, flags: Option<Flags>)

  function Commit(s: State, w: Write): State
    requires |w.value| <= 64
  {
    var s1 := if w.flags.Some? then s.(flags := w.flags.value) else s;
    if w.toSp then WSP(s1, w.value) else WX(s1, w.d, w.value)
  }

  /** Addition, or subtraction as addition of the complement. */
  function AddOrSub(x: Bits, y: Bits, sub: bool): (r: (Bits, Flags))
    requires |x| == |y| > 0
    ensures |r.0| == |x|
  {
    if sub then AddWithCarry(x, Not(y), true) else AddWithCarry(x, y, false)
  }

  function LogicalFlags(result: Bits): Flags
    requires |result| > 0
  {
    Flags(result[|result| - 1], IsZero(result), false, false)
  }

  /** A sum that may set the flags; only the forms that do not set them can write the stack pointer. */
  function SumWrite(d: RegIndex, spAllowed: bool, setflags: bool, sum: (Bits, Flags)): Write {
    Write(d, spAllowed && d == 31 && !setflags, sum.0, if setflags then Some(sum.1) else None)
  }

  function LogicalWrite(d: RegIndex, spAllowed: bool, setflags: bool, result: Bits): Write
    requires |result| > 0
  {
    Write(d, spAllowed && d == 31 && !setflags, result, if setflags then Some(LogicalFlags(result)) else None)
  }

  function ValueWrite(d: RegIndex, value: Bits): Write { Write(d, false, value, None) }
  function FlagsWrite(flags: Flags): Write { Write(31, false, Zeros(64), Some(flags)) }

  function RXorSP(s: State, n: RegIndex, width: nat): (r: Bits)
    requires width <= 64
    ensures |r| == width
  {
    if n == 31 then RSP(s, width) else RX(s, n, width)
  }

  function InvertIf(b: bool, x: Bits): (r: Bits) ensures |r| == |x| { if b then Not(x) else x }

  function CompareFlags(holds: bool, x: Bits, y: Bits, sub: bool, otherwise: Flags): Flags
    requires |x| == |y| > 0
  {
    if holds then AddOrSub(x, y, sub).1 else otherwise
  }

  /** Division rounding towards zero. */
  function TruncDiv(a: int, b: int): int
    requires b != 0
  {
    if (a < 0) == (b < 0) then Abs(a) / Abs(b) else -(Abs(a) / Abs(b))
  }

  function Quotient(x: Bits, y: Bits, unsigned: bool): int {
    if IsZero(y) then 0 else ReadingNonzero(y, unsigned); TruncDiv(Reading(x, unsigned), Reading(y, unsigned))
  }

  lemma ReadingNonzero(y: Bits, unsigned: bool)
    requires !IsZero(y)
    ensures Reading(y, unsigned) != 0
  {
    IsZeroValue(y);
    UIntRange(y);
  }

  /** The position xor mask of a reversal: which index bits are complemented. */
  function ControlWord(op: RevOp, datasize: nat): nat {
    match op
    case REV16 => 8
    case REV32 => 24
    case REV64 => 56
    case RBIT => if datasize == 64 then 63 else 31
  }

  lemma ControlCovers(op: RevOp, datasize: nat)
    requires Width(datasize) && (op == REV64 ==> datasize == 64)
    ensures Covers(datasize, ControlWord(op, datasize))
  {
    assert Pow2(5) == 32 && Pow2(6) == 64;
    PowerCovers(if datasize == 64 then 6 else 5, ControlWord(op, datasize));
  }

  ghost function ReversedBy(x: Bits, op: RevOp): (r: Bits)
    requires Width(|x|) && (op == REV64 ==> |x| == 64)
    ensures |r| == |x|
  {
    ControlCovers(op, |x|);
    XorIndexed(x, ControlWord(op, |x|))
  }

  function MoveWideValue(kept: Bits, imm: Bits, pos: nat, invert: bool): (r: Bits)
    requires |imm| == 16 && pos + 16 <= |kept|
    ensures |r| == |kept|
  {
    InvertIf(invert, kept[..pos] + imm + kept[pos + 16..])
  }

  function Selected(holds: bool, x: Bits, y: Bits, elseInv: bool, elseInc: bool): (r: Bits)
    requires |x| == |y|
    ensures |r| == |x|
  {
    if holds then x else ToBits(|x|, UInt(InvertIf(elseInv, y)) + BoolInt(elseInc))
  }

  function Plus(a: Word, b: Word): Word { ToBits(64, UInt(a) + UInt(b)) }

  function PageBase(pc: Word): Word { Zeros(12) + pc[12..] }

  function CountLeadingValue(x: Bits, op: CountOp): int
    requires |x| > 0
  {
    match op
    case CLZ => LeadingRun(x, false)
    case CLS => LeadingRun(x, x[|x| - 1]) - 1
  }

  /** c + x y or c - x y, truncated to n bits. */
  function ProductSum(n: nat, c: Bits, x: Bits, y: Bits, sub: bool, unsigned: bool): (r: Bits)
    ensures |r| == n
  {
    var product := Reading(x, unsigned) * Reading(y, unsigned);
    ToBits(n, Reading(c, unsigned) + (if sub then -product else product))
  }

  /** Bits 127..64 of the product. */
  function HighProduct(x: Bits, y: Bits, unsigned: bool): (r: Bits)
    ensures |r| == 64
  {
    ToBits(128, Reading(x, unsigned) * Reading(y, unsigned))[64..]
  }

  ghost function DataWrite(i: DataOp, s: State): (w: Write)
    requires WellFormedData(i)
    ensures |w.value| <= 64
  {
    match i
    case AddSubImmediate(d, n, N, sub, setflags, imm) =>
      SumWrite(d, true, setflags, AddOrSub(RXorSP(s, n, N), imm, sub))
    case AddSubExtendRegister(d, n, m, N, sub, setflags, etype, shift) =>
      SumWrite(d, true, setflags, AddOrSub(RXorSP(s, n, N), ExtendReg(RX(s, m, N), etype, shift), sub))
    case AddSubShiftedRegister(d, n, m, N, sub, setflags, stype, amount) =>
      SumWrite(d, false, setflags, AddOrSub(RX(s, n, N), ShiftReg(RX(s, m, N), stype, amount), sub))
    case AddSubCarry(d, n, m, N, sub, setflags) =>
      SumWrite(d, false, setflags, AddWithCarry(RX(s, n, N), InvertIf(sub, RX(s, m, N)), s.flags.c))
    case BitfieldMove(d, n, N, inzero, extend, R, S, masks) =>
      ValueWrite(d, MaskedMove(if inzero then Zeros(N) else RX(s, d, N), RX(s, n, N), extend, R, S, masks))
    case ExtractRegister(d, n, m, N, lsb) =>
      ValueWrite(d, Concat(RX(s, n, N), RX(s, m, N))[lsb..lsb + N])
    case LogicalImmediate(d, n, N, setflags, op, imm) =>
      LogicalWrite(d, true, setflags, BitsOp(op, RX(s, n, N), imm))
    case LogicalShiftedRegister(d, n, m, N, setflags, op, stype, amount, invert) =>
      LogicalWrite(d, false, setflags, BitsOp(op, RX(s, n, N), InvertIf(invert, ShiftReg(RX(s, m, N), stype, amount))))
    case MoveWide(d, N, imm, pos, opcode) =>
      ValueWrite(d, MoveWideValue(if opcode == MoveK then RX(s, d, N) else Zeros(N), imm, pos, opcode == MoveN))
    case Address(d, page, offset) =>
      ValueWrite(d, Plus(if page then PageBase(s.pc) else s.pc, offset))
    case ConditionalCompareImmediate(n, N, sub, condition, flags, imm) =>
      FlagsWrite(CompareFlags(ConditionHolds(condition, s.flags), RX(s, n, N), imm, sub, flags))
    case ConditionalCompareRegister(n, m, N, sub, condition, flags) =>
      FlagsWrite(CompareFlags(ConditionHolds(condition, s.flags), RX(s, n, N), RX(s, m, N), sub, flags))
    case ConditionalSelect(d, n, m, N, condition, elseInv, elseInc) =>
      ValueWrite(d, Selected(ConditionHolds(condition, s.flags), RX(s, n, N), RX(s, m, N), elseInv, elseInc))
    case Reverse(d, n, N, op) =>
      ValueWrite(d, ReversedBy(RX(s, n, N), op))
    case CountLeading(d, n, N, op) =>
      ValueWrite(d, ToBits(N, CountLeadingValue(RX(s, n, N), op)))
    case Division(d, n, m, N, unsigned) =>
      ValueWrite(d, ToBits(N, Quotient(RX(s, n, N), RX(s, m, N), unsigned)))
    case Shift(d, n, m, N, stype) =>
      ValueWrite(d, ShiftReg(RX(s, n, N), stype, Residue(UInt(RX(s, m, N)), N)))
    case CRC(d, n, m, size, crc32c) =>
      ValueWrite(d, CrcStep(RX(s, n, 32), RX(s, m, size), CrcPoly(crc32c)))
    case MultiplyAddSub(d, n, m, a, destsize, N, sub) =>
      ValueWrite(d, ProductSum(destsize, RX(s, a, destsize), RX(s, n, N), RX(s, m, N), sub, true))
    case MultiplyAddSubLong(d, n, m, a, destsize, N, sub, unsigned) =>
      ValueWrite(d, ProductSum(64, RX(s, a, destsize), RX(s, n, N), RX(s, m, N), sub, unsigned))
    case MultiplyHigh(d, n, m, _, N, _, unsigned) =>
      ValueWrite(d, HighProduct(RX(s, n, N), RX(s, m, N), unsigned))
  }

  /** The state a data-processing instruction leaves. */
  ghost function After(i: DataOp, s: State): State
    requires WellFormedData(i)
  {
    Commit(s, DataWrite(i, s))
  }

  // ----- branches -----

  /** `BranchTo` at EL0: the tag byte of the target is removed where the translation control says so. */
  function StripTag(c: Config, target: Word): Word {
    if target[55] && c.tbi1 then target[..56] + Ones(8)
    else if !target[55] && c.tbi0 then target[..56] + Zeros(8)
    else target
  }

  function Jump(c: Config, s: State, target: Word): State { s.(pc := StripTag(c, target)) }

  function Linked(s: State, branchType: BranchType): State {
    if branchType == Call then WX(s, 30, Plus(s.pc, ToBits(64, 4))) else s
  }

  predicate Taken(i: BranchOp, s: State)
    requires WellFormedBranch(i)
  {
    match i
    case CompareAndBranch(t, N, iszero, _) => IsZero(RX(s, t, N)) == iszero
    case BranchConditional(_, condition) => ConditionHolds(condition, s.flags)
    case TestBitAndBranch(t, N, bitPos, bitVal, _) => RX(s, t, N)[bitPos] == bitVal
    case BranchImmediate(_, _) => true
    case BranchRegister(_, _) => true
  }

  function Target(i: BranchOp, s: State): Word {
    match i
    case CompareAndBranch(_, _, _, offset) => Plus(s.pc, offset)
    case BranchConditional(offset, _) => Plus(s.pc, offset)
    case TestBitAndBranch(_, _, _, _, offset) => Plus(s.pc, offset)
    case BranchImmediate(_, offset) => Plus(s.pc, offset)
    case BranchRegister(n, _) => RX(s, n, 64)
  }

  function BranchLink(i: BranchOp, s: State): State {
    if i.BranchImmediate? || i.BranchRegister? then Linked(s, i.branchType) else s
  }

  function ExecBranch(c: Config, i: BranchOp, s: State): Outcome
    requires WellFormedBranch(i)
  {
    Done(if Taken(i, s) then Jump(c, BranchLink(i, s), Target(i, s)) else s, [])
  }

  // ----- system -----

  function DaifBits(s: State): Bits
  {
    s.daifRest[..6] + [s.daif.f, s.daif.i, s.daif.a, s.daif.d] + s.daifRest[6..]
  }

  function WriteDaif(s: State, field: PStateField, b: Bits): State
    requires |b| == 4
  {
    var m := s.daif;
    match field
    case FieldSp => s.(spSel := b[0])
    case FieldDaifSet => s.(daif := Daif(m.d || b[3], m.a || b[2], m.i || b[1], m.f || b[0]))
    case FieldDaifClr => s.(daif := Daif(m.d && !b[3], m.a && !b[2], m.i && !b[1], m.f && !b[0]))
  }

  datatype SysReg = SysNzcv | SysDaif | SysTpidr

  /** The system registers `System_Get` and `System_Put` know. */
  function SystemRegister(op0: nat, op1: nat, crn: nat, crm: nat, op2: nat): Option<SysReg> {
    if op0 != 3 || op1 != 3 then None
    else if crn == 4 && crm == 2 && op2 == 0 then Some(SysNzcv)
    else if crn == 4 && crm == 2 && op2 == 1 then Some(SysDaif)
    else if crn == 13 && crm == 0 && op2 == 2 then Some(SysTpidr)
    else None
  }

  function SystemGet(s: State, r: SysReg): Word {
    match r
    case SysNzcv => s.nzcvRest + [s.flags.v, s.flags.c, s.flags.z, s.flags.n] + Zeros(32)
    case SysDaif => DaifBits(s) + Zeros(32)
    case SysTpidr => s.tpidr
  }

  function SystemPut(s: State, r: SysReg, v: Word): State {
    match r
    case SysNzcv => s.(flags := Flags(v[31], v[30], v[29], v[28]), nzcvRest := v[..28])
    case SysDaif => s.(daif := Daif(v[9], v[8], v[7], v[6]), daifRest := v[..6] + v[10..32])
    case SysTpidr => s.(tpidr := v)
  }

  function AbortStatus(retry: bool, reason: Bits): Word
    requires |reason| == 5
  {
    reason + Zeros(3) + [retry, true] + Zeros(54)
  }

  const NEST_STATUS: Word := Zeros(10) + [true] + Zeros(53)

  predicate CanStart(s: State) { UInt(s.txNesting) < UInt(s.txDepth) }

  function Started(c: Config, t: RegIndex, s: State): State {
    WX(s.(txNesting := Deeper(s.txNesting)), t, StartStatus(c, s.txNesting))
  }

  function Deeper(nesting: Nesting): Nesting { ToBits(8, UInt(nesting) + 1) }

  /** The status of a start: the environment's at the outermost level, otherwise zero. */
  function StartStatus(c: Config, nesting: Nesting): Word {
    if UInt(nesting) == 0 then c.startEffect else Zeros(64)
  }

  function ExecTMStart(c: Config, t: RegIndex, s: State): Outcome {
    if CanStart(s) then Done(Started(c, t, s), []) else Done(s, [TxAborted(NEST_STATUS)])
  }

  function ExecTMCommit(s: State): Outcome {
    var nesting := UInt(s.txNesting);
    if nesting == 0 then Exit
    else Done(s.(txNesting := ToBits(8, nesting - 1)), if nesting == 1 then [TxCommitted] else [])
  }

  function ExecBarrier(op: BarrierOp, domain: Domain, types: BarrierTypes, s: State): Outcome {
    match op
    case DSB => if domain != FullSystem then Exit else Done(s, [BarrierEvent(BarrierDsb(types))])
    case DMB =>
      if domain != FullSystem && domain != InnerShareable then Exit else Done(s, [BarrierEvent(BarrierDmb(types))])
    case ISB => Done(s, [BarrierEvent(BarrierIsb)])
  }

  function ExecSystem(c: Config, i: SystemOp, s: State): Outcome
    requires WellFormedSystem(i)
  {
    match i
    case TMStart(t) => ExecTMStart(c, t, s)
    case TMCommit => ExecTMCommit(s)
    case TMAbort(retry, reason) =>
      Done(s, if UInt(s.txNesting) > 0 then [TxAborted(AbortStatus(retry, reason))] else [])
    case TMTest => Done(s.(flags := Flags(false, UInt(s.txNesting) == 0, false, false)), [])
    case MoveSystemImmediate(operand, field) => Done(WriteDaif(s, field, operand), [])
    case Hint(hint) => if hint in {HintWfe, HintWfi, HintSevl} then Exit else Done(s, [])
    case ClearExclusiveMonitor(_) => Done(s, [])
    case Barrier(op, domain, types) => ExecBarrier(op, domain, types, s)
    case MoveSystemRegister(t, op0, op1, op2, crn, crm, read) =>
      var r := SystemRegister(op0, op1, crn, crm, op2);
      if r.None? then Exit
      else Done(if read then WX(s, t, SystemGet(s, r.value)) else SystemPut(s, r.value, RX(s, t, 64)), [])
  }

  // ----- memory -----

  lemma WholeBytes(datasize: nat)
    requires DataWidth(datasize)
    ensures AccessSize(datasize / 8) && 8 * (datasize / 8) == datasize
    ensures Width(datasize) ==> AccessSize(2 * (datasize / 8))
  {
  }

  /** The base address, or None when the stack pointer check fails. */
  function BaseAddress(c: Config, s: State, n: RegIndex, checkSp: bool): Option<Word> {
    if n != 31 then Some(RX(s, n, 64))
    else if checkSp && c.checkStack && UInt(s.sp) % 16 != 0 then None
    else Some(s.sp)
  }

  function AddressOf(w: Word): (a: Address) { UIntRange(w); WordIsPow2(); UInt(w) }

  function ExtendTo(data: Bits, width: nat, signed: bool): (r: Bits)
    requires 0 < |data| <= width
    ensures |r| == width
  {
    if signed then SignExtend(data, width) else ZeroExtend(data, width)
  }

  function WriteBack(s: State, wback: bool, n: RegIndex, value: Word): State {
    if !wback then s else if n == 31 then WSP(s, value) else WX(s, n, value)
  }

  function Offset(address: Word, offset: Word, add: bool): Word { if add then Plus(address, offset) else address }

  /** One store: its address is announced first, the value follows. */
  function ExecStore(c: Config, s: State, address: Word, acctype: AccType, value: Bits, exclusive: bool): Outcome
    requires DataWidth(|value|) || |value| == 128
  {
    var size := |value| / 8;
    var kind := WriteKindOf(acctype, exclusive);
    var m := StoreOne(c.checkAlignment, c.bigEndian, s.mem, AddressOf(address), size, acctype, value, exclusive);
    if kind.None? || m.None? then Exit
    else Done(s.(mem := m.value), [WriteAddress(kind.value, address, size), WriteValue(exclusive, size)])
  }

  function LoadBits(c: Config, s: State, address: Word, datasize: nat, acctype: AccType, exclusive: bool)
      : (r: Option<(ReadKind, Bits)>)
    requires DataWidth(datasize)
    ensures r.Some? ==> |r.value.1| == datasize
  {
    LoadOne(c.checkAlignment, c.bigEndian, s.mem, AddressOf(address), datasize / 8, acctype, exclusive)
  }

  lemma LoadBitsAre(c: Config, s: State, address: Word, datasize: nat, acctype: AccType, exclusive: bool,
                    rb: Option<ReadBuffer>)
    requires DataWidth(datasize)
    requires rb == FilledOne(c.checkAlignment, AddressOf(address), datasize / 8, acctype, exclusive)
    ensures LoadBits(c, s, address, datasize, acctype, exclusive)
         == if rb.None? then None else FlushRead(c.bigEndian, s.mem, rb.value, datasize / 8)
  {
  }

  function ExecLoad(c: Config, s: State, address: Word, datasize: nat, acctype: AccType, exclusive: bool,
                    t: RegIndex, signed: bool, regsize: nat): Outcome
    requires DataWidth(datasize) && Width(regsize) && datasize <= regsize
  {
    match LoadBits(c, s, address, datasize, acctype, exclusive)
    case None => Exit
    case Some((kind, data)) =>
      Done(WX(s, t, ExtendTo(data, regsize, signed)), [MemRead(kind, address, datasize / 8)])
  }

  function AccessSingle(c: Config, s1: State, t: RegIndex, acctype: AccType, memop: MemOp, signed: bool,
                        address: Word, regsize: nat, datasize: nat): Outcome
    requires Width(regsize) && DataWidth(datasize) && datasize <= regsize
  {
    match memop
    case Store => ExecStore(c, s1, address, acctype, RX(s1, t, datasize), false)
    case Load => ExecLoad(c, s1, address, datasize, acctype, false, t, signed, regsize)
    case Prefetch => Done(s1, [])
  }

  function SingleAt(c: Config, s: State, base: Word, n: RegIndex, t: RegIndex, acctype: AccType, memop: MemOp,
                    signed: bool, wback: bool, postindex: bool, offset: Word, regsize: nat, datasize: nat): Outcome
    requires Width(regsize) && DataWidth(datasize) && datasize <= regsize
  {
    var address := Offset(base, offset, !postindex);
    var s1 := WriteBack(s, wback, n, Offset(address, offset, postindex));
    AccessSingle(c, s1, t, acctype, memop, signed, address, regsize, datasize)
  }

  lemma SingleEnds(c: Config, s: State, s1: State, base: Word, n: RegIndex, t: RegIndex, acctype: AccType, memop: MemOp,
                   signed: bool, wback: bool, postindex: bool, offset: Word, address: Word, regsize: nat, datasize: nat)
    requires Width(regsize) && DataWidth(datasize) && datasize <= regsize
    requires address == Offset(base, offset, !postindex)
    requires s1 == WriteBack(s, wback, n, Offset(address, offset, postindex))
    ensures SingleAt(c, s, base, n, t, acctype, memop, signed, wback, postindex, offset, regsize, datasize)
         == AccessSingle(c, s1, t, acctype, memop, signed, address, regsize, datasize)
  {
  }

  /** Loads and stores of one register, the offset given (LoadImmediate, LoadRegister). */
  function ExecSingle(c: Config, s: State, n: RegIndex, t: RegIndex, acctype: AccType, memop: MemOp, signed: bool,
                      wback: bool, postindex: bool, offset: Word, regsize: nat, datasize: nat): Outcome
    requires Width(regsize) && DataWidth(datasize) && datasize <= regsize
  {
    if memop != Prefetch && wback && n == t && n != 31 then Exit
    else
      match BaseAddress(c, s, n, memop != Prefetch)
      case None => Exit
      case Some(base) =>
        SingleAt(c, s, base, n, t, acctype, memop, signed, wback, postindex, offset, regsize, datasize)
  }

  function ExecStorePair(c: Config, s: State, address: Word, acctype: AccType, value1: Bits, value2: Bits): Outcome
    requires Width(|value1|) && |value1| == |value2|
  {
    var size := |value1| / 8;
    var kind := WriteKindOf(acctype, false);
    var m := StoreTwo(c.checkAlignment, c.bigEndian, s.mem, AddressOf(address), size, acctype, value1, value2);
    if kind.None? || m.None? then Exit
    else Done(s.(mem := m.value), [WriteAddress(kind.value, address, 2 * size), WriteValue(false, 2 * size)])
  }

  function LoadPairBits(c: Config, s: State, address: Word, datasize: nat, acctype: AccType, exclusive: bool)
      : (r: Option<(ReadKind, Bits)>)
    requires Width(datasize)
    ensures r.Some? ==> |r.value.1| == 2 * datasize
  {
    LoadTwo(c.checkAlignment, c.bigEndian, s.mem, AddressOf(address), datasize / 8, acctype, exclusive)
  }

  lemma LoadPairBitsAre(c: Config, s: State, address: Word, datasize: nat, acctype: AccType, exclusive: bool,
                        rb: Option<ReadBuffer>)
    requires Width(datasize)
    requires rb == FilledTwo(c.checkAlignment, AddressOf(address), datasize / 8, acctype, exclusive)
    ensures LoadPairBits(c, s, address, datasize, acctype, exclusive)
         == if rb.None? then None else FlushRead(c.bigEndian, s.mem, rb.value, 2 * (datasize / 8))
  {
  }

  function ExecLoadPair(c: Config, s: State, address: Word, datasize: nat, acctype: AccType, exclusive: bool,
                        t: RegIndex, t2: RegIndex, regsize: nat, signed: bool): Outcome
    requires Width(datasize) && datasize <= regsize <= 64
  {
    match LoadPairBits(c, s, address, datasize, acctype, exclusive)
    case None => Exit
    case Some((kind, data)) =>
      Done(WX(WX(s, t, ExtendTo(data[..datasize], regsize, signed)), t2, ExtendTo(data[datasize..], regsize, signed)),
           [MemRead(kind, address, 2 * (datasize / 8))])
  }

  function AccessPair(c: Config, s1: State, t: RegIndex, t2: RegIndex, acctype: AccType, memop: MemOp, signed: bool,
                      address: Word, datasize: nat): Outcome
    requires Width(datasize)
  {
    match memop
    case Store => ExecStorePair(c, s1, address, acctype, RX(s1, t, datasize), RX(s1, t2, datasize))
    case Load => ExecLoadPair(c, s1, address, datasize, acctype, false, t, t2, if signed then 64 else datasize, signed)
    case Prefetch => Exit
  }

  function PairAt(c: Config, s: State, base: Word, wback: bool, postindex: bool, n: RegIndex, t: RegIndex, t2: RegIndex,
                  acctype: AccType, memop: MemOp, signed: bool, datasize: nat, offset: Word): Outcome
    requires Width(datasize)
  {
    var address := Offset(base, offset, !postindex);
    var s1 := WriteBack(s, wback, n, Offset(address, offset, postindex));
    AccessPair(c, s1, t, t2, acctype, memop, signed, address, datasize)
  }

  lemma PairEnds(c: Config, s: State, s1: State, base: Word, wback: bool, postindex: bool, n: RegIndex, t: RegIndex,
                 t2: RegIndex, acctype: AccType, memop: MemOp, signed: bool, datasize: nat, offset: Word, address: Word)
    requires Width(datasize) && address == Offset(base, offset, !postindex)
    requires s1 == WriteBack(s, wback, n, Offset(address, offset, postindex))
    ensures PairAt(c, s, base, wback, postindex, n, t, t2, acctype, memop, signed, datasize, offset)
         == AccessPair(c, s1, t, t2, acctype, memop, signed, address, datasize)
  {
  }

  /** Register pairs; `undefined` is the check of the particular encoding. */
  function ExecPair(c: Config, s: State, undefined: bool, wback: bool, postindex: bool, n: RegIndex, t: RegIndex,
                    t2: RegIndex, acctype: AccType, memop: MemOp, signed: bool, datasize: nat, offset: Word): Outcome
    requires Width(datasize)
  {
    if undefined then Exit
    else
      match BaseAddress(c, s, n, true)
      case None => Exit
      case Some(base) =>
        PairAt(c, s, base, wback, postindex, n, t, t2, acctype, memop, signed, datasize, offset)
  }

  /** Encodings of LoadStorePair that are undefined: writeback to a transferred register, or one target twice. */
  predicate PairUndefined(memop: MemOp, wback: bool, n: RegIndex, t: RegIndex, t2: RegIndex) {
    || (memop != Prefetch && wback && (t == n || t2 == n) && n != 31)
    || (memop == Load && t == t2)
  }

  predicate ExclusiveUndefined(n: RegIndex, t: RegIndex, t2: RegIndex, st: RegIndex, excl: bool, pair: bool,
                               memop: MemOp) {
    || (memop == Load && pair && t == t2)
    || (memop == Store && excl && (st == t || (pair && st == t2) || (st == n && n != 31)))
  }

  /** The value a store-exclusive pair writes. */
  function PairData(bigEndian: bool, el1: Bits, el2: Bits): Bits {
    if bigEndian then Concat(el1, el2) else Concat(el2, el1)
  }

  /** The 32-bit exclusive pair: one 64-bit read, split according to the endianness. */
  function ExecLoadWords(c: Config, s: State, acctype: AccType, address: Word, t: RegIndex, t2: RegIndex): Outcome {
    match LoadBits(c, s, address, 64, acctype, true)
    case None => Exit
    case Some((kind, data)) =>
      var (first, second) := if c.bigEndian then (data[32..], data[..32]) else (data[..32], data[32..]);
      Done(WX(WX(s, t, first), t2, second), [MemRead(kind, address, 8)])
  }

  function ExecExclusiveLoad(c: Config, s: State, i: MemoryOp, address: Word): Outcome
    requires i.LoadStoreAcqExc? && WellFormedMemory(i)
  {
    if !i.pair then ExecLoad(c, s, address, i.datasize, i.acctype, i.excl, i.t, false, i.regsize)
    else if !i.excl then Exit
    else if i.elsize == 32 then
      ExecLoadWords(c, s, i.acctype, address, i.t, i.t2)
    else if !Aligned(AddressOf(address), 16) then Exit
    else ExecLoadPair(c, s, address, 64, i.acctype, true, i.t, i.t2, 64, false)
  }

  function StoreValue(c: Config, s: State, i: MemoryOp): (r: Bits)
    requires i.LoadStoreAcqExc? && WellFormedMemory(i)
    ensures |r| == i.datasize
  {
    if i.pair then PairData(c.bigEndian, RX(s, i.t, i.regsize), RX(s, i.t2, i.regsize)) else RX(s, i.t, i.datasize)
  }

  function ExecExclusiveStore(c: Config, s: State, i: MemoryOp, address: Word): Outcome
    requires i.LoadStoreAcqExc? && WellFormedMemory(i)
  {
    if i.pair && !i.excl then Exit
    else if i.excl && !Aligned(AddressOf(address), i.datasize / 8) then Exit
    else ExecStore(c, s, address, i.acctype, StoreValue(c, s, i), i.excl)
  }

  lemma ExclusiveStoreEnds(c: Config, s: State, i: MemoryOp, address: Word, value: Bits)
    requires i.LoadStoreAcqExc? && WellFormedMemory(i) && value == StoreValue(c, s, i)
    requires !(i.pair && !i.excl) && !(i.excl && !Aligned(AddressOf(address), i.datasize / 8))
    ensures ExecExclusiveStore(c, s, i, address) == ExecStore(c, s, address, i.acctype, value, i.excl)
  {
  }

  /** The status register of a store-exclusive is written first; a failed one does nothing else. */
  function StatusWritten(c: Config, s: State, i: MemoryOp): State
    requires i.LoadStoreAcqExc?
  {
    if i.memop == Store && i.excl then WX(s, i.s, ZeroExtend([!c.exclusiveSucceeds], 32)) else s
  }

  function ExecAcqExc(c: Config, s: State, i: MemoryOp): Outcome
    requires i.LoadStoreAcqExc? && WellFormedMemory(i)
  {
    if ExclusiveUndefined(i.n, i.t, i.t2, i.s, i.excl, i.pair, i.memop) then Exit
    else
      var s1 := StatusWritten(c, s, i);
      if i.memop == Store && i.excl && !c.exclusiveSucceeds then Done(s1, [])
      else
        match BaseAddress(c, s1, i.n, true)
        case None => Exit
        case Some(address) =>
          match i.memop
          case Store => ExecExclusiveStore(c, s1, i, address)
          case Load => ExecExclusiveLoad(c, s1, i, address)
          case Prefetch => Exit
  }

  function ExecLiteral(c: Config, s: State, i: MemoryOp): Outcome
    requires i.LoadLiteral? && WellFormedMemory(i)
  {
    match i.memop
    case Load =>
      ExecLoad(c, s, Plus(s.pc, i.offset), i.datasize, Normal, false, i.t, i.signed,
               if i.signed then 64 else i.datasize)
    case Prefetch => Done(s, [])
    case Store => Exit
  }

  function ExecMemory(c: Config, i: MemoryOp, s: State): Outcome
    requires WellFormedMemory(i)
  {
    match i
    case LoadLiteral(_, _, _, _, _, _) => ExecLiteral(c, s, i)
    case LoadStoreAcqExc(_, _, _, _, _, _, _, _, _, _, _) => ExecAcqExc(c, s, i)
    case LoadStorePairNonTemp(wback, postindex, n, t, t2, acctype, memop, _, datasize, offset) =>
      ExecPair(c, s, memop == Load && t == t2, wback, postindex, n, t, t2, acctype, memop, false, datasize, offset)
    case LoadStorePair(wback, postindex, n, t, t2, acctype, memop, signed, datasize, offset) =>
      ExecPair(c, s, PairUndefined(memop, wback, n, t, t2), wback, postindex, n, t, t2, acctype, memop, signed,
               datasize, offset)
    case LoadImmediate(n, t, acctype, memop, signed, wback, postindex, offset, regsize, datasize) =>
      ExecSingle(c, s, n, t, acctype, memop, signed, wback, postindex, offset, regsize, datasize)
    case LoadRegister(n, t, m, acctype, memop, signed, wback, postindex, etype, shift, regsize, datasize) =>
      ExecSingle(c, s, n, t, acctype, memop, signed, wback, postindex, ExtendReg(RX(s, m, 64), etype, shift),
                 regsize, datasize)
  }

  /** One instruction. */
  ghost function Exec(c: Config, i: Instr, s: State): Outcome
    requires WellFormed(i)
  {
    match i
    case Data(data) => Done(After(data, s), [])
    case Memory(memory) => ExecMemory(c, memory, s)
    case Branch(branch) => ExecBranch(c, branch, s)
    case System(system) => ExecSystem(c, system, s)
  }
}
