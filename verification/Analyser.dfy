/** `initial_analysis` (aarch64_small/aarch64_regfp.sail) as the source computes it: register lists grown step
    by step, here as sets, against what the Footprint module claims. */
module Analyser {
  import opened Wrappers
  import opened BitVectors
  import opened MemAccess
  import opened Instructions
  import opened Footprint
  import Semantics

  /** Either a system register's footprint, or no match. */
  function FieldsOf(op0: nat, op1: nat, crn: nat, crm: nat, op2: nat): Option<set<Reg>> {
    match Semantics.SystemRegister(op0, op1, crn, crm, op2)
    case None => None
    case Some(r) => Some(SystemFP(r))
  }

  method BranchToFP(iR: set<Reg>, oR: set<Reg>) returns (iR': set<Reg>, oR': set<Reg>)
    ensures iR' == {CurrentEl} + iR && oR' == {Pc} + oR
  {
    iR', oR' := {CurrentEl} + iR, {Pc} + oR;
  }

  method AnalyseSystem(i: SystemOp, s: State) returns (r: Option<Analysis>)
    ensures r == Claimed(System(i), s)
  {
    var iR: set<Reg>, oR: set<Reg>, ik := {}, {}, IkSimple;
    match i {
      case TMStart(t) =>
        iR := {TxNesting, TxDepth} + iR;
        oR := oR + XFP(t);
        oR := {TxNesting} + oR;
        ik := IkTrans(TransStart);
      case TMCommit =>
        iR := {TxNesting} + iR;
        oR := {TxNesting} + oR;
        ik := IkTrans(TransCommit);
      case TMAbort(_, _) =>
        iR := {TxNesting} + iR;
        ik := IkTrans(TransAbort);
      case TMTest =>
        iR := {TxNesting} + iR;
        oR := NZCV_FULL + oR;
      case MoveSystemImmediate(_, field) =>
        match field {
          case FieldSp => oR := {SpSel} + oR;
          case FieldDaifSet =>
            iR := iR + {MaskD, MaskA, MaskI, MaskF};
            oR := oR + {MaskD, MaskA, MaskI, MaskF};
          case FieldDaifClr =>
            iR := iR + {MaskD, MaskA, MaskI, MaskF};
            oR := oR + {MaskD, MaskA, MaskI, MaskF};
        }
      case Hint(hint) =>
        match hint {
          case HintYield =>
          case HintWfe => return None;
          case HintWfi => return None;
          case HintSev =>
          case HintSevl => return None;
          case HintNop =>
        }
      case ClearExclusiveMonitor(_) =>
      case Barrier(op, _, types) =>
        match op {
          case DSB => ik := IkBarrier(BarrierDsb(types));
          case DMB => ik := IkBarrier(BarrierDmb(types));
          case ISB => ik := IkBarrier(BarrierIsb);
        }
      case MoveSystemRegister(t, op0, op1, op2, crn, crm, read) =>
        var fields := FieldsOf(op0, op1, crn, crm, op2);
        if fields.None? { return None; }
        if read {
          oR := oR + XFP(t);
          iR := fields.value + iR;
        } else {
          iR := iR + XFP(t);
          oR := fields.value + oR;
        }
    }
    assert iR == SystemReads(i) && oR == SystemWrites(i);
    r := Some(Analysis(iR, oR, {}, {Successor}, ik));
  }

  method AnalyseBranch(i: BranchOp, s: State) returns (r: Option<Analysis>)
    ensures r == Claimed(Branch(i), s)
  {
    var iR: set<Reg>, oR: set<Reg>, nias := {}, {}, {Successor};
    match i {
      case CompareAndBranch(t, _, _, offset) =>
        iR := iR + XFP(t);
        iR, oR := BranchToFP(iR, oR);
        nias := {Successor, Concrete(Semantics.Plus(s.pc, offset))};
      case BranchConditional(offset, condition) =>
        iR := iR + ConditionFP(condition);
        iR, oR := BranchToFP(iR, oR);
        nias := {Successor, Concrete(Semantics.Plus(s.pc, offset))};
      case TestBitAndBranch(t, _, _, _, offset) =>
        iR := XFP(t) + iR;
        iR, oR := BranchToFP(iR, oR);
        nias := {Successor, Concrete(Semantics.Plus(s.pc, offset))};
      case BranchImmediate(branchType, offset) =>
        if branchType == Call { iR, oR := {Pc} + iR, XFP(30) + oR; }
        iR, oR := BranchToFP(iR, oR);
        nias := {Concrete(Semantics.Plus(s.pc, offset))};
      case BranchRegister(n, branchType) =>
        iR := iR + XFP(n);
        if branchType == Call { iR, oR := {Pc} + iR, XFP(30) + oR; }
        iR, oR := BranchToFP(iR, oR);
        nias := if n == 31 then {Concrete(Zeros(64))} else {Indirect};
    }
    assert iR == BranchReads(i) && oR == BranchWrites(i);
    r := Some(Analysis(iR, oR, {}, nias, IkBranch));
  }

  method BaseRegister(n: RegIndex, iR: set<Reg>, aR: set<Reg>) returns (iR': set<Reg>, aR': set<Reg>)
    ensures iR' == BaseFP(n) + iR && aR' == SourceFP(n) + aR
  {
    if n == 31 {
      iR' := CHECK_SP_FP + iR;
      iR' := RSP_FP + iR';
      aR' := RSP_FP + aR;
    } else {
      iR' := XFP(n) + iR;
      aR' := XFP(n) + aR;
    }
  }

  method WriteBackRegister(wback: bool, n: RegIndex, iR: set<Reg>, oR: set<Reg>) returns (iR': set<Reg>, oR': set<Reg>)
    ensures iR' == iR + WriteBackReads(wback, n) && oR' == oR + WriteBackWrites(wback, n)
  {
    iR', oR' := iR, oR;
    if wback {
      if n == 31 {
        iR' := {SpSel} + iR';
        oR' := {SpEl0} + oR';
      } else {
        oR' := XFP(n) + oR';
      }
    }
  }

  method AnalyseLiteral(i: MemoryOp) returns (iR: set<Reg>, oR: set<Reg>, aR: set<Reg>, kind: Option<InstructionKind>)
    requires i.LoadLiteral?
    ensures kind == MemoryKind(i)
    ensures kind.Some? ==> iR == MemoryReads(i) && oR == MemoryWrites(i) && aR == MemoryAddresses(i)
  {
    iR, oR, aR, kind := {}, {}, {}, None;
    iR := {Pc} + iR;
    oR := XFP(i.t) + oR;
    aR := {Pc} + aR;
    match i.memop {
      case Load => kind := Some(IkMemRead(ReadPlain));
      case Prefetch => kind, aR := Some(IkSimple), {};
      case Store =>
    }
  }

  method AnalyseAcqExc(i: MemoryOp) returns (iR: set<Reg>, oR: set<Reg>, aR: set<Reg>, kind: Option<InstructionKind>)
    requires i.LoadStoreAcqExc?
    ensures kind == MemoryKind(i)
    ensures kind.Some? ==> iR == MemoryReads(i) && oR == MemoryWrites(i) && aR == MemoryAddresses(i)
  {
    oR, kind := {}, Some(IkSimple);
    iR, aR := BaseRegister(i.n, {}, {});
    match i.memop {
      case Store =>
        if i.pair { iR := XFP(i.t) + (XFP(i.t2) + iR); } else { iR := XFP(i.t) + iR; }
        iR := iR + BIG_ENDIAN_FP;
        if i.excl {
          oR := XFP(i.s) + oR;
          kind := WMemKind(i.acctype, true);
        } else {
          kind := WMemKind(i.acctype, false);
        }
      case Load =>
        if i.pair {
          if i.elsize == 32 { iR := iR + BIG_ENDIAN_FP; }
          oR := XFP(i.t) + (XFP(i.t2) + oR);
          kind := RMemKind(i.acctype, true);
        } else {
          oR := XFP(i.t) + oR;
          kind := RMemKind(i.acctype, i.excl);
        }
      case Prefetch => aR := {};
    }
  }

  /** LoadStorePair and LoadStorePairNonTemp, which the source treats alike. */
  method AnalysePair(i: MemoryOp) returns (iR: set<Reg>, oR: set<Reg>, aR: set<Reg>, kind: Option<InstructionKind>)
    requires i.LoadStorePair? || i.LoadStorePairNonTemp?
    ensures kind == MemoryKind(i)
    ensures kind.Some? ==> iR == MemoryReads(i) && oR == MemoryWrites(i) && aR == MemoryAddresses(i)
  {
    kind := None;
    iR, aR := BaseRegister(i.n, {}, {});
    iR, oR := WriteBackRegister(i.wback, i.n, iR, {});
    match i.memop {
      case Store =>
        iR := XFP(i.t) + iR;
        iR := XFP(i.t2) + iR;
        iR := BIG_ENDIAN_FP + iR;
        kind := WMemKind(i.acctype, false);
      case Load =>
        oR := XFP(i.t) + (XFP(i.t2) + oR);
        kind := RMemKind(i.acctype, false);
      case Prefetch =>
    }
  }

  /** LoadImmediate, and LoadRegister with its index register. */
  method AnalyseSingle(i: MemoryOp) returns (iR: set<Reg>, oR: set<Reg>, aR: set<Reg>, kind: Option<InstructionKind>)
    requires i.LoadImmediate? || i.LoadRegister?
    ensures kind == MemoryKind(i)
    ensures kind.Some? ==> iR == MemoryReads(i) && oR == MemoryWrites(i) && aR == MemoryAddresses(i)
  {
    iR, oR, aR, kind := {}, {}, {}, Some(IkSimple);
    if i.LoadRegister? { iR, aR := XFP(i.m) + iR, XFP(i.m) + aR; }
    iR, aR := BaseRegister(i.n, iR, aR);
    iR, oR := WriteBackRegister(i.wback, i.n, iR, oR);
    match i.memop {
      case Store =>
        iR := XFP(i.t) + iR;
        iR := BIG_ENDIAN_FP + iR;
        kind := WMemKind(i.acctype, false);
      case Load =>
        oR := XFP(i.t) + oR;
        kind := RMemKind(i.acctype, false);
      case Prefetch => aR := {};
    }
  }

  method AnalyseMemory(i: MemoryOp, s: State) returns (r: Option<Analysis>)
    ensures r == Claimed(Memory(i), s)
  {
    var iR: set<Reg>, oR: set<Reg>, aR: set<Reg>, kind;
    if i.LoadLiteral? { iR, oR, aR, kind := AnalyseLiteral(i); }
    else if i.LoadStoreAcqExc? { iR, oR, aR, kind := AnalyseAcqExc(i); }
    else if i.LoadStorePair? || i.LoadStorePairNonTemp? { iR, oR, aR, kind := AnalysePair(i); }
    else { iR, oR, aR, kind := AnalyseSingle(i); }
    r := if kind.None? then None else Some(Analysis(iR, oR, aR, {Successor}, kind.value));
  }

  /** The destination of the forms that may write the stack pointer. */
  method DestinationOrSp(d: RegIndex, setflags: bool, iR: set<Reg>, oR: set<Reg>) returns (iR': set<Reg>, oR': set<Reg>)
    ensures var sp := d == 31 && !setflags;
            && iR' == iR + If(sp, {SpSel})
            && oR' == oR + If(setflags, NZCV_FP) + (if sp then {SpEl0} else XFP(d))
  {
    iR', oR' := iR, oR;
    if setflags { oR' := NZCV_FP + oR'; }
    if d == 31 && !setflags {
      iR', oR' := {SpSel} + iR', {SpEl0} + oR';
    } else {
      oR' := XFP(d) + oR';
    }
  }

  predicate MayWriteSp(i: DataOp) { i.AddSubImmediate? || i.AddSubExtendRegister? || i.LogicalImmediate? }

  predicate ShiftedOrCarry(i: DataOp) { i.AddSubShiftedRegister? || i.AddSubCarry? || i.LogicalShiftedRegister? }

  predicate Moves(i: DataOp) {
    || i.BitfieldMove? || i.ExtractRegister? || i.MoveWide? || i.Address? || i.ConditionalCompareImmediate?
    || i.ConditionalCompareRegister? || i.ConditionalSelect?
  }

  method AnalyseData(i: DataOp, s: State) returns (r: Option<Analysis>)
    ensures r == Claimed(Data(i), s)
  {
    var iR: set<Reg>, oR: set<Reg>;
    if MayWriteSp(i) { iR, oR := AnalyseMayWriteSp(i); }
    else if ShiftedOrCarry(i) { iR, oR := AnalyseShifted(i); }
    else if Moves(i) { iR, oR := AnalyseMove(i); }
    else { iR, oR := AnalyseArithmetic(i); }
    r := Some(Analysis(iR, oR, {}, {Successor}, IkSimple));
  }

  method AnalyseMayWriteSp(i: DataOp) returns (iR: set<Reg>, oR: set<Reg>)
    requires MayWriteSp(i)
    ensures iR == DataReads(i) && oR == DataWrites(i)
  {
    iR, oR := {}, {};
    match i {
      case AddSubImmediate(d, n, _, _, setflags, _) =>
        iR := (if n == 31 then RSP_FP else XFP(n)) + iR;
        iR, oR := DestinationOrSp(d, setflags, iR, oR);
      case AddSubExtendRegister(d, n, m, _, _, setflags, _, _) =>
        iR := (if n == 31 then RSP_FP else XFP(n)) + iR;
        iR := XFP(m) + iR;
        iR, oR := DestinationOrSp(d, setflags, iR, oR);
      case LogicalImmediate(d, n, _, setflags, _, _) =>
        iR := XFP(n) + iR;
        iR, oR := DestinationOrSp(d, setflags, iR, oR);
    }
  }

  method AnalyseShifted(i: DataOp) returns (iR: set<Reg>, oR: set<Reg>)
    requires ShiftedOrCarry(i)
    ensures iR == DataReads(i) && oR == DataWrites(i)
  {
    iR, oR := XFP(i.n) + (XFP(i.m) + {}), {};
    if i.AddSubCarry? { iR := {FlagC} + iR; }
    if i.setflags { oR := NZCV_FP + oR; }
    oR := XFP(i.d) + oR;
  }

  method AnalyseMove(i: DataOp) returns (iR: set<Reg>, oR: set<Reg>)
    requires Moves(i)
    ensures iR == DataReads(i) && oR == DataWrites(i)
  {
    iR, oR := {}, {};
    match i {
      case BitfieldMove(d, n, _, inzero, _, _, _, _) =>
        if !inzero { iR := iR + XFP(d); }
        iR := iR + XFP(n);
        oR := oR + XFP(d);
      case ExtractRegister(d, n, m, _, _) => iR, oR := XFP(n) + (XFP(m) + iR), XFP(d) + oR;
      case MoveWide(d, _, _, _, opcode) =>
        if opcode == MoveK { iR := XFP(d) + iR; }
        oR := XFP(d) + oR;
      case Address(d, _, _) => iR, oR := {Pc} + iR, XFP(d) + oR;
      case ConditionalCompareImmediate(n, _, _, condition, _, _) =>
        iR := XFP(n) + iR;
        iR := ConditionFP(condition) + iR;
        oR := NZCV_FP + oR;
      case ConditionalCompareRegister(n, m, _, _, condition, _) =>
        iR := XFP(n) + (XFP(m) + iR);
        iR := ConditionFP(condition) + iR;
        oR := NZCV_FP + oR;
      case ConditionalSelect(d, n, m, _, condition, _, _) =>
        iR := XFP(n) + (XFP(m) + iR);
        iR := ConditionFP(condition) + iR;
        oR := XFP(d) + oR;
    }
  }

  method AnalyseArithmetic(i: DataOp) returns (iR: set<Reg>, oR: set<Reg>)
    requires !MayWriteSp(i) && !ShiftedOrCarry(i) && !Moves(i)
    ensures iR == DataReads(i) && oR == DataWrites(i)
  {
    iR, oR := {}, {};
    match i {
      case Reverse(d, n, _, _) => iR, oR := XFP(n) + iR, XFP(d) + oR;
      case CountLeading(d, n, _, _) => iR, oR := XFP(n) + iR, XFP(d) + oR;
      case Division(d, n, m, _, _) => iR, oR := XFP(n) + (XFP(m) + iR), XFP(d) + oR;
      case Shift(d, n, m, _, _) => iR, oR := XFP(n) + (XFP(m) + iR), XFP(d) + oR;
      case CRC(d, n, m, _, _) => iR, oR := XFP(n) + (XFP(m) + iR), XFP(d) + oR;
      case MultiplyAddSub(d, n, m, a, _, _, _) => iR, oR := XFP(a) + (XFP(m) + (XFP(n) + iR)), XFP(d) + oR;
      case MultiplyAddSubLong(d, n, m, a, _, _, _, _) => iR, oR := XFP(a) + (XFP(m) + (XFP(n) + iR)), XFP(d) + oR;
      case MultiplyHigh(d, n, m, _, _, _, _) => iR, oR := XFP(n) + (XFP(m) + iR), XFP(d) + oR;
    }
  }

  /** The analysis of an instruction in a state; None where the source leaves the model. */
  method InitialAnalysis(i: Instr, s: State) returns (r: Option<Analysis>)
    ensures r == Claimed(i, s)
  {
    match i {
      case Data(data) => r := AnalyseData(data, s);
      case Branch(branch) => r := AnalyseBranch(branch, s);
      case System(system) => r := AnalyseSystem(system, s);
      case Memory(memory) => r := AnalyseMemory(memory, s);
    }
  }
}
