/** The announced inputs of branches and system instructions are exactly those they can depend on, and every announced
    next address can be gone to, apart from the cases listed here. */
module NeededControl {
  import opened Wrappers
  import opened Ints
  import opened BitVectors
  import opened CommonLib
  import opened Ram
  import opened Instructions
  import opened Semantics
  import opened Footprint
  import opened Agreement
  import opened FootprintSound
  import opened FootprintNeeded
  import opened NeededSums
  import opened NeededBits
  import AccessMeanings

  /** No tag bytes, no checks; store-exclusives succeed. */
  const PLAIN := Config(false, false, false, false, false, true, Zeros(64))

  // ----- branches -----

  /** The same branch; the offset of an immediate one may be another. */
  predicate SameBranch(i: BranchOp, j: BranchOp) {
    match i
    case CompareAndBranch(t, N, iszero, _) => j.CompareAndBranch? && j == CompareAndBranch(t, N, iszero, j.offset)
    case BranchConditional(_, condition) => j.BranchConditional? && j == BranchConditional(j.offset, condition)
    case TestBitAndBranch(t, N, bitPos, bitVal, _) =>
      j.TestBitAndBranch? && j == TestBitAndBranch(t, N, bitPos, bitVal, j.offset)
    case BranchImmediate(branchType, _) => j.BranchImmediate? && j == BranchImmediate(branchType, j.offset)
    case BranchRegister(_, _) => j == i
  }

  /** The outputs that show register r: the PC a branch starts from shows in the others only. */
  function BranchOutputs(i: BranchOp, r: Reg): set<Reg> {
    if r == Pc then BranchWrites(i) - {Pc} else BranchWrites(i)
  }

  ghost predicate BranchNeeded(i: BranchOp, r: Reg)
    requires WellFormedBranch(i)
  {
    exists c: Config, j: BranchOp, s: State, t: State ::
      WellFormedBranch(j) && SameBranch(i, j) && BranchShown(c, j, r, s, t)
  }

  ghost predicate BranchShown(c: Config, i: BranchOp, r: Reg, s: State, t: State)
    requires WellFormedBranch(i)
  {
    DiffersOnly(s, t, r) && !Matching(ExecBranch(c, i, s), ExecBranch(c, i, t), BranchOutputs(i, r))
  }

  lemma ElsewhereShown(i: BranchOp, j: BranchOp, r: Reg, s: State, t: State)
    requires WellFormedBranch(i) && WellFormedBranch(j) && SameBranch(i, j) && DiffersOnly(s, t, r) && r != Pc
    requires ExecBranch(PLAIN, j, s).state.pc != ExecBranch(PLAIN, j, t).state.pc
    ensures BranchNeeded(i, r)
  {
    assert Read(ExecBranch(PLAIN, j, s).state, Pc) != Read(ExecBranch(PLAIN, j, t).state, Pc);
    assert Pc in BranchOutputs(j, r);
    assert BranchShown(PLAIN, j, r, s, t);
  }

  /** With an offset that goes somewhere, a branch taken in one state and not in the other shows. */
  lemma DecisionShown(i: BranchOp, j: BranchOp, r: Reg, s: State, t: State)
    requires WellFormedBranch(i) && WellFormedBranch(j) && SameBranch(i, j) && DiffersOnly(s, t, r) && r != Pc
    requires !j.BranchRegister? && j.offset == One(2) && s.pc == t.pc == Zeros(64) && Taken(j, s) != Taken(j, t)
    ensures BranchNeeded(i, r)
  {
    PlusFromZero(One(2));
    assert One(2)[2] != Zeros(64)[2];
    PlainJump(j, s);
    PlainJump(j, t);
    ElsewhereShown(i, j, r, s, t);
  }

  lemma PlusFromZero(a: Word)
    ensures Plus(Zeros(64), a) == a
  {
    UIntZeros(64);
    ToBitsUInt(a);
  }

  lemma PlainJump(i: BranchOp, s: State)
    requires WellFormedBranch(i)
    ensures ExecBranch(PLAIN, i, s).state.pc == if Taken(i, s) then Target(i, s) else s.pc
  {
  }

  lemma UniformPc(k: Word, f: Flags, r: Reg, v: Word)
    requires r.R?
    ensures Place(Uniform(k, f), r, v).pc == Zeros(64)
  {
  }

  lemma CompareBranchNeeded(i: BranchOp, r: Reg)
    requires WellFormedBranch(i) && i.CompareAndBranch? && r in XFP(i.t)
    ensures BranchNeeded(i, r)
  {
    var s, t := Probe(0, CLEAR, r, 0), Probe(0, CLEAR, r, 2);
    ProbesDiffer(0, CLEAR, r, 0, 2);
    OperandProbed(CLEAR, r, i.t, i.datasize, RX(s, i.t, i.datasize), RX(t, i.t, i.datasize));
    IsZeroValue(RX(s, i.t, i.datasize));
    IsZeroValue(RX(t, i.t, i.datasize));
    UniformPc(Small(0), CLEAR, r, Small(0));
    UniformPc(Small(0), CLEAR, r, Small(2));
    DecisionShown(i, CompareAndBranch(i.t, i.datasize, i.iszero, One(2)), r, s, t);
  }

  lemma TestBranchNeeded(i: BranchOp, r: Reg)
    requires WellFormedBranch(i) && i.TestBitAndBranch? && r in XFP(i.t)
    ensures BranchNeeded(i, r)
  {
    var zero: Word := Zeros(64);
    var s, t := Trial(zero, r, zero), Trial(zero, r, One(i.bitPos));
    TrialsDiffer(zero, r, zero, One(i.bitPos), i.bitPos);
    TrialSource(zero, r, zero, i.t, i.datasize, RX(s, i.t, i.datasize));
    TrialSource(zero, r, One(i.bitPos), i.t, i.datasize, RX(t, i.t, i.datasize));
    UniformPc(zero, CLEAR, r, zero);
    UniformPc(zero, CLEAR, r, One(i.bitPos));
    DecisionShown(i, TestBitAndBranch(i.t, i.datasize, i.bitPos, i.bitVal, One(2)), r, s, t);
  }

  lemma ConditionBranchNeeded(i: BranchOp, r: Reg)
    requires i.BranchConditional? && r in ConditionFP(i.condition)
    ensures BranchNeeded(i, r)
  {
    var s, t := DecidedStates(i.condition, r);
    FlipDecides(i.condition, r);
    assert Read(s, Pc) == Read(t, Pc);
    DecisionShown(i, BranchConditional(One(2), i.condition), r, s, t);
  }

  lemma RegisterBranchNeeded(i: BranchOp, r: Reg)
    requires i.BranchRegister? && r in XFP(i.n)
    ensures BranchNeeded(i, r)
  {
    var zero: Word := Zeros(64);
    var s, t := Trial(zero, r, zero), Trial(zero, r, One(2));
    TrialsDiffer(zero, r, zero, One(2), 2);
    TrialSource(zero, r, zero, i.n, 64, RX(s, i.n, 64));
    TrialSource(zero, r, One(2), i.n, 64, RX(t, i.n, 64));
    assert RX(s, i.n, 64)[2] != RX(t, i.n, 64)[2];
    PlainJump(i, s);
    PlainJump(i, t);
    ElsewhereShown(i, i, r, s, t);
  }

  /** The return address a call leaves shows where it was made. */
  lemma CallNeeded(i: BranchOp)
    requires WellFormedBranch(i) && (i.BranchImmediate? || i.BranchRegister?) && i.branchType == Call
    ensures BranchNeeded(i, Pc)
  {
    var s, t := Probe(0, CLEAR, Pc, 0), Probe(0, CLEAR, Pc, 2);
    ProbesDiffer(0, CLEAR, Pc, 0, 2);
    SmallWord(0);
    SmallWord(2);
    SmallWord(4);
    LinksDiffer(s.pc, t.pc, ToBits(64, 4));
    LinkShown(i, s, t, Plus(s.pc, ToBits(64, 4)), Plus(t.pc, ToBits(64, 4)));
  }

  lemma SmallWord(v: nat)
    requires v < 16
    ensures UInt(Small(v)) == v
  {
    SmallPart(v, 64);
    assert Small(v)[..64] == Small(v);
  }

  lemma LinksDiffer(a: Word, b: Word, four: Word)
    requires UInt(four) == 4 && UInt(a) == 0 && UInt(b) == 2
    ensures Plus(a, four) != Plus(b, four)
  {
    AccessMeanings.PlusNumber(a, four);
    AccessMeanings.PlusNumber(b, four);
    SmallMod(4, WORD);
    SmallMod(6, WORD);
  }

  lemma LinkShown(i: BranchOp, s: State, t: State, a: Word, b: Word)
    requires WellFormedBranch(i) && (i.BranchImmediate? || i.BranchRegister?) && i.branchType == Call
    requires DiffersOnly(s, t, Pc) && a == Plus(s.pc, ToBits(64, 4)) && b == Plus(t.pc, ToBits(64, 4)) && a != b
    ensures BranchNeeded(i, Pc)
  {
    LinkRead(i, s, a);
    LinkRead(i, t, b);
    assert R(30) in BranchOutputs(i, Pc);
    assert BranchShown(PLAIN, i, Pc, s, t);
  }

  lemma LinkRead(i: BranchOp, s: State, a: Word)
    requires WellFormedBranch(i) && (i.BranchImmediate? || i.BranchRegister?) && i.branchType == Call
    requires a == Plus(s.pc, ToBits(64, 4))
    ensures Read(ExecBranch(PLAIN, i, s).state, R(30)) == a
  {
    AccessMeanings.WholeWord(a);
  }

  lemma SameBranchReads(i: BranchOp, j: BranchOp)
    requires SameBranch(i, j)
    ensures BranchReads(j) == BranchReads(i) && BranchWrites(j) == BranchWrites(i)
  {
  }

  /** A register that is not announced makes no difference to a branch. */
  lemma UnreadBranch(c: Config, i: BranchOp, r: Reg, s: State, t: State)
    requires WellFormedBranch(i) && DiffersOnly(s, t, r) && r !in BranchReads(i)
    ensures Matching(ExecBranch(c, i, s), ExecBranch(c, i, t), BranchOutputs(i, r))
  {
    if r == Pc {
      assert BranchOutputs(i, r) == {};
      assert BranchLink(i, s) == s && BranchLink(i, t) == t;
    } else {
      var F := BranchReads(i) + (BranchWrites(i) - {r});
      AgreeExcept(s, t, r, F);
      assert Read(s, Pc) == Read(t, Pc);
      BranchMatching(c, i, s, t, F);
      if !Taken(i, s) { BranchWritesWhenNotTaken(i, s); }
      MatchingMonotone(ExecBranch(c, i, s), ExecBranch(c, i, t), F + {Pc} + If(Taken(i, s), BranchWrites(i)),
                       BranchOutputs(i, r));
    }
  }

  /** For every register: a branch depends on it exactly when it is announced as an input and is not the exception
      level, which no two states at EL0 tell apart. */
  lemma BranchInputsExact(i: BranchOp, r: Reg)
    requires WellFormedBranch(i)
    ensures BranchNeeded(i, r) <==> r in BranchReads(i) && r != CurrentEl
  {
    if r !in BranchReads(i) || r == CurrentEl {
      forall c: Config, j: BranchOp, s: State, t: State | WellFormedBranch(j) && SameBranch(i, j)
        ensures !BranchShown(c, j, r, s, t)
      {
        SameBranchReads(i, j);
        if DiffersOnly(s, t, r) { UnreadBranch(c, j, r, s, t); }
      }
    } else if r == Pc {
      CallNeeded(i);
    } else {
      match i
      case CompareAndBranch(_, _, _, _) => CompareBranchNeeded(i, r);
      case BranchConditional(_, _) => ConditionBranchNeeded(i, r);
      case TestBitAndBranch(_, _, _, _, _) => TestBranchNeeded(i, r);
      case BranchRegister(_, _) => RegisterBranchNeeded(i, r);
    }
  }

  // ----- next addresses -----

  /** Some state at this PC lets the branch fall through, or takes it. */
  ghost predicate MayFall(i: BranchOp, pc: Word)
    requires WellFormedBranch(i)
  {
    exists s: State :: s.pc == pc && !Taken(i, s)
  }

  ghost predicate MayTake(i: BranchOp, pc: Word)
    requires WellFormedBranch(i)
  {
    exists s: State :: s.pc == pc && Taken(i, s)
  }

  /** Decided beforehand: a condition that always holds, or a test of the zero register. */
  predicate NeverFalls(i: BranchOp) {
    match i
    case CompareAndBranch(t, _, iszero, _) => t == 31 && iszero
    case BranchConditional(_, condition) => condition >= 14
    case TestBitAndBranch(t, _, _, bitVal, _) => t == 31 && !bitVal
    case BranchImmediate(_, _) => true
    case BranchRegister(_, _) => true
  }

  predicate NeverTaken(i: BranchOp) {
    match i
    case CompareAndBranch(t, _, iszero, _) => t == 31 && !iszero
    case TestBitAndBranch(t, _, _, bitVal, _) => t == 31 && bitVal
    case _ => false
  }

  lemma TakenAnywhere(i: BranchOp, s: State, pc: Word)
    requires WellFormedBranch(i)
    ensures Taken(i, s.(pc := pc)) == Taken(i, s)
  {
  }

  lemma FallsFrom(i: BranchOp, s: State, pc: Word)
    requires WellFormedBranch(i)
    ensures !Taken(i, s) ==> MayFall(i, pc)
    ensures Taken(i, s) ==> MayTake(i, pc)
  {
    TakenAnywhere(i, s, pc);
    assert s.(pc := pc).pc == pc;
  }

  lemma DecidedBeforehand(i: BranchOp, s: State)
    requires WellFormedBranch(i)
    ensures NeverFalls(i) ==> Taken(i, s)
    ensures NeverTaken(i) ==> !Taken(i, s)
  {
  }

  /** States in which a branch that is not decided beforehand goes either way. */
  lemma EitherWay(i: BranchOp) returns (s: State, t: State)
    requires WellFormedBranch(i) && !NeverFalls(i) && !NeverTaken(i)
    ensures Taken(i, s) != Taken(i, t)
  {
    if i.CompareAndBranch? {
      s, t := Probe(0, CLEAR, R(i.t), 0), Probe(0, CLEAR, R(i.t), 2);
      OperandProbed(CLEAR, R(i.t), i.t, i.datasize, RX(s, i.t, i.datasize), RX(t, i.t, i.datasize));
      IsZeroValue(RX(s, i.t, i.datasize));
      IsZeroValue(RX(t, i.t, i.datasize));
    } else if i.TestBitAndBranch? {
      s, t := Trial(Zeros(64), R(i.t), Zeros(64)), Trial(Zeros(64), R(i.t), One(i.bitPos));
      TrialSource(Zeros(64), R(i.t), Zeros(64), i.t, i.datasize, RX(s, i.t, i.datasize));
      TrialSource(Zeros(64), R(i.t), One(i.bitPos), i.t, i.datasize, RX(t, i.t, i.datasize));
    } else {
      s, t := DecidedStates(i.condition, AnyFlag(i.condition));
    }
  }

  function AnyFlag(cond: Cond): (r: Reg)
    requires cond < 14
    ensures r in ConditionFP(cond)
  {
    match cond / 2
    case 0 => FlagZ
    case 1 => FlagC
    case 2 => FlagN
    case 3 => FlagV
    case 4 => FlagC
    case 5 => FlagN
    case _ => FlagN
  }

  /** From any PC a branch can fall through, and can be taken, unless that is decided beforehand. */
  lemma NextAddressesReached(i: BranchOp, pc: Word)
    requires WellFormedBranch(i)
    ensures MayFall(i, pc) <==> !NeverFalls(i)
    ensures MayTake(i, pc) <==> !NeverTaken(i)
  {
    forall s: State ensures (NeverFalls(i) ==> Taken(i, s)) && (NeverTaken(i) ==> !Taken(i, s)) {
      DecidedBeforehand(i, s);
    }
    if NeverFalls(i) || NeverTaken(i) {
      FallsFrom(i, Uniform(Zeros(64), CLEAR), pc);
    } else {
      var s, t := EitherWay(i);
      FallsFrom(i, s, pc);
      FallsFrom(i, t, pc);
    }
  }

  /** An indirect branch can go to every address. */
  lemma IndirectReaches(i: BranchOp, pc: Word, a: Word)
    requires i.BranchRegister? && i.n != 31
    ensures Reaches(i, pc, a)
  {
    var s := Uniform(a, CLEAR).(pc := pc);
    PlainJump(i, s);
    assert RX(s, i.n, 64) == a;
  }

  /** Some state at this PC makes the branch go there; an indirect target is every address. */
  ghost predicate Reached(i: BranchOp, pc: Word, next: Nia)
    requires WellFormedBranch(i)
  {
    match next
    case Successor => MayFall(i, pc)
    case Concrete(a) => exists s: State :: s.pc == pc && Taken(i, s) && ExecBranch(PLAIN, i, s).state.pc == a
    case Indirect => forall a: Word :: Reaches(i, pc, a)
  }

  ghost predicate Reaches(i: BranchOp, pc: Word, a: Word)
    requires WellFormedBranch(i)
  {
    exists s: State :: s.pc == pc && ExecBranch(PLAIN, i, s).state.pc == a
  }

  /** An announced next address is gone to from some state, unless the branch is decided the other way beforehand. */
  lemma NextAddressesExact(i: BranchOp, s: State, next: Nia)
    requires WellFormedBranch(i) && next in BranchNext(i, s)
    ensures Reached(i, s.pc, next) <==> !(next.Successor? && NeverFalls(i)) && !(next.Concrete? && NeverTaken(i))
  {
    NextAddressesReached(i, s.pc);
    match next
    case Successor =>
    case Concrete(a) => ConcreteReached(i, s, a);
    case Indirect =>
      forall a: Word ensures Reaches(i, s.pc, a) { IndirectReaches(i, s.pc, a); }
  }

  lemma ConcreteReached(i: BranchOp, s: State, a: Word)
    requires WellFormedBranch(i) && Concrete(a) in BranchNext(i, s)
    ensures Reached(i, s.pc, Concrete(a)) <==> MayTake(i, s.pc)
  {
    if MayTake(i, s.pc) {
      var t: State :| t.pc == s.pc && Taken(i, t);
      PlainJump(i, t);
      assert Target(i, t) == a;
    }
  }

  // ----- system instructions -----

  ghost predicate SystemShown(c: Config, i: SystemOp, r: Reg, s: State, t: State)
    requires WellFormedSystem(i)
  {
    DiffersOnly(s, t, r) && !Matching(ExecSystem(c, i, s), ExecSystem(c, i, t), SystemWrites(i))
  }

  ghost predicate SystemNeeded(i: SystemOp, r: Reg)
    requires WellFormedSystem(i)
  {
    exists c: Config, s: State, t: State :: SystemShown(c, i, r, s, t)
  }

  /** Announced inputs that make no difference: masks that the operand sets or clears anyway, a register moved to an
      unknown system register, a system register moved to the zero register. */
  predicate SystemIdle(i: SystemOp, r: Reg)
    requires WellFormedSystem(i)
  {
    match i
    case MoveSystemImmediate(b, _) =>
      (r == MaskD && b[3]) || (r == MaskA && b[2]) || (r == MaskI && b[1]) || (r == MaskF && b[0])
    case MoveSystemRegister(t, op0, op1, op2, crn, crm, read) =>
      if read then t == 31 else SystemRegister(op0, op1, crn, crm, op2).None?
    case _ => false
  }

  /** Outputs that are announced but keep their old value: the reserved bits after TTEST, the status register of a
      refused TSTART. */
  predicate SystemKept(i: SystemOp, r: Reg) { (i.TMTest? && r == NzcvRest) || (i.TMStart? && r in XFP(i.t)) }

  lemma OutputShown(i: SystemOp, r: Reg, s: State, t: State, q: Reg)
    requires WellFormedSystem(i) && DiffersOnly(s, t, r) && q in SystemWrites(i)
    requires ExecSystem(PLAIN, i, s).Done? && ExecSystem(PLAIN, i, t).Done?
    requires Read(ExecSystem(PLAIN, i, s).state, q) != Read(ExecSystem(PLAIN, i, t).state, q)
    ensures SystemNeeded(i, r)
  {
    assert SystemShown(PLAIN, i, r, s, t);
  }

  lemma EndShown(i: SystemOp, r: Reg, s: State, t: State)
    requires WellFormedSystem(i) && DiffersOnly(s, t, r)
    requires var (o, p) := (ExecSystem(PLAIN, i, s), ExecSystem(PLAIN, i, t));
             o.Done? != p.Done? || (o.Done? && p.Done? && o.events != p.events)
    ensures SystemNeeded(i, r)
  {
    assert SystemShown(PLAIN, i, r, s, t);
  }

  /** The same state with register r complemented. */
  function Altered(s: State, r: Reg): State {
    match r
    case R(n) => s.(x := s.x[n := Not(s.x[n])])
    case SpEl0 => s.(sp := Not(s.sp))
    case Pc => s.(pc := Not(s.pc))
    case FlagN => s.(flags := Flip(s.flags, r))
    case FlagZ => s.(flags := Flip(s.flags, r))
    case FlagC => s.(flags := Flip(s.flags, r))
    case FlagV => s.(flags := Flip(s.flags, r))
    case NzcvRest => s.(nzcvRest := Not(s.nzcvRest))
    case MaskD => s.(daif := s.daif.(d := !s.daif.d))
    case MaskA => s.(daif := s.daif.(a := !s.daif.a))
    case MaskI => s.(daif := s.daif.(i := !s.daif.i))
    case MaskF => s.(daif := s.daif.(f := !s.daif.f))
    case DaifRest => s.(daifRest := Not(s.daifRest))
    case SpSel => s.(spSel := !s.spSel)
    case CurrentEl => s
    case Tpidr => s.(tpidr := Not(s.tpidr))
    case TxNesting => s.(txNesting := Not(s.txNesting))
    case TxDepth => s.(txDepth := Not(s.txDepth))
  }

  lemma AlteredDiffers(s: State, r: Reg)
    requires r != CurrentEl
    ensures DiffersOnly(s, Altered(s, r), r)
  {
    var t := Altered(s, r);
    AlteredRead(s, r);
    forall q | q != r ensures Read(s, q) == Read(t, q) { OthersRead(s, r, q); }
  }

  lemma AlteredRead(s: State, r: Reg)
    requires r != CurrentEl
    ensures Read(s, r) != Read(Altered(s, r), r)
  {
    assert Read(s, r)[0] != Read(Altered(s, r), r)[0];
  }

  lemma OthersRead(s: State, r: Reg, q: Reg)
    requires q != r
    ensures Read(s, q) == Read(Altered(s, r), q)
  {
  }

  /** All registers zero, outside any transaction and with none allowed. */
  ghost function Idle(): State { Uniform(Zeros(64), CLEAR) }

  lemma NotZeros(n: nat)
    requires n > 0
    ensures UInt(Not(Zeros(n))) > 0 && UInt(Zeros(n)) == 0
  {
    UIntZeros(n);
    IsZeroValue(Not(Zeros(n)));
    assert Not(Zeros(n))[0];
  }

  lemma StartNeeded(i: SystemOp, r: Reg)
    requires i.TMStart? && (r == TxNesting || r == TxDepth)
    ensures SystemNeeded(i, r)
  {
    NotZeros(8);
    if r == TxDepth { StartShown(i, r, Idle()); } else { StartShown(i, r, Idle().(txDepth := Not(Zeros(8)))); }
  }

  /** One of the two states can start a transaction and the other cannot. */
  lemma StartShown(i: SystemOp, r: Reg, s: State)
    requires i.TMStart? && r != CurrentEl && CanStart(s) != CanStart(Altered(s, r))
    ensures SystemNeeded(i, r)
  {
    AlteredDiffers(s, r);
    EndShown(i, r, s, Altered(s, r));
  }

  lemma StatusKeptNeeded(i: SystemOp, r: Reg)
    requires i.TMStart? && r in XFP(i.t)
    ensures SystemNeeded(i, r)
  {
    AlteredDiffers(Idle(), r);
    OutputShown(i, r, Idle(), Altered(Idle(), r), r);
  }

  lemma NestingNeeded(i: SystemOp)
    requires WellFormedSystem(i) && (i.TMCommit? || i.TMAbort? || i.TMTest?)
    ensures SystemNeeded(i, TxNesting)
  {
    var s, t := Idle(), Altered(Idle(), TxNesting);
    NotZeros(8);
    AlteredDiffers(s, TxNesting);
    if i.TMTest? {
      TestShown(s, t);
      OutputShown(i, TxNesting, s, t, FlagZ);
    } else {
      EndShown(i, TxNesting, s, t);
    }
  }

  lemma TestShown(s: State, t: State)
    requires UInt(s.txNesting) == 0 && UInt(t.txNesting) > 0
    ensures Read(ExecSystem(PLAIN, TMTest, s).state, FlagZ) != Read(ExecSystem(PLAIN, TMTest, t).state, FlagZ)
  {
    assert Read(ExecSystem(PLAIN, TMTest, s).state, FlagZ)[0];
  }

  lemma ReservedKeptNeeded()
    ensures SystemNeeded(TMTest, NzcvRest)
  {
    AlteredDiffers(Idle(), NzcvRest);
    OutputShown(TMTest, NzcvRest, Idle(), Altered(Idle(), NzcvRest), NzcvRest);
  }

  lemma MaskNeeded(i: SystemOp, r: Reg)
    requires WellFormedSystem(i) && i.MoveSystemImmediate? && i.field != FieldSp && r in DAIF_FP && !SystemIdle(i, r)
    ensures SystemNeeded(i, r)
  {
    var s, t := Idle(), Altered(Idle(), r);
    AlteredDiffers(s, r);
    MaskShown(i, r, s, t);
    OutputShown(i, r, s, t, r);
  }

  lemma MaskShown(i: SystemOp, r: Reg, s: State, t: State)
    requires WellFormedSystem(i) && i.MoveSystemImmediate? && i.field != FieldSp && r in DAIF_FP && !SystemIdle(i, r)
    requires DiffersOnly(s, t, r)
    ensures Read(ExecSystem(PLAIN, i, s).state, r)[0] != Read(ExecSystem(PLAIN, i, t).state, r)[0]
  {
    assert Read(s, r)[0] != Read(t, r)[0];
  }

  function KnownRegister(i: SystemOp): SysReg
    requires i.MoveSystemRegister? && SystemRegister(i.op0, i.op1, i.crn, i.crm, i.op2).Some?
  {
    SystemRegister(i.op0, i.op1, i.crn, i.crm, i.op2).value
  }

  /** One field of each system register. */
  function FieldOf(r: SysReg): (q: Reg)
    ensures q in SystemFP(r)
  {
    match r
    case SysNzcv => FlagN
    case SysDaif => MaskD
    case SysTpidr => Tpidr
  }

  lemma PutShown(s: State, r: SysReg, v: Word, w: Word)
    requires v == Zeros(64) && w == Ones(64)
    ensures Read(SystemPut(s, r, v), FieldOf(r))[0] != Read(SystemPut(s, r, w), FieldOf(r))[0]
  {
  }

  lemma MoveToSystemNeeded(i: SystemOp, r: Reg)
    requires i.MoveSystemRegister? && !i.read && r in XFP(i.t)
    requires SystemRegister(i.op0, i.op1, i.crn, i.crm, i.op2).Some?
    ensures SystemNeeded(i, r)
  {
    var s, t, q := Idle(), Altered(Idle(), r), FieldOf(KnownRegister(i));
    AlteredDiffers(s, r);
    AccessMeanings.WholeMask(Zeros(64), 64);
    assert RX(s, i.t, 64) == Zeros(64) && RX(t, i.t, 64) == Ones(64);
    PutShown(s, KnownRegister(i), Zeros(64), Ones(64));
    PutSame(s, t, KnownRegister(i));
    OutputShown(i, r, s, t, q);
  }

  lemma PutSame(s: State, t: State, r: SysReg)
    ensures Read(SystemPut(t, r, Ones(64)), FieldOf(r)) == Read(SystemPut(s, r, Ones(64)), FieldOf(r))
  {
  }

  lemma GetShown(s: State, r: SysReg, q: Reg)
    requires q in SystemFP(r)
    ensures SystemGet(s, r) != SystemGet(Altered(s, q), r)
  {
    match r
    case SysNzcv => NzcvShown(s, q);
    case SysDaif => DaifShown(s, q);
    case SysTpidr => assert SystemGet(s, r)[0] != SystemGet(Altered(s, q), r)[0];
  }

  lemma NzcvShown(s: State, q: Reg)
    requires q in NZCV_FULL
    ensures SystemGet(s, SysNzcv) != SystemGet(Altered(s, q), SysNzcv)
  {
    var v, w := SystemGet(s, SysNzcv), SystemGet(Altered(s, q), SysNzcv);
    var k := if q == FlagN then 31 else if q == FlagZ then 30 else if q == FlagC then 29
             else if q == FlagV then 28 else 0;
    assert v[k] != w[k];
  }

  lemma DaifShown(s: State, q: Reg)
    requires q in DAIF_FULL
    ensures SystemGet(s, SysDaif) != SystemGet(Altered(s, q), SysDaif)
  {
    var v, w := SystemGet(s, SysDaif), SystemGet(Altered(s, q), SysDaif);
    var k := if q == MaskD then 9 else if q == MaskA then 8 else if q == MaskI then 7 else if q == MaskF then 6 else 0;
    assert v[k] != w[k];
  }

  lemma MoveFromSystemNeeded(i: SystemOp, r: Reg)
    requires i.MoveSystemRegister? && i.read && i.t != 31
    requires SystemRegister(i.op0, i.op1, i.crn, i.crm, i.op2).Some? && r in SystemFP(KnownRegister(i))
    ensures SystemNeeded(i, r)
  {
    var s, t := Idle(), Altered(Idle(), r);
    AlteredDiffers(s, r);
    GetShown(s, KnownRegister(i), r);
    AccessMeanings.WholeWord(SystemGet(s, KnownRegister(i)));
    AccessMeanings.WholeWord(SystemGet(t, KnownRegister(i)));
    OutputShown(i, r, s, t, R(i.t));
  }

  // what makes no difference

  lemma UnreadSystem(c: Config, i: SystemOp, r: Reg, s: State, t: State)
    requires WellFormedSystem(i) && DiffersOnly(s, t, r) && r !in SystemReads(i) && !SystemKept(i, r)
    ensures Matching(ExecSystem(c, i, s), ExecSystem(c, i, t), SystemWrites(i))
  {
    var F := SystemReads(i) + (SystemWrites(i) - {r});
    AgreeExcept(s, t, r, F);
    SystemMatching(c, i, s, t, F);
    OutputWritten(i, r, s);
    MatchingMonotone(ExecSystem(c, i, s), ExecSystem(c, i, t), F + SystemWritten(i, s), SystemWrites(i));
  }

  lemma OutputWritten(i: SystemOp, r: Reg, s: State)
    requires r !in SystemReads(i) && !SystemKept(i, r)
    ensures r in SystemWrites(i) ==> r in SystemWritten(i, s)
  {
  }

  lemma IdleSystem(c: Config, i: SystemOp, r: Reg, s: State, t: State)
    requires WellFormedSystem(i) && DiffersOnly(s, t, r) && r in SystemReads(i) && SystemIdle(i, r)
    ensures Matching(ExecSystem(c, i, s), ExecSystem(c, i, t), SystemWrites(i))
  {
    if i.MoveSystemImmediate? { NamedMask(c, i, r, s, t); }
  }

  lemma NamedMask(c: Config, i: SystemOp, r: Reg, s: State, t: State)
    requires WellFormedSystem(i) && i.MoveSystemImmediate? && i.field != FieldSp && DiffersOnly(s, t, r)
    requires r in DAIF_FP && SystemIdle(i, r)
    ensures Matching(ExecSystem(c, i, s), ExecSystem(c, i, t), DAIF_FP)
  {
    forall q | q in DAIF_FP ensures Read(ExecSystem(c, i, s).state, q) == Read(ExecSystem(c, i, t).state, q) {
      MaskAfter(c, i, s, q);
      MaskAfter(c, i, t, q);
    }
  }

  /** A mask the operand names takes the value of the instruction, another keeps its own. */
  lemma MaskAfter(c: Config, i: SystemOp, s: State, q: Reg)
    requires WellFormedSystem(i) && i.MoveSystemImmediate? && i.field != FieldSp && q in DAIF_FP
    ensures Read(ExecSystem(c, i, s).state, q)
         == if SystemIdle(i, q) then [i.field == FieldDaifSet] else Read(s, q)
  {
  }

  /** For every register and flag: a system instruction depends on it exactly when it is announced as an input and not
      idle, or is an announced output that may keep its old value. */
  lemma SystemInputsExact(i: SystemOp, r: Reg)
    requires WellFormedSystem(i)
    ensures SystemNeeded(i, r) <==> (r in SystemReads(i) && !SystemIdle(i, r)) || SystemKept(i, r)
  {
    if SystemKept(i, r) {
      if i.TMTest? { ReservedKeptNeeded(); } else { StatusKeptNeeded(i, r); }
    } else if r !in SystemReads(i) || SystemIdle(i, r) {
      forall c: Config, s: State, t: State | DiffersOnly(s, t, r) ensures !SystemShown(c, i, r, s, t) {
        if r !in SystemReads(i) { UnreadSystem(c, i, r, s, t); } else { IdleSystem(c, i, r, s, t); }
      }
    } else {
      SystemBusy(i, r);
    }
  }

  lemma SystemBusy(i: SystemOp, r: Reg)
    requires WellFormedSystem(i) && r in SystemReads(i) && !SystemIdle(i, r)
    ensures SystemNeeded(i, r)
  {
    if i.TMStart? { StartNeeded(i, r); }
    else if i.MoveSystemImmediate? { MaskNeeded(i, r); }
    else if i.MoveSystemRegister? {
      if i.read { MoveFromSystemNeeded(i, r); } else { MoveToSystemNeeded(i, r); }
    }
    else { NestingNeeded(i); }
  }
}
