/** What decides where control goes and what the system instructions show, said of flags, numbers and bit positions
    (aarch64_small/armV8_common_lib.sail, aarch64_small/armV8.sail). */
module ControlMeanings {
  import opened Wrappers
  import opened Ints
  import opened BitVectors
  import opened CommonLib
  import opened A64Lib
  import opened Ram
  import opened Instructions
  import opened Semantics
  import opened AccessMeanings

  // ----- conditions -----

  /** The sixteen conditions, each on the flags it looks at. */
  predicate Flagged(cond: Cond, f: Flags) {
    match cond
    case 0 => f.z                     // EQ
    case 1 => !f.z                    // NE
    case 2 => f.c                     // HS
    case 3 => !f.c                    // LO
    case 4 => f.n                     // MI
    case 5 => !f.n                    // PL
    case 6 => f.v                     // VS
    case 7 => !f.v                    // VC
    case 8 => f.c && !f.z             // HI
    case 9 => !f.c || f.z             // LS
    case 10 => f.n == f.v             // GE
    case 11 => f.n != f.v             // LT
    case 12 => f.n == f.v && !f.z     // GT
    case 13 => f.n != f.v || f.z      // LE
    case _ => true                    // AL, NV
  }

  /** What the conditions say of every combination of flags, also of those no comparison leaves. */
  lemma ConditionTable(cond: Cond, f: Flags)
    ensures ConditionHolds(cond, f) <==> Flagged(cond, f)
    ensures cond < 14 ==>
              (ConditionHolds(cond, f) <==> !ConditionHolds(if cond % 2 == 0 then cond + 1 else cond - 1, f))
  {
    var half := cond / 2;
    assert cond == 2 * half || cond == 2 * half + 1;
  }

  /** What each condition says of a number that a logical instruction has left. */
  predicate ComparesZero(cond: Cond, v: int) {
    match cond
    case 0 => v == 0
    case 1 => v != 0
    case 4 => v < 0
    case 5 => v >= 0
    case 10 => v >= 0
    case 11 => v < 0
    case 12 => v > 0
    case 13 => v <= 0
    case _ => cond !in {2, 6, 8}
  }

  /** After a logical instruction every condition compares the signed result with zero; carry and overflow are clear. */
  lemma LogicalConditions(r: Bits, cond: Cond)
    requires |r| > 0
    ensures ConditionHolds(cond, LogicalFlags(r)) <==> ComparesZero(cond, SInt(r))
  {
    ConditionTable(cond, LogicalFlags(r));
    IsZeroValue(r);
    SIntRange(r);
    UIntRange(r);
  }

  // ----- branches -----

  /** Whether a branch is taken, from the number of its register or from the flags. */
  predicate Decides(i: BranchOp, s: State)
    requires WellFormedBranch(i)
  {
    match i
    case CompareAndBranch(t, N, iszero, _) => (RegisterNumber(s, t, N) == 0) == iszero
    case BranchConditional(_, condition) => Flagged(condition, s.flags)
    case TestBitAndBranch(t, N, bitPos, bitVal, _) => (RegisterNumber(s, t, N) / Pow2(bitPos) % 2 == 1) == bitVal
    case BranchImmediate(_, _) => true
    case BranchRegister(_, _) => true
  }

  /** The number of the address a branch asks for. */
  function Destination(i: BranchOp, s: State): int {
    match i
    case CompareAndBranch(_, _, _, offset) => Wrap(UInt(s.pc) + UInt(offset))
    case BranchConditional(offset, _) => Wrap(UInt(s.pc) + UInt(offset))
    case TestBitAndBranch(_, _, _, _, offset) => Wrap(UInt(s.pc) + UInt(offset))
    case BranchImmediate(_, offset) => Wrap(UInt(s.pc) + UInt(offset))
    case BranchRegister(n, _) => if n == 31 then 0 else UInt(s.x[n])
  }

  predicate Calls(i: BranchOp) { (i.BranchImmediate? || i.BranchRegister?) && i.branchType == Call }

  lemma DecidesTaken(i: BranchOp, s: State)
    requires WellFormedBranch(i)
    ensures Taken(i, s) <==> Decides(i, s)
  {
    match i
    case CompareAndBranch(t, N, _, _) =>
      RXNumber(s, t, N);
      IsZeroValue(RX(s, t, N));
    case BranchConditional(_, condition) => ConditionTable(condition, s.flags);
    case TestBitAndBranch(t, N, bitPos, _, _) =>
      RXNumber(s, t, N);
      UIntBit(RX(s, t, N), bitPos);
      BitShr(RegisterNumber(s, t, N), bitPos, 0);
    case BranchImmediate(_, _) =>
    case BranchRegister(_, _) =>
  }

  lemma DestinationIs(i: BranchOp, s: State)
    ensures UInt(Target(i, s)) == Destination(i, s)
  {
    if i.BranchRegister? { IndexNumber(s, i.n); } else { PlusNumber(s.pc, i.offset); }
  }

  /** A branch that is not taken changes nothing; one that is goes to its destination, apart from the tag byte, and a
      call leaves the address after itself in the link register. */
  lemma BranchMeaning(c: Config, i: BranchOp, s: State)
    requires WellFormedBranch(i)
    ensures var s' := ExecBranch(c, i, s).state;
            && (!Decides(i, s) ==> s' == s)
            && (Decides(i, s) ==> exists a: Word :: UInt(a) == Destination(i, s) && s'.pc == StripTag(c, a))
            && (Calls(i) ==> UInt(s'.x[30]) == Wrap(UInt(s.pc) + 4))
            && s' == s.(pc := s'.pc, x := if Calls(i) then s.x[30 := s'.x[30]] else s.x)
  {
    DecidesTaken(i, s);
    DestinationIs(i, s);
    LinkedNumber(i, s, BranchLink(i, s));
  }

  lemma LinkedNumber(i: BranchOp, s: State, s1: State)
    requires s1 == BranchLink(i, s)
    ensures Calls(i) ==> UInt(s1.x[30]) == Wrap(UInt(s.pc) + 4)
    ensures s1 == s.(x := if Calls(i) then s.x[30 := s1.x[30]] else s.x)
  {
    if Calls(i) { LinkNumber(s, ToBits(64, 4)); }
  }

  lemma LinkNumber(s: State, four: Word)
    requires four == ToBits(64, 4)
    ensures UInt(Plus(s.pc, four)) == Wrap(UInt(s.pc) + 4) && ZeroExtend(Plus(s.pc, four), 64) == Plus(s.pc, four)
  {
    Four(four);
    PlusNumber(s.pc, four);
    WholeWord(Plus(s.pc, four));
  }

  lemma Four(four: Word)
    requires four == ToBits(64, 4)
    ensures UInt(four) == 4
  {
    WordIsPow2();
    SmallNumber(64, 4);
  }

  // ----- status registers -----

  /** A value shows N, Z, C and V at bits 31 to 28, the reserved bits below and zeros above. */
  predicate ShowsNzcv(s: State, v: Word) {
    && v[31] == s.flags.n && v[30] == s.flags.z && v[29] == s.flags.c && v[28] == s.flags.v
    && v[..28] == s.nzcvRest && v[32..] == Zeros(32)
  }

  /** A value shows D, A, I and F at bits 9 to 6, the reserved bits around them and zeros above. */
  predicate ShowsDaif(s: State, v: Word) {
    && v[9] == s.daif.d && v[8] == s.daif.a && v[7] == s.daif.i && v[6] == s.daif.f
    && v[..6] == s.daifRest[..6] && v[10..32] == s.daifRest[6..] && v[32..] == Zeros(32)
  }

  predicate ShowsSystem(s: State, op2: nat, crn: nat, v: Word) {
    if crn == 13 then v == s.tpidr else if op2 == 0 then ShowsNzcv(s, v) else ShowsDaif(s, v)
  }

  /** The encodings of the three system registers: NZCV, DAIF and the thread register. */
  predicate KnownSystem(i: SystemOp)
    requires i.MoveSystemRegister?
  {
    i.op0 == 3 && i.op1 == 3
    && ((i.crn == 4 && i.crm == 2 && (i.op2 == 0 || i.op2 == 1)) || (i.crn == 13 && i.crm == 0 && i.op2 == 2))
  }

  /** MRS shows the register in its layout, MSR takes it apart in the same layout, keeping 32 bits of NZCV and DAIF;
      for other encodings the instruction leaves the model. */
  lemma SystemMoveMeaning(c: Config, i: SystemOp, s: State)
    requires i.MoveSystemRegister?
    ensures ExecSystem(c, i, s).Done? <==> KnownSystem(i)
    ensures KnownSystem(i) && i.read && i.t != 31 ==>
              ShowsSystem(s, i.op2, i.crn, ExecSystem(c, i, s).state.x[i.t])
    ensures KnownSystem(i) && !i.read ==>
              ShowsSystem(ExecSystem(c, i, s).state, i.op2, i.crn, SystemValue(i, RX(s, i.t, 64)))
  {
    if KnownSystem(i) {
      StatusShown(s);
      if i.read {
        WholeWord(SystemGet(s, SystemRegister(i.op0, i.op1, i.crn, i.crm, i.op2).value));
      } else {
        StatusTaken(s, RX(s, i.t, 64));
      }
    }
  }

  function SystemValue(i: SystemOp, v: Word): Word
    requires i.MoveSystemRegister?
  {
    if i.crn == 13 then v else v[..32] + Zeros(32)
  }

  lemma StatusShown(s: State)
    ensures ShowsNzcv(s, SystemGet(s, SysNzcv)) && ShowsDaif(s, SystemGet(s, SysDaif))
  {
    var v := SystemGet(s, SysDaif);
    assert v[..6] == s.daifRest[..6];
    assert v[10..32] == s.daifRest[6..];
    assert v[32..] == Zeros(32);
  }

  lemma StatusTaken(s: State, v: Word)
    ensures ShowsNzcv(SystemPut(s, SysNzcv, v), v[..32] + Zeros(32))
    ensures ShowsDaif(SystemPut(s, SysDaif, v), v[..32] + Zeros(32))
  {
    var w, rest := v[..32] + Zeros(32), v[..6] + v[10..32];
    assert w[..28] == v[..28] && w[..6] == v[..6] && w[10..32] == v[10..32];
    assert rest[..6] == v[..6] && rest[6..] == v[10..32];
  }

  /** The masks after DAIFSet and DAIFClr, and the stack selection after SPSel: bits 3 to 0 of the operand stand for D,
      A, I and F, bit 0 for the selection. */
  predicate MaskIs(before: bool, on: bool, named: bool, after: bool) { after == if named then on else before }

  lemma ImmediateMeaning(c: Config, i: SystemOp, s: State)
    requires i.MoveSystemImmediate? && WellFormedSystem(i)
    ensures var (s', b, on) := (ExecSystem(c, i, s).state, i.operand, i.field == FieldDaifSet);
            if i.field == FieldSp then s' == s.(spSel := b[0])
            else
              && s' == s.(daif := s'.daif)
              && MaskIs(s.daif.d, on, b[3], s'.daif.d) && MaskIs(s.daif.a, on, b[2], s'.daif.a)
              && MaskIs(s.daif.i, on, b[1], s'.daif.i) && MaskIs(s.daif.f, on, b[0], s'.daif.f)
  {
  }

  // ----- transactions -----

  /** TTEST: EQ holds afterwards exactly outside a transaction, and no other flag is set. */
  lemma TransactionTest(c: Config, s: State)
    ensures var s' := ExecSystem(c, TMTest, s).state;
            && s' == s.(flags := s'.flags)
            && (ConditionHolds(0, s'.flags) <==> UInt(s.txNesting) == 0)
            && !s'.flags.n && !s'.flags.c && !s'.flags.v
  {
  }

  /** TABORT does nothing outside a transaction; inside one it reports its reason, the retry bit 8 and bit 9. */
  lemma TransactionAbort(c: Config, i: SystemOp, s: State)
    requires i.TMAbort? && WellFormedSystem(i)
    ensures var o := ExecSystem(c, i, s);
            && o.Done? && o.state == s
            && (if UInt(s.txNesting) == 0 then o.events == []
                else |o.events| == 1 && o.events[0].TxAborted?
                     && UInt(o.events[0].status) == UInt(i.reason) + (if i.retry then 256 else 0) + 512)
  {
    AbortNumber(i.retry, i.reason);
  }

  lemma AbortNumber(retry: bool, reason: Bits)
    requires |reason| == 5
    ensures UInt(AbortStatus(retry, reason)) == UInt(reason) + (if retry then 256 else 0) + 512
  {
    var low, high := reason + Zeros(3), [retry, true] + Zeros(54);
    PaddedNumber(reason, 3);
    PaddedNumber([retry, true], 54);
    TwoBits(retry);
    AboveByte(low, high);
    assert AbortStatus(retry, reason) == low + high;
  }

  lemma AboveByte(low: Bits, high: Bits)
    requires |low| == 8
    ensures UInt(low + high) == UInt(low) + 256 * UInt(high)
  {
    assert Pow2(8) == 256;
    UIntAppend(low, high);
  }

  lemma PaddedNumber(x: Bits, k: nat)
    ensures UInt(x + Zeros(k)) == UInt(x)
  {
    UIntZeroExtend(x, |x| + k);
  }

  lemma TwoBits(retry: bool)
    ensures UInt([retry, true]) == BoolInt(retry) + 2
  {
    assert [retry, true][1..] == [true] && [true][1..] == [];
  }

  /** TCOMMIT ends one level and reports the end of the outermost one; outside a transaction it is undefined. */
  lemma TransactionCommit(s: State)
    ensures var o := ExecTMCommit(s);
            && (o.Done? <==> UInt(s.txNesting) > 0)
            && (o.Done? ==>
                  && o.state == s.(txNesting := o.state.txNesting)
                  && UInt(o.state.txNesting) == UInt(s.txNesting) - 1
                  && (o.events == if UInt(s.txNesting) == 1 then [TxCommitted] else []))
  {
    UIntRange(s.txNesting);
    if UInt(s.txNesting) > 0 {
      UIntToBits(8, UInt(s.txNesting) - 1);
      SmallMod(UInt(s.txNesting) - 1, Pow2(8));
    }
  }

  // ----- barriers and hints -----

  /** One barrier event, of the instruction's own operation and accesses. */
  predicate ReportsBarrier(i: SystemOp, events: seq<Event>)
    requires i.Barrier?
  {
    && |events| == 1 && events[0].BarrierEvent?
    && (events[0].barrier.BarrierIsb? <==> i.op == ISB)
    && (events[0].barrier.BarrierDmb? <==> i.op == DMB)
    && (i.op != ISB ==> events[0].barrier.types == i.types)
  }

  /** Barriers, hints and CLREX change nothing. A barrier that is made reports its own operation and accesses: ISB
      always, DSB for the full system, DMB for the full system or the inner shareable domain. */
  lemma BarrierMeaning(c: Config, i: SystemOp, s: State)
    requires i.Barrier? || i.Hint? || i.ClearExclusiveMonitor?
    requires WellFormedSystem(i)
    ensures var o := ExecSystem(c, i, s);
            && (i.Barrier? ==>
                  (o.Done? <==> i.op == ISB || i.domain == FullSystem || (i.op == DMB && i.domain == InnerShareable)))
            && (i.Hint? ==> (o.Done? <==> i.hint == HintNop || i.hint == HintYield || i.hint == HintSev))
            && (i.ClearExclusiveMonitor? ==> o.Done?)
            && (o.Done? ==> o.state == s && (!i.Barrier? ==> o.events == []))
            && (o.Done? && i.Barrier? ==> ReportsBarrier(i, o.events))
  {
  }
}
