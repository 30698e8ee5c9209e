/** The announced inputs of data-processing instructions are exactly those their outputs can depend on, apart from the
    cases listed here. */
module NeededData {
  import opened Ints
  import opened CommonLib
  import opened Instructions
  import opened Semantics
  import opened Footprint
  import opened FootprintNeeded
  import opened NeededSums
  import opened NeededValues
  import opened NeededBits
  import opened NeededLogic
  import opened NeededProducts

  /** An announced input that makes no difference: the stack selection; any input of an instruction that writes
      nothing; the one register of x - x, of a compare of x with itself and of a word's checksum of itself; operands
      that the zero register hides, and the zero register's shift; a choice between two equal values, and the second
      choice when the condition always holds; factors whose product has no upper half; a sign that is always one. */
  predicate DataIdle(i: DataOp, r: Reg) {
    r == SpSel || DataWrites(i) == {}
    || match i
       case AddSubCarry(_, n, m, _, sub, _) => sub && n == m && r in XFP(n)
       case ConditionalCompareRegister(n, m, _, sub, _, _) => sub && n == m && r in XFP(n)
       case ConditionalSelect(_, n, m, _, condition, _, _) =>
         (r in NZCV_FP && SameChoice(i)) || (condition >= 14 && r in XFP(m) && n != m)
       case LogicalShiftedRegister(d, n, m, _, _, op, _, _, _) =>
         if n == m then d == 31 && SignFixed(i) else Hidden(i) || (n == 31 && op == AndOp)
       case Division(_, n, m, _, _) => n == 31 || m == 31
       case Shift(_, n, _, _, _) => n == 31
       case CRC(_, n, m, size, _) => n == m && size == 32
       case MultiplyAddSub(_, n, m, a, _, _, _) => (n == 31 || m == 31) && r !in XFP(a)
       case MultiplyAddSubLong(_, n, m, a, _, _, _, _) => (n == 31 || m == 31) && r !in XFP(a)
       case MultiplyHigh(_, _, _, _, _, _, _) => !ReachesHigh(i)
       case _ => false
  }

  /** For every register and flag: it is announced as an input and not idle exactly when some instruction of the form,
      in two states that differ in it alone, leaves different results. */
  lemma DataInputsExact(i: DataOp, r: Reg)
    requires WellFormedData(i)
    ensures DataNeeded(i, r) <==> r in DataReads(i) && !DataIdle(i, r)
  {
    if r !in DataReads(i) {
      UnreadUnneeded(i, r);
    } else if DataIdle(i, r) {
      IdleUnneeded(i, r);
    } else {
      BusyNeeded(i, r);
    }
  }

  lemma IdleUnneeded(i: DataOp, r: Reg)
    requires WellFormedData(i) && DataIdle(i, r) && r in DataReads(i)
    ensures !DataNeeded(i, r)
  {
    if DataWrites(i) == {} {
      UnwrittenUnneeded(i, r);
    } else {
      IdleIndifferent(i, r);
      IndifferentUnneeded(i, r);
    }
  }

  lemma IdleIndifferent(i: DataOp, r: Reg)
    requires WellFormedData(i) && DataIdle(i, r) && DataWrites(i) != {} && r in DataReads(i)
    ensures DataIndifferent(i, r)
  {
    if r == SpSel { SelectionIndifferent(i); }
    else if i.AddSubCarry? { CarryIndifferent(i); }
    else if i.ConditionalCompareRegister? { CompareIndifferent(i); }
    else if i.ConditionalSelect? { SelectIdle(i, r); }
    else if i.LogicalShiftedRegister? { LogicIdle(i, r); }
    else if i.Division? { DivisionIndifferent(i, r); }
    else if i.Shift? { ShiftAmountIndifferent(i, r); }
    else if i.CRC? { CrcIndifferent(i, r); }
    else if i.MultiplyAddSub? || i.MultiplyAddSubLong? { MultiplyIndifferent(i, r); }
    else { HighIndifferent(i, r); }
  }

  lemma SelectIdle(i: DataOp, r: Reg)
    requires WellFormedData(i) && i.ConditionalSelect? && r != SpSel && DataIdle(i, r) && DataWrites(i) != {}
    ensures DataIndifferent(i, r)
  {
    if r in NZCV_FP && SameChoice(i) { SelectFlagIndifferent(i, r); } else { SelectSecondIndifferent(i, r); }
  }

  lemma LogicIdle(i: DataOp, r: Reg)
    requires WellFormedData(i) && i.LogicalShiftedRegister? && r != SpSel && DataIdle(i, r) && DataWrites(i) != {}
    ensures DataIndifferent(i, r)
  {
    if i.n == i.m { FixedIndifferent(i, r); }
    else if Hidden(i) { HiddenIndifferent(i, r); }
    else { ZeroAndIndifferent(i, r); }
  }

  lemma BusyNeeded(i: DataOp, r: Reg)
    requires WellFormedData(i) && r in DataReads(i) && !DataIdle(i, r)
    ensures DataNeeded(i, r)
  {
    if i.AddSubImmediate? || i.AddSubExtendRegister? || i.AddSubShiftedRegister? || i.AddSubCarry? {
      SumBusy(i, r);
    } else if i.ConditionalCompareImmediate? || i.ConditionalCompareRegister? || i.ConditionalSelect? {
      ConditionBusy(i, r);
    } else if i.LogicalImmediate? || i.LogicalShiftedRegister? {
      LogicBusy(i, r);
    } else if i.Division? || i.MultiplyAddSub? || i.MultiplyAddSubLong? || i.MultiplyHigh? {
      ProductBusy(i, r);
    } else if i.Shift? || i.CRC? {
      BitsBusy(i, r);
    } else {
      MoveBusy(i, r);
    }
  }

  lemma SumBusy(i: DataOp, r: Reg)
    requires WellFormedData(i) && r in DataReads(i) && !DataIdle(i, r)
    requires i.AddSubImmediate? || i.AddSubExtendRegister? || i.AddSubShiftedRegister? || i.AddSubCarry?
    ensures DataNeeded(i, r)
  {
    if i.AddSubImmediate? { AddSubImmediateNeeded(i, r); }
    else if i.AddSubExtendRegister? { AddSubExtendRegisterNeeded(i, r); }
    else if i.AddSubShiftedRegister? { AddSubShiftedRegisterNeeded(i, r); }
    else if r == FlagC { CarryFlagNeeded(i); }
    else { AddSubCarryNeeded(i, r); }
  }

  lemma ConditionBusy(i: DataOp, r: Reg)
    requires WellFormedData(i) && r in DataReads(i) && !DataIdle(i, r)
    requires i.ConditionalCompareImmediate? || i.ConditionalCompareRegister? || i.ConditionalSelect?
    ensures DataNeeded(i, r)
  {
    if i.ConditionalCompareImmediate? {
      if r in XFP(i.n) { CompareImmediateNeeded(i, r); } else { CompareImmediateFlagNeeded(i, r); }
    } else if i.ConditionalCompareRegister? {
      if r in XFP(i.n) + XFP(i.m) { CompareRegisterNeeded(i, r); } else { CompareRegisterFlagNeeded(i, r); }
    } else {
      SelectBusy(i, r);
    }
  }

  lemma SelectBusy(i: DataOp, r: Reg)
    requires WellFormedData(i) && r in DataReads(i) && !DataIdle(i, r) && i.ConditionalSelect?
    ensures DataNeeded(i, r)
  {
    if r in XFP(i.n) { SelectFirstNeeded(i, r); }
    else if r in XFP(i.m) { SelectSecondNeeded(i, r); }
    else { ConditionFlags(i.condition); SelectFlagNeeded(i, r); }
  }

  lemma ConditionFlags(cond: Cond)
    ensures ConditionFP(cond) <= NZCV_FP
  {
  }

  lemma LogicBusy(i: DataOp, r: Reg)
    requires WellFormedData(i) && r in DataReads(i) && !DataIdle(i, r)
    requires i.LogicalImmediate? || i.LogicalShiftedRegister?
    ensures DataNeeded(i, r)
  {
    if i.LogicalImmediate? { LogicalImmediateNeeded(i, r); }
    else if i.n == i.m { LogicalSelfNeeded(i, r); }
    else if r in XFP(i.n) { LogicalFirstNeeded(i, r); }
    else { LogicalSecondNeeded(i, r); }
  }

  lemma ProductBusy(i: DataOp, r: Reg)
    requires WellFormedData(i) && r in DataReads(i) && !DataIdle(i, r)
    requires i.Division? || i.MultiplyAddSub? || i.MultiplyAddSubLong? || i.MultiplyHigh?
    ensures DataNeeded(i, r)
  {
    if i.Division? { DivisionNeeded(i, r); }
    else if i.MultiplyHigh? { MultiplyHighNeeded(i, r); }
    else { MultiplyNeeded(i, r); }
  }

  lemma BitsBusy(i: DataOp, r: Reg)
    requires WellFormedData(i) && r in DataReads(i) && !DataIdle(i, r) && (i.Shift? || i.CRC?)
    ensures DataNeeded(i, r)
  {
    if i.Shift? {
      if r in XFP(i.n) { ShiftSourceNeeded(i, r); } else { ShiftAmountNeeded(i, r); }
    } else if i.n == i.m {
      if i.size < 32 { CrcAccumulatorNeeded(i, r); } else { CrcValueNeeded(i, r); }
    } else if r in XFP(i.n) {
      CrcAccumulatorNeeded(i, r);
    } else {
      CrcValueNeeded(i, r);
    }
  }

  lemma MoveBusy(i: DataOp, r: Reg)
    requires WellFormedData(i) && r in DataReads(i) && !DataIdle(i, r)
    requires i.BitfieldMove? || i.ExtractRegister? || i.MoveWide? || i.Address? || i.Reverse? || i.CountLeading?
    ensures DataNeeded(i, r)
  {
    if i.BitfieldMove? {
      if r in XFP(i.n) { BitfieldSourceNeeded(i, r); } else { BitfieldTargetNeeded(i, r); }
    } else if i.ExtractRegister? { ExtractNeeded(i, r); }
    else if i.MoveWide? { MoveWideNeeded(i, r); }
    else if i.Address? { AddressNeeded(i); }
    else if i.Reverse? { ReverseNeeded(i, r); }
    else { CountNeeded(i, r); }
  }
}
