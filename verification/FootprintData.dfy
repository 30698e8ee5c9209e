/** Footprint soundness of the data-processing instructions. */
module FootprintData {
  import opened Instructions
  import opened Semantics
  import opened Footprint
  import opened Agreement

  /** What is written depends only on the registers the analysis calls read. */
  lemma WriteDetermined(i: DataOp, s: State, t: State, F: set<Reg>)
    requires WellFormedData(i) && Agree(s, t, F) && DataReads(i) <= F
    ensures DataWrite(i, s) == DataWrite(i, t)
  {
    if i.AddSubImmediate? || i.AddSubExtendRegister? || i.AddSubShiftedRegister? || i.AddSubCarry?
      || i.ConditionalCompareImmediate? || i.ConditionalCompareRegister? || i.ConditionalSelect? {
      SumDetermined(i, s, t, F);
    } else {
      ValueDetermined(i, s, t, F);
    }
  }

  lemma SumDetermined(i: DataOp, s: State, t: State, F: set<Reg>)
    requires WellFormedData(i) && Agree(s, t, F) && DataReads(i) <= F
    requires i.AddSubImmediate? || i.AddSubExtendRegister? || i.AddSubShiftedRegister? || i.AddSubCarry?
          || i.ConditionalCompareImmediate? || i.ConditionalCompareRegister? || i.ConditionalSelect?
    ensures DataWrite(i, s) == DataWrite(i, t)
  {
    match i
    case AddSubImmediate(d, n, N, sub, setflags, imm) => AgreeSource(s, t, F, n, N);
    case AddSubExtendRegister(d, n, m, N, sub, setflags, etype, shift) =>
      AgreeSource(s, t, F, n, N);
      AgreeX(s, t, F, m, N);
    case AddSubShiftedRegister(d, n, m, N, sub, setflags, stype, amount) => TwoSources(s, t, F, n, m, N);
    case AddSubCarry(d, n, m, N, sub, setflags) =>
      TwoSources(s, t, F, n, m, N);
      AgreeFlagBits(s, t, F);
    case ConditionalCompareImmediate(n, N, sub, condition, flags, imm) =>
      AgreeX(s, t, F, n, N);
      AgreeCondition(s, t, F, condition);
    case ConditionalCompareRegister(n, m, N, sub, condition, flags) =>
      TwoSources(s, t, F, n, m, N);
      AgreeCondition(s, t, F, condition);
    case ConditionalSelect(d, n, m, N, condition, elseInv, elseInc) =>
      TwoSources(s, t, F, n, m, N);
      AgreeCondition(s, t, F, condition);
  }

  lemma ValueDetermined(i: DataOp, s: State, t: State, F: set<Reg>)
    requires WellFormedData(i) && Agree(s, t, F) && DataReads(i) <= F
    requires !(i.AddSubImmediate? || i.AddSubExtendRegister? || i.AddSubShiftedRegister? || i.AddSubCarry?
          || i.ConditionalCompareImmediate? || i.ConditionalCompareRegister? || i.ConditionalSelect?)
    ensures DataWrite(i, s) == DataWrite(i, t)
  {
    match i
    case BitfieldMove(d, n, N, inzero, extend, R, S, masks) =>
      AgreeX(s, t, F, n, N);
      if !inzero { AgreeX(s, t, F, d, N); }
    case ExtractRegister(d, n, m, N, lsb) => TwoSources(s, t, F, n, m, N);
    case LogicalImmediate(d, n, N, setflags, op, imm) => AgreeX(s, t, F, n, N);
    case LogicalShiftedRegister(d, n, m, N, setflags, op, stype, amount, invert) => TwoSources(s, t, F, n, m, N);
    case MoveWide(d, N, imm, pos, opcode) => if opcode == MoveK { AgreeX(s, t, F, d, N); }
    case Address(d, page, offset) => AgreePc(s, t, F);
    case Reverse(d, n, N, op) => AgreeX(s, t, F, n, N);
    case CountLeading(d, n, N, op) => AgreeX(s, t, F, n, N);
    case Division(d, n, m, N, unsigned) => TwoSources(s, t, F, n, m, N);
    case Shift(d, n, m, N, stype) => TwoSources(s, t, F, n, m, N);
    case CRC(d, n, m, size, crc32c) =>
      AgreeX(s, t, F, n, 32);
      AgreeX(s, t, F, m, size);
    case MultiplyAddSub(d, n, m, a, destsize, N, sub) =>
      TwoSources(s, t, F, n, m, N);
      AgreeX(s, t, F, a, destsize);
    case MultiplyAddSubLong(d, n, m, a, destsize, N, sub, unsigned) =>
      TwoSources(s, t, F, n, m, N);
      AgreeX(s, t, F, a, destsize);
    case MultiplyHigh(d, n, m, a, N, _, unsigned) => TwoSources(s, t, F, n, m, N);
  }

  lemma TwoSources(s: State, t: State, F: set<Reg>, n: RegIndex, m: RegIndex, w: nat)
    requires Agree(s, t, F) && XFP(n) <= F && XFP(m) <= F && w <= 64
    ensures RX(s, n, w) == RX(t, n, w) && RX(s, m, w) == RX(t, m, w)
  {
    AgreeX(s, t, F, n, w);
    AgreeX(s, t, F, m, w);
  }

  /** What is written is exactly what the analysis calls written. */
  lemma WriteTargets(i: DataOp, s: State)
    requires WellFormedData(i)
    ensures Targets(DataWrite(i, s)) == DataWrites(i)
  {
  }

  lemma DataMatching(c: Config, i: DataOp, s: State, t: State, F: set<Reg>)
    requires WellFormedData(i) && Agree(s, t, F) && DataReads(i) <= F
    ensures Matching(Exec(c, Data(i), s), Exec(c, Data(i), t), F + DataWrites(i))
  {
    WriteDetermined(i, s, t, F);
    WriteTargets(i, s);
    CommitAgrees(s, t, F, DataWrite(i, s));
  }

  lemma DataFrame(c: Config, i: DataOp, s: State)
    requires WellFormedData(i)
    ensures Frame(s, Exec(c, Data(i), s), DataWrites(i)) && Exec(c, Data(i), s).state.mem == s.mem
  {
    WriteTargets(i, s);
    CommitOnly(s, DataWrite(i, s));
  }
}
