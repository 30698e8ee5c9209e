/** The other half of the analysis: an announced input is one the outputs can depend on
    (aarch64_small/aarch64_regfp.sail against aarch64_small/armV8.sail). This module says what that means for data
    processing and has the states the proofs try. */
module FootprintNeeded {
  import opened Ints
  import opened BitVectors
  import opened CommonLib
  import A64Lib
  import opened Rts
  import opened Ram
  import opened Instructions
  import opened Semantics
  import opened Footprint
  import opened Agreement
  import FootprintData

  // ----- needed inputs -----

  /** Two states that can be told apart by register r alone. */
  ghost predicate DiffersOnly(s: State, t: State, r: Reg) {
    && s.mem == t.mem
    && Read(s, r) != Read(t, r)
    && forall q :: q != r ==> Read(s, q) == Read(t, q)
  }

  lemma AgreeExcept(s: State, t: State, r: Reg, F: set<Reg>)
    requires DiffersOnly(s, t, r) && r !in F
    ensures Agree(s, t, F)
  {
  }

  /** The same registers, widths, operation and condition; immediates, positions and flags given otherwise may be
      others. A bitfield move has the masks of its field, a logical immediate is neither all zeros nor all ones. */
  predicate SameForm(i: DataOp, j: DataOp)
    requires WellFormedData(i) && WellFormedData(j)
  {
    match i
    case AddSubImmediate(d, n, N, sub, setflags, _) =>
      j.AddSubImmediate? && j == AddSubImmediate(d, n, N, sub, setflags, j.imm)
    case BitfieldMove(d, n, N, inzero, extend, _, _, _) =>
      j.BitfieldMove? && j == BitfieldMove(d, n, N, inzero, extend, j.R, j.S, A64Lib.FieldMasks(N, j.R, j.S))
    case ExtractRegister(d, n, m, N, _) => j.ExtractRegister? && j == ExtractRegister(d, n, m, N, j.lsb)
    case LogicalImmediate(d, n, N, setflags, op, _) =>
      j.LogicalImmediate? && j == LogicalImmediate(d, n, N, setflags, op, j.imm)
      && j.imm != Zeros(N) && j.imm != Ones(N)
    case LogicalShiftedRegister(d, n, m, N, setflags, op, stype, _, invert) =>
      j.LogicalShiftedRegister? && j.amount < N
      && j == LogicalShiftedRegister(d, n, m, N, setflags, op, stype, j.amount, invert)
    case MoveWide(d, N, _, _, opcode) => j.MoveWide? && j.pos % 16 == 0 && j == MoveWide(d, N, j.imm, j.pos, opcode)
    case Address(d, page, _) => j.Address? && j == Address(d, page, j.offset)
    case AddSubExtendRegister(d, n, m, N, sub, setflags, etype, _) =>
      j.AddSubExtendRegister? && j == AddSubExtendRegister(d, n, m, N, sub, setflags, etype, j.shift)
    case AddSubShiftedRegister(d, n, m, N, sub, setflags, stype, _) =>
      j.AddSubShiftedRegister? && j.amount < N
      && j == AddSubShiftedRegister(d, n, m, N, sub, setflags, stype, j.amount)
    case ConditionalCompareImmediate(n, N, sub, condition, _, _) =>
      j.ConditionalCompareImmediate? && j == ConditionalCompareImmediate(n, N, sub, condition, j.flags, j.imm)
    case ConditionalCompareRegister(n, m, N, sub, condition, _) =>
      j.ConditionalCompareRegister? && j == ConditionalCompareRegister(n, m, N, sub, condition, j.flags)
    case AddSubCarry(_, _, _, _, _, _) => j == i
    case ConditionalSelect(_, _, _, _, _, _, _) => j == i
    case Reverse(_, _, _, _) => j == i
    case CountLeading(_, _, _, _) => j == i
    case Division(_, _, _, _, _) => j == i
    case Shift(_, _, _, _, _) => j == i
    case CRC(_, _, _, _, _) => j == i
    case MultiplyAddSub(_, _, _, _, _, _, _) => j == i
    case MultiplyAddSubLong(_, _, _, _, _, _, _, _) => j == i
    case MultiplyHigh(_, _, _, _, _, _, _) => j == i
  }

  /** Changing register r alone changes an output. */
  ghost predicate DataShown(i: DataOp, r: Reg, s: State, t: State)
    requires WellFormedData(i)
  {
    DiffersOnly(s, t, r) && exists q :: q in DataWrites(i) && Read(After(i, s), q) != Read(After(i, t), q)
  }

  /** Some instruction of this form depends on register r in some state. */
  ghost predicate DataNeeded(i: DataOp, r: Reg)
    requires WellFormedData(i)
  {
    exists j: DataOp, s: State, t: State :: WellFormedData(j) && SameForm(i, j) && DataShown(j, r, s, t)
  }

  lemma DataNeededBy(i: DataOp, j: DataOp, r: Reg, s: State, t: State)
    requires WellFormedData(i) && WellFormedData(j) && SameForm(i, j) && DataShown(j, r, s, t)
    ensures DataNeeded(i, r)
  {
  }

  // ----- what makes no difference -----

  /** Two writes that leave the same in what they write. */
  predicate Alike(w: Write, v: Write) {
    w.d == v.d && w.toSp == v.toSp && w.flags == v.flags && (w.toSp || w.d != 31 ==> w.value == v.value)
  }

  /** For every instruction of this form, states that differ in r alone give the same outputs. */
  ghost predicate DataIndifferent(i: DataOp, r: Reg)
    requires WellFormedData(i)
  {
    forall j: DataOp, s: State, t: State :: WellFormedData(j) && SameForm(i, j) && DiffersOnly(s, t, r)
      ==> Alike(DataWrite(j, s), DataWrite(j, t))
  }

  lemma AlikeShown(s: State, t: State, w: Write, v: Write, q: Reg)
    requires |w.value| <= 64 && |v.value| <= 64 && Alike(w, v) && q in Targets(w)
    ensures Read(Commit(s, w), q) == Read(Commit(t, v), q)
  {
    if w.flags.Some? && q in NZCV_FP {
      FlagsAlike(Commit(s, w), Commit(t, v), q);
    } else {
      assert q == SpEl0 || q.R?;
    }
  }

  lemma FlagsAlike(s: State, t: State, q: Reg)
    requires s.flags == t.flags && q in NZCV_FP
    ensures Read(s, q) == Read(t, q)
  {
  }

  lemma AlikeOutputs(i: DataOp, s: State, t: State, q: Reg)
    requires WellFormedData(i) && Alike(DataWrite(i, s), DataWrite(i, t)) && q in DataWrites(i)
    ensures Read(After(i, s), q) == Read(After(i, t), q)
  {
    FootprintData.WriteTargets(i, s);
    AlikeShown(s, t, DataWrite(i, s), DataWrite(i, t), q);
  }

  lemma IndifferentUnneeded(i: DataOp, r: Reg)
    requires WellFormedData(i) && DataIndifferent(i, r)
    ensures !DataNeeded(i, r)
  {
    forall j: DataOp, s: State, t: State | WellFormedData(j) && SameForm(i, j) && DiffersOnly(s, t, r)
      ensures !DataShown(j, r, s, t)
    {
      forall q | q in DataWrites(j) ensures Read(After(j, s), q) == Read(After(j, t), q) { AlikeOutputs(j, s, t, q); }
    }
  }

  lemma SameDataReads(i: DataOp, j: DataOp)
    requires WellFormedData(i) && WellFormedData(j) && SameForm(i, j)
    ensures DataReads(j) == DataReads(i) && DataWrites(j) == DataWrites(i)
  {
    SameDataWrites(i, j);
    if i.LogicalShiftedRegister? || i.AddSubShiftedRegister? || i.AddSubExtendRegister? {
      SameShiftedReads(i, j);
    }
  }

  lemma SameShiftedReads(i: DataOp, j: DataOp)
    requires WellFormedData(i) && WellFormedData(j) && SameForm(i, j)
    requires i.LogicalShiftedRegister? || i.AddSubShiftedRegister? || i.AddSubExtendRegister?
    ensures DataReads(j) == DataReads(i)
  {
  }

  lemma SameDataWrites(i: DataOp, j: DataOp)
    requires WellFormedData(i) && WellFormedData(j) && SameForm(i, j)
    ensures DataWrites(j) == DataWrites(i)
  {
    SameTarget(i, j);
    SameFlagsSet(i, j);
  }

  predicate CompareOp(i: DataOp) { i.ConditionalCompareImmediate? || i.ConditionalCompareRegister? }

  lemma SameTarget(i: DataOp, j: DataOp)
    requires WellFormedData(i) && WellFormedData(j) && SameForm(i, j)
    ensures CompareOp(j) == CompareOp(i) && WritesSp(j) == WritesSp(i) && (!CompareOp(i) ==> j.d == i.d)
  {
  }

  lemma SameFlagsSet(i: DataOp, j: DataOp)
    requires WellFormedData(i) && WellFormedData(j) && SameForm(i, j)
    ensures SetsFlags(j) == SetsFlags(i)
  {
  }

  /** A register that is not announced as an input is not needed. */
  lemma UnreadUnneeded(i: DataOp, r: Reg)
    requires WellFormedData(i) && r !in DataReads(i)
    ensures !DataNeeded(i, r)
  {
    forall j: DataOp, s: State, t: State | WellFormedData(j) && SameForm(i, j) && DiffersOnly(s, t, r)
      ensures Alike(DataWrite(j, s), DataWrite(j, t))
    {
      SameDataReads(i, j);
      AgreeExcept(s, t, r, DataReads(j));
      FootprintData.WriteDetermined(j, s, t, DataReads(j));
    }
    IndifferentUnneeded(i, r);
  }

  /** Nor is any register when nothing is written. */
  lemma UnwrittenUnneeded(i: DataOp, r: Reg)
    requires WellFormedData(i) && DataWrites(i) == {}
    ensures !DataNeeded(i, r)
  {
    forall j: DataOp, s: State, t: State | WellFormedData(j) && SameForm(i, j) ensures !DataShown(j, r, s, t) {
      SameDataReads(i, j);
    }
  }

  // ----- what shows -----

  /** Two writes to the same place that can be told apart there. */
  predicate Apart(w: Write, v: Write) {
    && w.d == v.d && w.toSp == v.toSp && |w.value| == |v.value| <= 64 && w.flags.Some? == v.flags.Some?
    && (((w.toSp || w.d != 31) && w.value != v.value) || (w.flags.Some? && w.flags != v.flags))
  }

  lemma ApartShows(s: State, t: State, w: Write, v: Write)
    requires Apart(w, v)
    ensures exists q :: q in Targets(w) && Read(Commit(s, w), q) != Read(Commit(t, v), q)
  {
    if (w.toSp || w.d != 31) && w.value != v.value {
      assert ZeroExtend(w.value, 64)[..|w.value|] == w.value && ZeroExtend(v.value, 64)[..|v.value|] == v.value;
      if w.toSp {
        assert Read(Commit(s, w), SpEl0) != Read(Commit(t, v), SpEl0);
      } else {
        assert Read(Commit(s, w), R(w.d)) != Read(Commit(t, v), R(w.d));
      }
    } else {
      FlagsShow(Commit(s, w), Commit(t, v));
    }
  }

  lemma FlagsShow(s: State, t: State)
    requires s.flags != t.flags
    ensures exists q :: q in NZCV_FP && Read(s, q) != Read(t, q)
  {
    if s.flags.n != t.flags.n { assert Read(s, FlagN)[0] != Read(t, FlagN)[0]; }
    else if s.flags.z != t.flags.z { assert Read(s, FlagZ)[0] != Read(t, FlagZ)[0]; }
    else if s.flags.c != t.flags.c { assert Read(s, FlagC)[0] != Read(t, FlagC)[0]; }
    else { assert Read(s, FlagV)[0] != Read(t, FlagV)[0]; }
  }

  /** An instruction of the form that writes differently when r alone differs. */
  lemma ShownNeeded(i: DataOp, j: DataOp, r: Reg, s: State, t: State)
    requires WellFormedData(i) && WellFormedData(j) && SameForm(i, j) && DiffersOnly(s, t, r)
    requires Apart(DataWrite(j, s), DataWrite(j, t))
    ensures DataNeeded(i, r)
  {
    ApartShows(s, t, DataWrite(j, s), DataWrite(j, t));
    FootprintData.WriteTargets(j, s);
    DataNeededBy(i, j, r, s, t);
  }

  // ----- states to try -----

  /** Every general register and the stack pointer hold one word, the PC and everything else are zero. */
  ghost function Uniform(k: Word, f: Flags): State {
    State(seq(31, _ => k), k, Zeros(64), f, Zeros(28), Daif(false, false, false, false), Zeros(28), false, Zeros(64),
          Zeros(8), Zeros(8), ZeroMemory())
  }

  ghost function ZeroMemory(): (m: map<int, Byte>)
    ensures Total(m)
  {
    map a: Address | Anywhere(a) :: 0
  }

  predicate Anywhere(a: Address) { true }

  predicate Placeable(r: Reg) { r.R? || r == SpEl0 || r == Pc }

  /** The same state with one word in register r. */
  function Place(s: State, r: Reg, v: Word): State
    requires Placeable(r)
  {
    if r == SpEl0 then s.(sp := v) else if r == Pc then s.(pc := v) else s.(x := s.x[r.n := v])
  }

  lemma PlaceDiffers(s: State, r: Reg, v: Word, w: Word)
    requires Placeable(r) && v != w
    ensures DiffersOnly(Place(s, r, v), Place(s, r, w), r)
  {
  }

  /** What a source register reads in such a state. */
  function Held(k: Word, r: Reg, v: Word, n: RegIndex): Word {
    if n == 31 then Zeros(64) else if r == R(n) then v else k
  }

  lemma HeldReads(k: Word, f: Flags, r: Reg, v: Word, n: RegIndex, w: nat)
    requires Placeable(r) && w <= 64
    ensures RX(Place(Uniform(k, f), r, v), n, w) == Held(k, r, v, n)[..w]
  {
  }
}
