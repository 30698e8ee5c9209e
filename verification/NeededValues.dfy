/** Which announced inputs the moves, selections, reversals, counts, shifts and checksums need. */
module NeededValues {
  import opened Ints
  import opened BitVectors
  import opened CommonLib
  import opened Shifts
  import opened A64Lib
  import opened Gf2
  import opened SwapNetwork
  import opened Instructions
  import opened Semantics
  import opened Footprint
  import opened FootprintNeeded
  import opened NeededSums

  // ----- one value is written -----

  lemma ValuesApart(d: RegIndex, v: Bits, w: Bits)
    requires d != 31 && |v| == |w| <= 64 && v != w
    ensures Apart(ValueWrite(d, v), ValueWrite(d, w))
  {
  }

  lemma ValueNeeded(i: DataOp, j: DataOp, r: Reg, s: State, t: State, d: RegIndex, v: Bits, w: Bits)
    requires WellFormedData(i) && WellFormedData(j) && SameForm(i, j) && DiffersOnly(s, t, r)
    requires DataWrite(j, s) == ValueWrite(d, v) && DataWrite(j, t) == ValueWrite(d, w)
    requires d != 31 && |v| == |w| <= 64 && v != w
    ensures DataNeeded(i, r)
  {
    ValuesApart(d, v, w);
    ShownNeeded(i, j, r, s, t);
  }

  /** Zero and two are told apart by bit 1 alone. */
  lemma ZeroAndTwo(x1: Bits, x2: Bits)
    requires |x1| == |x2| >= 8 && UInt(x1) == 0 && UInt(x2) == 2
    ensures x1 == Zeros(|x1|) && forall k: nat :: k < |x2| ==> x2[k] == (k == 1)
  {
    IsZeroValue(x1);
    forall k: nat | k < |x2| ensures x2[k] == (k == 1) {
      UIntBit(x2, k);
      TwoBit(k);
    }
  }

  /** Zero and two in the register tried, as source n shows them. */
  lemma TriedBits(f: Flags, r: Reg, n: RegIndex, w: nat, x1: Bits, x2: Bits)
    requires r in XFP(n) && 8 <= w <= 64
    requires x1 == RX(Probe(0, f, r, 0), n, w) && x2 == RX(Probe(0, f, r, 2), n, w)
    ensures |x1| == |x2| == w && x1 == Zeros(w) && forall k: nat :: k < w ==> x2[k] == (k == 1)
  {
    OperandProbed(f, r, n, w, x1, x2);
    ZeroAndTwo(x1, x2);
  }

  // ----- bitfield moves -----

  lemma BitfieldValue(i: DataOp, s: State, dst: Bits, src: Bits)
    requires WellFormedData(i) && i.BitfieldMove? && src == RX(s, i.n, i.datasize)
    requires dst == if i.inzero then Zeros(i.datasize) else RX(s, i.d, i.datasize)
    ensures DataWrite(i, s) == ValueWrite(i.d, MaskedMove(dst, src, i.extend, i.R, i.S, i.masks))
  {
  }

  /** Moving bits N-1..0 to the bottom moves everything. */
  lemma WholeMove(dst: Bits, src: Bits, extend: bool)
    requires |dst| == |src| > 0
    ensures MaskedMove(dst, src, extend, 0, |src| - 1, FieldMasks(|src|, 0, |src| - 1)) == src
  {
    var r := MaskedMove(dst, src, extend, 0, |src| - 1, FieldMasks(|src|, 0, |src| - 1));
    forall k: nat | k < |src| ensures r[k] == src[k] {
      MovedAt(dst, src, extend, 0, |src| - 1, k);
      WholeMoveBit(dst, src, extend, k);
    }
  }

  lemma WholeMoveBit(dst: Bits, src: Bits, extend: bool, k: nat)
    requires |dst| == |src| && k < |src|
    ensures MovedBit(dst, src, extend, 0, |src| - 1, k) == src[k]
  {
  }

  /** Moving bit 0 to the top keeps the bits below. */
  lemma TopMove(dst: Bits, src: Bits, extend: bool)
    requires |dst| == |src| >= 8
    ensures MaskedMove(dst, src, extend, 1, 0, FieldMasks(|src|, 1, 0))[1] == dst[1]
  {
    MaskedMoveMeaning(dst, src, extend, 1, 0);
    assert MovedBit(dst, src, extend, 1, 0, 1) == dst[1];
  }

  lemma BitfieldSourceNeeded(i: DataOp, r: Reg)
    requires WellFormedData(i) && i.BitfieldMove? && i.d != 31 && r in XFP(i.n)
    ensures DataNeeded(i, r)
  {
    var N := i.datasize;
    var j := BitfieldMove(i.d, i.n, N, i.inzero, i.extend, 0, N - 1, FieldMasks(N, 0, N - 1));
    var s, t := Probe(0, CLEAR, r, 0), Probe(0, CLEAR, r, 2);
    ProbesDiffer(0, CLEAR, r, 0, 2);
    TriedBits(CLEAR, r, i.n, N, RX(s, i.n, N), RX(t, i.n, N));
    MovedFrom(i, j, r, s, t, RX(s, i.n, N), RX(t, i.n, N));
  }

  lemma MovedFrom(i: DataOp, j: DataOp, r: Reg, s: State, t: State, x1: Bits, x2: Bits)
    requires WellFormedData(i) && i.BitfieldMove? && i.d != 31 && DiffersOnly(s, t, r)
    requires j == BitfieldMove(i.d, i.n, i.datasize, i.inzero, i.extend, 0, i.datasize - 1,
                               FieldMasks(i.datasize, 0, i.datasize - 1))
    requires x1 == RX(s, i.n, i.datasize) && x2 == RX(t, i.n, i.datasize) && x1[1] != x2[1]
    ensures DataNeeded(i, r)
  {
    var dst1 := if i.inzero then Zeros(i.datasize) else RX(s, i.d, i.datasize);
    var dst2 := if i.inzero then Zeros(i.datasize) else RX(t, i.d, i.datasize);
    BitfieldValue(j, s, dst1, x1);
    BitfieldValue(j, t, dst2, x2);
    WholeMove(dst1, x1, i.extend);
    WholeMove(dst2, x2, i.extend);
    ValueNeeded(i, j, r, s, t, i.d, x1, x2);
  }

  lemma BitfieldTargetNeeded(i: DataOp, r: Reg)
    requires WellFormedData(i) && i.BitfieldMove? && !i.inzero && r in XFP(i.d)
    ensures DataNeeded(i, r)
  {
    var N := i.datasize;
    var j := BitfieldMove(i.d, i.n, N, i.inzero, i.extend, 1, 0, FieldMasks(N, 1, 0));
    var s, t := Probe(0, CLEAR, r, 0), Probe(0, CLEAR, r, 2);
    ProbesDiffer(0, CLEAR, r, 0, 2);
    TriedBits(CLEAR, r, i.d, N, RX(s, i.d, N), RX(t, i.d, N));
    KeptFrom(i, j, r, s, t, RX(s, i.d, N), RX(t, i.d, N), RX(s, i.n, N), RX(t, i.n, N));
  }

  lemma KeptFrom(i: DataOp, j: DataOp, r: Reg, s: State, t: State, dst1: Bits, dst2: Bits, x1: Bits, x2: Bits)
    requires WellFormedData(i) && i.BitfieldMove? && !i.inzero && i.d != 31 && DiffersOnly(s, t, r)
    requires j == BitfieldMove(i.d, i.n, i.datasize, i.inzero, i.extend, 1, 0, FieldMasks(i.datasize, 1, 0))
    requires dst1 == RX(s, i.d, i.datasize) && dst2 == RX(t, i.d, i.datasize) && dst1[1] != dst2[1]
    requires x1 == RX(s, i.n, i.datasize) && x2 == RX(t, i.n, i.datasize)
    ensures DataNeeded(i, r)
  {
    BitfieldValue(j, s, dst1, x1);
    BitfieldValue(j, t, dst2, x2);
    TopMove(dst1, x1, i.extend);
    TopMove(dst2, x2, i.extend);
    ValueNeeded(i, j, r, s, t, i.d, MaskedMove(dst1, x1, i.extend, 1, 0, j.masks),
                MaskedMove(dst2, x2, i.extend, 1, 0, j.masks));
  }

  // ----- extracts -----

  lemma ExtractValue(i: DataOp, s: State, hi: Bits, lo: Bits)
    requires WellFormedData(i) && i.ExtractRegister? && hi == RX(s, i.n, i.datasize) && lo == RX(s, i.m, i.datasize)
    ensures DataWrite(i, s) == ValueWrite(i.d, Concat(hi, lo)[i.lsb..i.lsb + i.datasize])
  {
  }

  lemma ExtractNeeded(i: DataOp, r: Reg)
    requires WellFormedData(i) && i.ExtractRegister? && i.d != 31 && r in XFP(i.n) + XFP(i.m)
    ensures DataNeeded(i, r)
  {
    var N, low := i.datasize, r in XFP(i.m);
    var j := ExtractRegister(i.d, i.n, i.m, N, if low then 0 else 2);
    var s, t := Probe(0, CLEAR, r, 0), Probe(0, CLEAR, r, 2);
    ProbesDiffer(0, CLEAR, r, 0, 2);
    if low {
      TriedBits(CLEAR, r, i.m, N, RX(s, i.m, N), RX(t, i.m, N));
    } else {
      TriedBits(CLEAR, r, i.n, N, RX(s, i.n, N), RX(t, i.n, N));
    }
    ExtractedFrom(i, j, r, s, t, low, RX(s, i.n, N), RX(s, i.m, N), RX(t, i.n, N), RX(t, i.m, N));
  }

  lemma ExtractedFrom(i: DataOp, j: DataOp, r: Reg, s: State, t: State, low: bool, hi1: Bits, lo1: Bits, hi2: Bits,
                      lo2: Bits)
    requires WellFormedData(i) && i.ExtractRegister? && i.d != 31 && DiffersOnly(s, t, r)
    requires j == ExtractRegister(i.d, i.n, i.m, i.datasize, if low then 0 else 2)
    requires hi1 == RX(s, i.n, i.datasize) && lo1 == RX(s, i.m, i.datasize)
    requires hi2 == RX(t, i.n, i.datasize) && lo2 == RX(t, i.m, i.datasize)
    requires if low then lo1[1] != lo2[1] else hi1[1] != hi2[1]
    ensures DataNeeded(i, r)
  {
    var N := i.datasize;
    ExtractValue(j, s, hi1, lo1);
    ExtractValue(j, t, hi2, lo2);
    var v, w := Concat(hi1, lo1)[j.lsb..j.lsb + N], Concat(hi2, lo2)[j.lsb..j.lsb + N];
    if low { assert v[1] == lo1[1] && w[1] == lo2[1]; } else { assert v[N - 1] == hi1[1] && w[N - 1] == hi2[1]; }
    ValueNeeded(i, j, r, s, t, i.d, v, w);
  }

  // ----- wide moves and addresses -----

  lemma MoveWideNeeded(i: DataOp, r: Reg)
    requires WellFormedData(i) && i.MoveWide? && i.opcode == MoveK && r in XFP(i.d)
    ensures DataNeeded(i, r)
  {
    var N := i.datasize;
    var j := MoveWide(i.d, N, Zeros(16), 16, MoveK);
    var s, t := Probe(0, CLEAR, r, 0), Probe(0, CLEAR, r, 2);
    ProbesDiffer(0, CLEAR, r, 0, 2);
    TriedBits(CLEAR, r, i.d, N, RX(s, i.d, N), RX(t, i.d, N));
    MovedWideFrom(i, j, r, s, t, RX(s, i.d, N), RX(t, i.d, N));
  }

  lemma MovedWideFrom(i: DataOp, j: DataOp, r: Reg, s: State, t: State, x1: Bits, x2: Bits)
    requires WellFormedData(i) && i.MoveWide? && i.opcode == MoveK && i.d != 31 && DiffersOnly(s, t, r)
    requires j == MoveWide(i.d, i.datasize, Zeros(16), 16, MoveK)
    requires x1 == RX(s, i.d, i.datasize) && x2 == RX(t, i.d, i.datasize) && x1[1] != x2[1]
    ensures DataNeeded(i, r)
  {
    var v, w := MoveWideValue(x1, Zeros(16), 16, false), MoveWideValue(x2, Zeros(16), 16, false);
    assert v[1] == x1[1] && w[1] == x2[1];
    ValueNeeded(i, j, r, s, t, i.d, v, w);
  }

  lemma PlusZero(a: Word)
    ensures Plus(a, Zeros(64)) == a
  {
    UIntZeros(64);
    ToBitsUInt(a);
  }

  lemma AddressNeeded(i: DataOp)
    requires WellFormedData(i) && i.Address? && i.d != 31
    ensures DataNeeded(i, Pc)
  {
    var top: Word := Zeros(63) + [true];
    var j := Address(i.d, i.page, Zeros(64));
    var s, t := Place(Uniform(Zeros(64), CLEAR), Pc, Zeros(64)), Place(Uniform(Zeros(64), CLEAR), Pc, top);
    assert top[63] != Zeros(64)[63];
    PlaceDiffers(Uniform(Zeros(64), CLEAR), Pc, Zeros(64), top);
    AddressFrom(i, j, s, t, Zeros(64), top);
  }

  lemma AddressFrom(i: DataOp, j: DataOp, s: State, t: State, pc1: Word, pc2: Word)
    requires WellFormedData(i) && i.Address? && i.d != 31 && DiffersOnly(s, t, Pc)
    requires j == Address(i.d, i.page, Zeros(64)) && s.pc == pc1 && t.pc == pc2 && pc1[63] != pc2[63]
    ensures DataNeeded(i, Pc)
  {
    var v, w := if i.page then PageBase(pc1) else pc1, if i.page then PageBase(pc2) else pc2;
    assert v[63] == pc1[63] && w[63] == pc2[63];
    PlusZero(v);
    PlusZero(w);
    ValueNeeded(i, j, Pc, s, t, i.d, v, w);
  }

  // ----- reversals and counts -----

  lemma ReverseNeeded(i: DataOp, r: Reg)
    requires WellFormedData(i) && i.Reverse? && i.d != 31 && r in XFP(i.n)
    ensures DataNeeded(i, r)
  {
    var N := i.datasize;
    var s, t := Probe(0, CLEAR, r, 0), Probe(0, CLEAR, r, 2);
    ProbesDiffer(0, CLEAR, r, 0, 2);
    TriedBits(CLEAR, r, i.n, N, RX(s, i.n, N), RX(t, i.n, N));
    ReversedFrom(i, r, s, t, RX(s, i.n, N), RX(t, i.n, N));
  }

  lemma ReversedFrom(i: DataOp, r: Reg, s: State, t: State, x1: Bits, x2: Bits)
    requires WellFormedData(i) && i.Reverse? && i.d != 31 && DiffersOnly(s, t, r)
    requires x1 == RX(s, i.n, i.datasize) && x2 == RX(t, i.n, i.datasize) && x1[1] != x2[1]
    ensures DataNeeded(i, r)
  {
    ReversalKeeps(x1, x2, i.revOp);
    ValueNeeded(i, i, r, s, t, i.d, ReversedBy(x1, i.revOp), ReversedBy(x2, i.revOp));
  }

  lemma ReversalKeeps(x1: Bits, x2: Bits, op: RevOp)
    requires Width(|x1|) && |x1| == |x2| && (op == REV64 ==> |x1| == 64) && x1 != x2
    ensures ReversedBy(x1, op) != ReversedBy(x2, op)
  {
    ControlCovers(op, |x1|);
    NetworkInvolution(x1, ControlWord(op, |x1|));
    NetworkInvolution(x2, ControlWord(op, |x1|));
  }

  lemma CountNeeded(i: DataOp, r: Reg)
    requires WellFormedData(i) && i.CountLeading? && i.d != 31 && r in XFP(i.n)
    ensures DataNeeded(i, r)
  {
    var N := i.datasize;
    var s, t := Probe(0, CLEAR, r, 0), Probe(0, CLEAR, r, 2);
    ProbesDiffer(0, CLEAR, r, 0, 2);
    TriedBits(CLEAR, r, i.n, N, RX(s, i.n, N), RX(t, i.n, N));
    CountedFrom(i, r, s, t, RX(s, i.n, N), RX(t, i.n, N));
  }

  lemma CountedFrom(i: DataOp, r: Reg, s: State, t: State, x1: Bits, x2: Bits)
    requires WellFormedData(i) && i.CountLeading? && i.d != 31 && DiffersOnly(s, t, r)
    requires x1 == RX(s, i.n, i.datasize) && x2 == RX(t, i.n, i.datasize)
    requires x1 == Zeros(i.datasize) && forall k: nat :: k < i.datasize ==> x2[k] == (k == 1)
    ensures DataNeeded(i, r)
  {
    var N := i.datasize;
    CountsDiffer(x1, x2, i.countOp);
    SmallApart(N, CountLeadingValue(x1, i.countOp), CountLeadingValue(x2, i.countOp));
    ValueNeeded(i, i, r, s, t, i.d, ToBits(N, CountLeadingValue(x1, i.countOp)),
                ToBits(N, CountLeadingValue(x2, i.countOp)));
  }

  lemma CountsDiffer(x1: Bits, x2: Bits, op: CountOp)
    requires |x1| == |x2| >= 8 && x1 == Zeros(|x1|) && forall k: nat :: k < |x2| ==> x2[k] == (k == 1)
    ensures 0 <= CountLeadingValue(x2, op) < CountLeadingValue(x1, op) <= |x1|
  {
    LeadingRunMeaning(x1, false);
    LeadingRunMeaning(x2, false);
    RunOfZeros(x1, LeadingRun(x1, false));
    RunToTwo(x2, LeadingRun(x2, false));
  }

  lemma RunOfZeros(x: Bits, k: nat)
    requires x == Zeros(|x|) && k == LeadingRun(x, false)
    ensures k == |x|
  {
    LeadingRunMeaning(x, false);
  }

  lemma RunToTwo(x: Bits, k: nat)
    requires |x| >= 8 && (forall k: nat :: k < |x| ==> x[k] == (k == 1)) && k == LeadingRun(x, false)
    ensures k == |x| - 2
  {
    LeadingRunMeaning(x, false);
    assert x[1];
  }

  lemma SmallApart(n: nat, a: int, b: int)
    requires 0 <= b < a <= n && n >= 8
    ensures ToBits(n, a) != ToBits(n, b)
  {
    WidthOf(n);
    UIntToBits(n, a);
    UIntToBits(n, b);
    SmallMod(a, Pow2(n));
    SmallMod(b, Pow2(n));
  }

  // ----- conditional selects -----

  lemma SelectValue(i: DataOp, s: State, x: Bits, y: Bits)
    requires WellFormedData(i) && i.ConditionalSelect? && x == RX(s, i.n, i.datasize) && y == RX(s, i.m, i.datasize)
    ensures DataWrite(i, s)
         == ValueWrite(i.d, if ConditionHolds(i.condition, s.flags) then x else Adjusted(y, i.elseInv, i.elseInc))
  {
  }

  /** What a select writes when its condition fails. */
  function Adjusted(y: Bits, inv: bool, inc: bool): (r: Bits)
    ensures |r| == |y|
  {
    Incremented(InvertIf(inv, y), inc)
  }

  function Incremented(v: Bits, inc: bool): (r: Bits)
    ensures |r| == |v|
  {
    ToBits(|v|, UInt(v) + BoolInt(inc))
  }

  lemma InvertNumber(y: Bits, inv: bool)
    ensures UInt(InvertIf(inv, y)) == if inv then Pow2(|y|) - 1 - UInt(y) else UInt(y)
  {
    if inv { UIntNot(y); }
  }

  lemma IncrementedNumber(v: Bits, inc: bool)
    ensures var u := UInt(v) + BoolInt(inc); UInt(Incremented(v, inc)) == if u == Pow2(|v|) then 0 else u
  {
    var n, u := |v|, UInt(v) + BoolInt(inc);
    UIntRange(v);
    UIntToBits(n, u);
    if u == Pow2(n) { DivModUnique(u, Pow2(n), 1, 0); } else { SmallMod(u, Pow2(n)); }
  }

  /** The number written for zero and for two: 0, 1, -1 or 0 and 2, 3, -3 or -2. */
  lemma AdjustedSmall(y: Bits, inv: bool, inc: bool)
    requires |y| >= 8 && UInt(y) <= 2
    ensures var v := (if inv then -1 - UInt(y) else UInt(y)) + BoolInt(inc);
            UInt(Adjusted(y, inv, inc)) == if v < 0 then v + Pow2(|y|) else v
  {
    assert Pow2(3) == 8;
    Pow2Mono(3, |y|);
    InvertNumber(y, inv);
    IncrementedNumber(InvertIf(inv, y), inc);
  }

  lemma SelectFirstNeeded(i: DataOp, r: Reg)
    requires WellFormedData(i) && i.ConditionalSelect? && i.d != 31 && r in XFP(i.n)
    ensures DataNeeded(i, r)
  {
    var N, f := i.datasize, Holding(i.condition);
    var s, t := Probe(0, f, r, 0), Probe(0, f, r, 2);
    ProbesDiffer(0, f, r, 0, 2);
    ProbeFlags(0, f, r, 0);
    ProbeFlags(0, f, r, 2);
    TriedBits(f, r, i.n, N, RX(s, i.n, N), RX(t, i.n, N));
    FirstSelectedFrom(i, r, s, t, RX(s, i.n, N), RX(t, i.n, N));
  }

  lemma FirstSelectedFrom(i: DataOp, r: Reg, s: State, t: State, x1: Bits, x2: Bits)
    requires WellFormedData(i) && i.ConditionalSelect? && i.d != 31 && DiffersOnly(s, t, r)
    requires ConditionHolds(i.condition, s.flags) && ConditionHolds(i.condition, t.flags)
    requires x1 == RX(s, i.n, i.datasize) && x2 == RX(t, i.n, i.datasize) && x1[1] != x2[1]
    ensures DataNeeded(i, r)
  {
    SelectValue(i, s, x1, RX(s, i.m, i.datasize));
    SelectValue(i, t, x2, RX(t, i.m, i.datasize));
    ValueNeeded(i, i, r, s, t, i.d, x1, x2);
  }

  /** Flags that make a condition fail. */
  function Failing(cond: Cond): (f: Flags)
    requires cond < 14
    ensures !ConditionHolds(cond, f)
  {
    Flags(cond == 5 || cond == 10, cond == 1 || cond == 12, cond == 3 || cond == 9, cond == 7)
  }

  lemma SelectSecondNeeded(i: DataOp, r: Reg)
    requires WellFormedData(i) && i.ConditionalSelect? && i.d != 31 && r in XFP(i.m) && i.condition < 14
    ensures DataNeeded(i, r)
  {
    var N, f := i.datasize, Failing(i.condition);
    var s, t := Probe(0, f, r, 0), Probe(0, f, r, 2);
    ProbesDiffer(0, f, r, 0, 2);
    ProbeFlags(0, f, r, 0);
    ProbeFlags(0, f, r, 2);
    OperandProbed(f, r, i.m, N, RX(s, i.m, N), RX(t, i.m, N));
    SecondSelectedFrom(i, r, s, t, RX(s, i.m, N), RX(t, i.m, N));
  }

  lemma SecondSelectedFrom(i: DataOp, r: Reg, s: State, t: State, y1: Bits, y2: Bits)
    requires WellFormedData(i) && i.ConditionalSelect? && i.d != 31 && DiffersOnly(s, t, r)
    requires !ConditionHolds(i.condition, s.flags) && !ConditionHolds(i.condition, t.flags)
    requires y1 == RX(s, i.m, i.datasize) && y2 == RX(t, i.m, i.datasize) && UInt(y1) == 0 && UInt(y2) == 2
    ensures DataNeeded(i, r)
  {
    AdjustmentsDiffer(y1, y2, i.elseInv, i.elseInc);
    SelectValue(i, s, RX(s, i.n, i.datasize), y1);
    SelectValue(i, t, RX(t, i.n, i.datasize), y2);
    ValueNeeded(i, i, r, s, t, i.d, Adjusted(y1, i.elseInv, i.elseInc), Adjusted(y2, i.elseInv, i.elseInc));
  }

  lemma AdjustmentsDiffer(y1: Bits, y2: Bits, inv: bool, inc: bool)
    requires |y1| == |y2| >= 8 && UInt(y1) == 0 && UInt(y2) == 2
    ensures Adjusted(y1, inv, inc) != Adjusted(y2, inv, inc)
  {
    assert Pow2(3) == 8;
    Pow2Mono(3, |y1|);
    AdjustedSmall(y1, inv, inc);
    AdjustedSmall(y2, inv, inc);
  }

  /** The two candidates are always the same: one register unadjusted, or the negative of the zero register. */
  predicate SameChoice(i: DataOp)
    requires i.ConditionalSelect?
  {
    i.n == i.m && ((!i.elseInv && !i.elseInc) || (i.n == 31 && i.elseInv && i.elseInc))
  }

  /** Two in the first register, or in the second if the first is the zero register. */
  lemma SelectFlagNeeded(i: DataOp, r: Reg)
    requires WellFormedData(i) && i.ConditionalSelect? && i.d != 31 && r in ConditionFP(i.condition) && !SameChoice(i)
    ensures DataNeeded(i, r)
  {
    var N, f := i.datasize, Balanced(i.condition, r);
    var q := if i.n != 31 then R(i.n) else if i.m != 31 then R(i.m) else R(0);
    var s, t := Probe(0, f, q, 2), Probe(0, Flip(f, r), q, 2);
    FlipDecides(i.condition, r);
    ProbeFlags(0, f, q, 2);
    ProbeFlags(0, Flip(f, r), q, 2);
    FlippedProbe(f, r, q);
    ProbeNumber(0, f, q, 2, i.n, N);
    ProbeNumber(0, f, q, 2, i.m, N);
    SelectedFlagFrom(i, r, s, t, RX(s, i.n, N), RX(s, i.m, N));
  }

  lemma FlippedProbe(f: Flags, r: Reg, q: Reg)
    requires r in NZCV_FP && q.R?
    ensures DiffersOnly(Probe(0, f, q, 2), Probe(0, Flip(f, r), q, 2), r)
    ensures forall n: RegIndex, w: nat :: w <= 64 ==>
              RX(Probe(0, f, q, 2), n, w) == RX(Probe(0, Flip(f, r), q, 2), n, w)
  {
    var s, t := Probe(0, f, q, 2), Probe(0, Flip(f, r), q, 2);
    assert Read(s, r)[0] != Read(t, r)[0];
    forall p | p != r ensures Read(s, p) == Read(t, p) { }
  }

  lemma SelectedFlagFrom(i: DataOp, r: Reg, s: State, t: State, x: Bits, y: Bits)
    requires WellFormedData(i) && i.ConditionalSelect? && i.d != 31 && DiffersOnly(s, t, r) && !SameChoice(i)
    requires ConditionHolds(i.condition, s.flags) != ConditionHolds(i.condition, t.flags)
    requires x == RX(s, i.n, i.datasize) == RX(t, i.n, i.datasize)
    requires y == RX(s, i.m, i.datasize) == RX(t, i.m, i.datasize)
    requires UInt(x) == (if i.n != 31 then 2 else 0)
    requires UInt(y) == if i.m == 31 then 0 else if i.n == 31 || i.n == i.m then 2 else 0
    ensures DataNeeded(i, r)
  {
    ChoicesDiffer(x, y, i.elseInv, i.elseInc, i.n == i.m);
    SelectValue(i, s, x, y);
    SelectValue(i, t, x, y);
    if ConditionHolds(i.condition, s.flags) {
      ValueNeeded(i, i, r, s, t, i.d, x, Adjusted(y, i.elseInv, i.elseInc));
    } else {
      ValueNeeded(i, i, r, s, t, i.d, Adjusted(y, i.elseInv, i.elseInc), x);
    }
  }

  lemma ChoicesDiffer(x: Bits, y: Bits, inv: bool, inc: bool, same: bool)
    requires |x| == |y| >= 8 && UInt(x) <= 2 && UInt(y) <= 2 && UInt(x) != 1 && UInt(y) != 1
    requires if same then x == y && (inv || inc) && (UInt(x) == 0 ==> inv != inc) else UInt(x) + UInt(y) == 2
    ensures x != Adjusted(y, inv, inc)
  {
    assert Pow2(3) == 8;
    Pow2Mono(3, |x|);
    AdjustedSmall(y, inv, inc);
  }

  lemma SelectFlagIndifferent(i: DataOp, r: Reg)
    requires WellFormedData(i) && i.ConditionalSelect? && SameChoice(i) && r in NZCV_FP
    ensures DataIndifferent(i, r)
  {
    forall j: DataOp, s: State, t: State | WellFormedData(j) && SameForm(i, j) && DiffersOnly(s, t, r)
      ensures Alike(DataWrite(j, s), DataWrite(j, t))
    {
      SelectFlagAlike(i, s, t, r);
    }
  }

  lemma SelectFlagAlike(i: DataOp, s: State, t: State, r: Reg)
    requires WellFormedData(i) && i.ConditionalSelect? && SameChoice(i) && r in NZCV_FP && DiffersOnly(s, t, r)
    ensures Alike(DataWrite(i, s), DataWrite(i, t))
  {
    SameSources(s, t, r, i.n, i.datasize);
    SameChoiceWrite(i, s, RX(s, i.n, i.datasize));
    SameChoiceWrite(i, t, RX(t, i.n, i.datasize));
  }

  lemma SameSources(s: State, t: State, r: Reg, n: RegIndex, w: nat)
    requires DiffersOnly(s, t, r) && r !in XFP(n) && w <= 64
    ensures RX(s, n, w) == RX(t, n, w)
  {
    if n != 31 { assert Read(s, R(n)) == Read(t, R(n)); }
  }

  lemma SameChoiceWrite(i: DataOp, s: State, x: Bits)
    requires WellFormedData(i) && i.ConditionalSelect? && SameChoice(i) && x == RX(s, i.n, i.datasize)
    ensures DataWrite(i, s) == ValueWrite(i.d, x)
  {
    SelectValue(i, s, x, x);
    UIntZeros(|x|);
    if i.elseInv { AdjustedSmall(x, true, true); } else { ToBitsUInt(x); }
    UIntSame(Adjusted(x, i.elseInv, i.elseInc), x);
  }

  lemma UIntSame(a: Bits, b: Bits)
    requires |a| == |b| && (a == b || UInt(a) == UInt(b))
    ensures a == b
  {
    if UInt(a) == UInt(b) { UIntInjective(a, b); }
  }

  lemma SelectSecondIndifferent(i: DataOp, r: Reg)
    requires WellFormedData(i) && i.ConditionalSelect? && i.condition >= 14 && r in XFP(i.m) && r !in XFP(i.n)
    ensures DataIndifferent(i, r)
  {
    forall j: DataOp, s: State, t: State | WellFormedData(j) && SameForm(i, j) && DiffersOnly(s, t, r)
      ensures Alike(DataWrite(j, s), DataWrite(j, t))
    {
      SelectSecondAlike(i, s, t, r);
    }
  }

  lemma SelectSecondAlike(i: DataOp, s: State, t: State, r: Reg)
    requires WellFormedData(i) && i.ConditionalSelect? && i.condition >= 14 && r !in XFP(i.n) && DiffersOnly(s, t, r)
    ensures Alike(DataWrite(i, s), DataWrite(i, t))
  {
    SameSources(s, t, r, i.n, i.datasize);
    SelectValue(i, s, RX(s, i.n, i.datasize), RX(s, i.m, i.datasize));
    SelectValue(i, t, RX(t, i.n, i.datasize), RX(t, i.m, i.datasize));
  }
}
