/** Which announced inputs the additions, subtractions and conditional compares need. */
module NeededSums {
  import opened Ints
  import opened BitVectors
  import opened CommonLib
  import opened Shifts
  import opened A64Lib
  import opened Instructions
  import opened Semantics
  import opened Footprint
  import opened FootprintNeeded
  import opened Agreement

  // ----- small numbers in registers -----

  const CLEAR := Flags(false, false, false, false)

  function Small(v: nat): Word { ToBits(64, v) }

  lemma SmallPart(v: nat, w: nat)
    requires v < 16 && 8 <= w <= 64
    ensures UInt(Small(v)[..w]) == v && SInt(Small(v)[..w]) == v
  {
    var x := Small(v)[..w];
    assert x == ToBits(w, v);
    assert Pow2(4) == 16;
    Pow2Mono(4, w);
    Pow2Mono(4, w - 1);
    UIntToBits(w, v);
    SmallMod(v, Pow2(w));
    SIntToBits(w, v);
  }

  /** A state whose registers hold the number a, and register r the number b. */
  ghost function Probe(a: nat, f: Flags, r: Reg, b: nat): State
    requires Placeable(r)
  {
    Place(Uniform(Small(a), f), r, Small(b))
  }

  /** The number source register n shows in such a state. */
  function Num(a: nat, r: Reg, b: nat, n: RegIndex): nat { if n == 31 then 0 else if r == R(n) then b else a }

  lemma ProbeNumber(a: nat, f: Flags, r: Reg, b: nat, n: RegIndex, w: nat)
    requires Placeable(r) && a < 16 && b < 16 && 8 <= w <= 64
    ensures var x := RX(Probe(a, f, r, b), n, w); UInt(x) == SInt(x) == Num(a, r, b, n)
  {
    HeldReads(Small(a), f, r, Small(b), n, w);
    if n == 31 {
      UIntZeros(w);
    } else {
      SmallPart(a, w);
      SmallPart(b, w);
    }
  }

  /** The same for a source that may be the stack pointer. */
  function NumOrSp(a: nat, r: Reg, b: nat, n: RegIndex): nat {
    if n == 31 then (if r == SpEl0 then b else a) else Num(a, r, b, n)
  }

  lemma ProbeNumberOrSp(a: nat, f: Flags, r: Reg, b: nat, n: RegIndex, w: nat)
    requires Placeable(r) && a < 16 && b < 16 && 8 <= w <= 64
    ensures UInt(RXorSP(Probe(a, f, r, b), n, w)) == NumOrSp(a, r, b, n)
  {
    ProbeNumber(a, f, r, b, n, w);
    SmallPart(a, w);
    SmallPart(b, w);
  }

  lemma ProbeFlags(a: nat, f: Flags, r: Reg, b: nat)
    requires Placeable(r)
    ensures Probe(a, f, r, b).flags == f
  {
  }

  lemma ProbesDiffer(a: nat, f: Flags, r: Reg, b: nat, c: nat)
    requires Placeable(r) && b < 16 && c < 16 && b != c
    ensures DiffersOnly(Probe(a, f, r, b), Probe(a, f, r, c), r)
  {
    SmallPart(b, 64);
    SmallPart(c, 64);
    PlaceDiffers(Uniform(Small(a), f), r, Small(b), Small(c));
  }

  // ----- sums that are zero and sums that are not -----

  lemma SumIsZero(x: Bits, y: Bits, sub: bool)
    requires |x| == |y| > 0 && UInt(x) + UInt(y) < Pow2(|x|)
    ensures var r := AddOrSub(x, y, sub);
            r.1.z == IsZero(r.0) == (if sub then UInt(x) == UInt(y) else UInt(x) + UInt(y) == 0)
  {
    ZeroFlag(x, y, sub);
    if sub { DifferenceIsZero(x, y); } else { PlainSumIsZero(x, y); }
  }

  lemma PlainSumIsZero(x: Bits, y: Bits)
    requires |x| == |y| > 0 && UInt(x) + UInt(y) < Pow2(|x|)
    ensures IsZero(AddWithCarry(x, y, false).0) <==> UInt(x) + UInt(y) == 0
  {
    var u := UInt(x) + UInt(y);
    SumResult(x, y, u);
    IsZeroValue(AddWithCarry(x, y, false).0);
    ResidueZero(u, Pow2(|x|));
  }

  lemma DifferenceIsZero(x: Bits, y: Bits)
    requires |x| == |y| > 0 && UInt(x) + UInt(y) < Pow2(|x|)
    ensures IsZero(AddWithCarry(x, Not(y), true).0) <==> UInt(x) == UInt(y)
  {
    var u := UInt(x) - UInt(y);
    DifferenceResult(x, y, u);
    IsZeroValue(AddWithCarry(x, Not(y), true).0);
    ResidueZero(u, Pow2(|x|));
  }

  lemma SumResult(x: Bits, y: Bits, u: int)
    requires |x| == |y| > 0 && u == UInt(x) + UInt(y)
    ensures UInt(AddWithCarry(x, y, false).0) == u % Pow2(|x|)
  {
    ResultOf(x, y, false, u);
  }

  lemma DifferenceResult(x: Bits, y: Bits, u: int)
    requires |x| == |y| > 0 && u == UInt(x) - UInt(y)
    ensures UInt(AddWithCarry(x, Not(y), true).0) == u % Pow2(|x|)
  {
    var w := UnsignedSum(x, Not(y), true);
    SubtractMeaning(x, y, true);
    ResultOf(x, Not(y), true, w);
    ModLess(w, Pow2(|x|));
  }

  lemma ResultOf(x: Bits, y: Bits, carry: bool, w: int)
    requires |x| == |y| > 0 && w == UnsignedSum(x, y, carry)
    ensures UInt(AddWithCarry(x, y, carry).0) == w % Pow2(|x|)
  {
    UIntToBits(|x|, w);
  }

  lemma ZeroFlag(x: Bits, y: Bits, sub: bool)
    requires |x| == |y| > 0
    ensures AddOrSub(x, y, sub).1.z == IsZero(AddOrSub(x, y, sub).0)
  {
  }

  lemma ResidueZero(u: int, m: int)
    requires -m < u < m
    ensures u % m == 0 <==> u == 0
  {
    if u >= 0 {
      SmallMod(u, m);
    } else {
      ModShift(u, 1, m);
      SmallMod(u + m, m);
    }
  }

  lemma SumsApart(d: RegIndex, spAllowed: bool, setflags: bool, sum1: (Bits, Flags), sum2: (Bits, Flags))
    requires |sum1.0| == |sum2.0| <= 64 && sum1.1.z == IsZero(sum1.0) && sum2.1.z == IsZero(sum2.0)
    requires IsZero(sum1.0) && !IsZero(sum2.0) && (d != 31 || spAllowed || setflags)
    ensures Apart(SumWrite(d, spAllowed, setflags, sum1), SumWrite(d, spAllowed, setflags, sum2))
  {
  }

  /** From operands zero to operands whose sum is not. */
  predicate Grows(x: Bits, y: Bits, sub: bool)
    requires |x| == |y| > 0
  {
    UInt(x) + UInt(y) < Pow2(|x|) && (if sub then UInt(x) != UInt(y) else UInt(x) + UInt(y) > 0)
  }

  lemma SumNeeded(i: DataOp, j: DataOp, r: Reg, s: State, t: State, d: RegIndex, spAllowed: bool, setflags: bool,
                  x1: Bits, y1: Bits, x2: Bits, y2: Bits, sub: bool)
    requires WellFormedData(i) && WellFormedData(j) && SameForm(i, j) && DiffersOnly(s, t, r)
    requires 0 < |x1| == |y1| == |x2| == |y2| <= 64 && UInt(x1) == UInt(y1) == 0 && Grows(x2, y2, sub)
    requires DataWrite(j, s) == SumWrite(d, spAllowed, setflags, AddOrSub(x1, y1, sub))
    requires DataWrite(j, t) == SumWrite(d, spAllowed, setflags, AddOrSub(x2, y2, sub))
    requires d != 31 || spAllowed || setflags
    ensures DataNeeded(i, r)
  {
    SumIsZero(x1, y1, sub);
    SumIsZero(x2, y2, sub);
    SumsApart(d, spAllowed, setflags, AddOrSub(x1, y1, sub), AddOrSub(x2, y2, sub));
    ShownNeeded(i, j, r, s, t);
  }

  lemma SmallSums(x: Bits, y: Bits)
    requires |x| == |y| >= 8 && UInt(x) < 16 && UInt(y) < 16
    ensures UInt(x) + UInt(y) < Pow2(|x|)
  {
    assert Pow2(5) == 32;
    Pow2Mono(5, |x|);
  }

  /** The state with zero in r and the one with two, as every proof here tries them. */
  lemma SourceProbed(f: Flags, r: Reg, n: RegIndex, w: nat, x1: Bits, x2: Bits)
    requires Placeable(r) && 8 <= w <= 64
    requires x1 == RXorSP(Probe(0, f, r, 0), n, w) && x2 == RXorSP(Probe(0, f, r, 2), n, w)
    ensures |x1| == |x2| == w && UInt(x1) == 0 && UInt(x2) == NumOrSp(0, r, 2, n)
  {
    ProbeNumberOrSp(0, f, r, 0, n, w);
    ProbeNumberOrSp(0, f, r, 2, n, w);
  }

  lemma OperandProbed(f: Flags, r: Reg, n: RegIndex, w: nat, x1: Bits, x2: Bits)
    requires Placeable(r) && 8 <= w <= 64
    requires x1 == RX(Probe(0, f, r, 0), n, w) && x2 == RX(Probe(0, f, r, 2), n, w)
    ensures |x1| == |x2| == w && UInt(x1) == SInt(x1) == 0 && UInt(x2) == SInt(x2) == Num(0, r, 2, n)
  {
    ProbeNumber(0, f, r, 0, n, w);
    ProbeNumber(0, f, r, 2, n, w);
  }

  // ----- immediate operand -----

  lemma ImmediateWrite(i: DataOp, s: State, x: Bits)
    requires WellFormedData(i) && i.AddSubImmediate? && x == RXorSP(s, i.n, i.datasize)
    ensures DataWrite(i, s) == SumWrite(i.d, true, i.setflags, AddOrSub(x, i.imm, i.subOp))
  {
  }

  lemma AddSubImmediateNeeded(i: DataOp, r: Reg)
    requires WellFormedData(i) && i.AddSubImmediate?
    requires r == if i.n == 31 then SpEl0 else R(i.n)
    ensures DataNeeded(i, r)
  {
    var N := i.datasize;
    var j := AddSubImmediate(i.d, i.n, N, i.subOp, i.setflags, Zeros(N));
    var s, t := Probe(0, CLEAR, r, 0), Probe(0, CLEAR, r, 2);
    ProbesDiffer(0, CLEAR, r, 0, 2);
    ImmediateFrom(i, j, r, s, t, RXorSP(s, i.n, N), RXorSP(t, i.n, N), Zeros(N));
  }

  lemma ImmediateOperands(r: Reg, n: RegIndex, N: nat, sub: bool, x1: Bits, x2: Bits, zero: Bits)
    requires 8 <= N <= 64 && r == (if n == 31 then SpEl0 else R(n)) && zero == Zeros(N)
    requires x1 == RXorSP(Probe(0, CLEAR, r, 0), n, N) && x2 == RXorSP(Probe(0, CLEAR, r, 2), n, N)
    ensures |x1| == |x2| == |zero| == N && UInt(x1) == UInt(zero) == 0 && Grows(x2, zero, sub)
  {
    SourceProbed(CLEAR, r, n, N, x1, x2);
    UIntZeros(N);
    SmallSums(x2, zero);
  }

  lemma ImmediateFrom(i: DataOp, j: DataOp, r: Reg, s: State, t: State, x1: Bits, x2: Bits, zero: Bits)
    requires WellFormedData(i) && i.AddSubImmediate? && DiffersOnly(s, t, r)
    requires r == (if i.n == 31 then SpEl0 else R(i.n)) && zero == Zeros(i.datasize)
    requires j == AddSubImmediate(i.d, i.n, i.datasize, i.subOp, i.setflags, zero)
    requires s == Probe(0, CLEAR, r, 0) && t == Probe(0, CLEAR, r, 2)
    requires x1 == RXorSP(s, i.n, i.datasize) && x2 == RXorSP(t, i.n, i.datasize)
    ensures DataNeeded(i, r)
  {
    ImmediateOperands(r, i.n, i.datasize, i.subOp, x1, x2, zero);
    ImmediateWrite(j, s, x1);
    ImmediateWrite(j, t, x2);
    SumNeeded(i, j, r, s, t, i.d, true, i.setflags, x1, zero, x2, zero, i.subOp);
  }

  // ----- extended register -----

  lemma ExtendedSmall(x: Bits, etype: ExtendType, y: Bits)
    requires |x| in {32, 64} && UInt(x) < 16 && y == ExtendReg(x, etype, 1)
    ensures |y| == |x| && UInt(y) == 2 * UInt(x)
  {
    ExtendRegNumber(x, etype, 1);
    SmallExtends(UInt(x), etype);
    Doubled(|x|, UInt(x));
  }

  lemma SmallExtends(v: nat, etype: ExtendType)
    requires v < 16
    ensures ExtendedNumber(v, etype) == v
  {
  }

  lemma Doubled(n: nat, v: nat)
    requires n >= 8 && v < 16
    ensures UInt(ToBits(n, v * Pow2(1))) == 2 * v
  {
    assert Pow2(5) == 32 && Pow2(1) == 2;
    Pow2Mono(5, n);
    UIntToBits(n, v * Pow2(1));
    SmallMod(2 * v, Pow2(n));
  }

  lemma ExtendedWrite(i: DataOp, s: State, x: Bits, y: Bits)
    requires WellFormedData(i) && i.AddSubExtendRegister?
    requires x == RXorSP(s, i.n, i.datasize) && y == ExtendReg(RX(s, i.m, i.datasize), i.extendType, i.shift)
    ensures DataWrite(i, s) == SumWrite(i.d, true, i.setflags, AddOrSub(x, y, i.subOp))
  {
  }

  lemma ExtendedOperands(r: Reg, n: RegIndex, m: RegIndex, N: nat, etype: ExtendType, sub: bool, x1: Bits, z1: Bits,
                         y1: Bits, x2: Bits, z2: Bits, y2: Bits)
    requires N in {32, 64} && (r == (if n == 31 then SpEl0 else R(n)) || (m != 31 && r == R(m)))
    requires x1 == RXorSP(Probe(0, CLEAR, r, 0), n, N) && x2 == RXorSP(Probe(0, CLEAR, r, 2), n, N)
    requires z1 == RX(Probe(0, CLEAR, r, 0), m, N) && z2 == RX(Probe(0, CLEAR, r, 2), m, N)
    requires y1 == ExtendReg(z1, etype, 1) && y2 == ExtendReg(z2, etype, 1)
    ensures |x1| == |y1| == |x2| == |y2| == N && UInt(x1) == UInt(y1) == 0 && Grows(x2, y2, sub)
  {
    SourceProbed(CLEAR, r, n, N, x1, x2);
    OperandProbed(CLEAR, r, m, N, z1, z2);
    ExtendedSmall(z1, etype, y1);
    ExtendedSmall(z2, etype, y2);
    SmallSums(x2, y2);
  }

  lemma AddSubExtendRegisterNeeded(i: DataOp, r: Reg)
    requires WellFormedData(i) && i.AddSubExtendRegister?
    requires r == (if i.n == 31 then SpEl0 else R(i.n)) || (i.m != 31 && r == R(i.m))
    ensures DataNeeded(i, r)
  {
    var N := i.datasize;
    var j := AddSubExtendRegister(i.d, i.n, i.m, N, i.subOp, i.setflags, i.extendType, 1);
    var s, t := Probe(0, CLEAR, r, 0), Probe(0, CLEAR, r, 2);
    var x1, z1, x2, z2 := RXorSP(s, i.n, N), RX(s, i.m, N), RXorSP(t, i.n, N), RX(t, i.m, N);
    ProbesDiffer(0, CLEAR, r, 0, 2);
    ExtendedFrom(i, j, r, s, t, x1, z1, ExtendReg(z1, i.extendType, 1), x2, z2, ExtendReg(z2, i.extendType, 1));
  }

  lemma ExtendedFrom(i: DataOp, j: DataOp, r: Reg, s: State, t: State, x1: Bits, z1: Bits, y1: Bits, x2: Bits, z2: Bits,
                     y2: Bits)
    requires WellFormedData(i) && i.AddSubExtendRegister? && DiffersOnly(s, t, r)
    requires r == (if i.n == 31 then SpEl0 else R(i.n)) || (i.m != 31 && r == R(i.m))
    requires j == AddSubExtendRegister(i.d, i.n, i.m, i.datasize, i.subOp, i.setflags, i.extendType, 1)
    requires s == Probe(0, CLEAR, r, 0) && t == Probe(0, CLEAR, r, 2)
    requires x1 == RXorSP(s, i.n, i.datasize) && z1 == RX(s, i.m, i.datasize) && y1 == ExtendReg(z1, i.extendType, 1)
    requires x2 == RXorSP(t, i.n, i.datasize) && z2 == RX(t, i.m, i.datasize) && y2 == ExtendReg(z2, i.extendType, 1)
    ensures DataNeeded(i, r)
  {
    ExtendedOperands(r, i.n, i.m, i.datasize, i.extendType, i.subOp, x1, z1, y1, x2, z2, y2);
    ExtendedWrite(j, s, x1, y1);
    ExtendedWrite(j, t, x2, y2);
    SumNeeded(i, j, r, s, t, i.d, true, i.setflags, x1, y1, x2, y2, i.subOp);
  }

  // ----- shifted register -----

  /** Shifting zero, and shifting two by one. */
  lemma ShiftZero(x: Bits, stype: ShiftType, amount: nat)
    requires |x| > 0 && IsZero(x)
    ensures IsZero(ShiftReg(x, stype, amount))
  {
    forall k: nat | k < |x| ensures !ShiftReg(x, stype, amount)[k] { ShiftedZeroBit(x, stype, amount, k); }
  }

  lemma ShiftedZeroBit(x: Bits, stype: ShiftType, amount: nat, k: nat)
    requires k < |x| && IsZero(x)
    ensures !ShiftReg(x, stype, amount)[k]
  {
    match stype
    case ShiftLSL => LslAt(x, amount, k);
    case ShiftLSR => LsrAt(x, amount, k);
    case ShiftASR => if amount > 0 { AsrAt(x, amount, k); }
    case ShiftROR => RorTurns(x, amount, k);
  }

  lemma TwoBits(x: Bits)
    requires |x| >= 8 && UInt(x) == 2
    ensures !x[0] && forall k :: 2 <= k < |x| ==> !x[k]
  {
    forall k: nat | k < |x| ensures x[k] == (k == 1) {
      UIntBit(x, k);
      TwoBit(k);
    }
  }

  lemma TwoBit(k: nat)
    ensures Bit(2, k) == (k == 1)
  {
    if k >= 1 {
      assert Bit(2, k) == Bit(1, k - 1);
      if k >= 2 { BitZero(k - 2); assert Bit(1, k - 1) == Bit(0, k - 2); }
    }
  }

  lemma ShiftTwo(x: Bits, stype: ShiftType)
    requires |x| >= 8 && UInt(x) == SInt(x) == 2
    ensures UInt(ShiftReg(x, stype, 1)) == if stype == ShiftLSL then 4 else 1
  {
    assert Pow2(1) == 2;
    match stype
    case ShiftLSL =>
      LslMeaning(x, 1);
      FourFits(|x|);
    case ShiftLSR => LsrMeaning(x, 1);
    case ShiftASR =>
      AsrMeaning(x, 1);
      SIntRange(ASR(x, 1));
      UIntRange(ASR(x, 1));
    case ShiftROR =>
      TurnedTwo(x);
      LsrMeaning(x, 1);
  }

  lemma FourFits(n: nat)
    requires n >= 8
    ensures 2 * 2 % Pow2(n) == 4
  {
    assert Pow2(3) == 8;
    Pow2Mono(3, n);
    SmallMod(4, Pow2(n));
  }

  /** Two has no lowest bit, so turning it by one is shifting it. */
  lemma TurnedTwo(x: Bits)
    requires |x| >= 8 && UInt(x) == 2
    ensures ROR(x, 1) == LSR(x, 1)
  {
    TwoBits(x);
    forall k: nat | k < |x| ensures ROR(x, 1)[k] == LSR(x, 1)[k] {
      TurnedAt(x, k);
      LsrAt(x, 1, k);
    }
  }

  lemma TurnedAt(x: Bits, k: nat)
    requires |x| >= 8 && k < |x|
    ensures ROR(x, 1)[k] == x[if k + 1 < |x| then k + 1 else 0]
  {
    SmallMod(1, |x|);
    RorBit(x, 1, 1, k, if k + 1 < |x| then k + 1 else 0);
  }

  /** What the two operands can be: one of them is two, or the second is two shifted by one. */
  predicate OneIsTwo(x: Bits, y: Bits, same: bool) {
    if same then UInt(x) == 2 && (UInt(y) == 1 || UInt(y) == 4)
    else UInt(x) + UInt(y) >= 2 && (UInt(x) == 0 || UInt(y) == 0) && UInt(x) <= 2 && UInt(y) <= 2
  }

  lemma TwoGrows(x: Bits, y: Bits, same: bool, sub: bool)
    requires |x| == |y| >= 8 && OneIsTwo(x, y, same)
    ensures Grows(x, y, sub)
  {
    SmallSums(x, y);
  }

  lemma ShiftedOperands(r: Reg, n: RegIndex, m: RegIndex, N: nat, x1: Bits, z1: Bits, x2: Bits, z2: Bits)
    requires N in {32, 64} && r in XFP(n) + XFP(m)
    requires x1 == RX(Probe(0, CLEAR, r, 0), n, N) && x2 == RX(Probe(0, CLEAR, r, 2), n, N)
    requires z1 == RX(Probe(0, CLEAR, r, 0), m, N) && z2 == RX(Probe(0, CLEAR, r, 2), m, N)
    ensures |x1| == |x2| == |z1| == |z2| == N && UInt(x1) == UInt(z1) == 0 && UInt(z2) == SInt(z2)
    ensures if n == m then x2 == z2 && UInt(x2) == 2 else OneIsTwo(x2, z2, false)
  {
    OperandProbed(CLEAR, r, n, N, x1, x2);
    OperandProbed(CLEAR, r, m, N, z1, z2);
  }

  lemma ShiftedNumbers(z1: Bits, z2: Bits, stype: ShiftType, once: bool, y1: Bits, y2: Bits)
    requires |z1| == |z2| >= 8 && UInt(z1) == 0 && UInt(z2) == SInt(z2) && (once ==> UInt(z2) == 2)
    requires y1 == ShiftReg(z1, stype, if once then 1 else 0) && y2 == ShiftReg(z2, stype, if once then 1 else 0)
    ensures UInt(y1) == 0
    ensures if once then UInt(y2) == 1 || UInt(y2) == 4 else UInt(y2) == UInt(z2)
  {
    IsZeroValue(z1);
    IsZeroValue(y1);
    ShiftZero(z1, stype, if once then 1 else 0);
    if once { ShiftTwo(z2, stype); } else { NoShift(z2, stype); }
  }

  lemma NoShift(x: Bits, stype: ShiftType)
    requires |x| > 0
    ensures ShiftReg(x, stype, 0) == x
  {
  }

  lemma ShiftedWrite(i: DataOp, s: State, x: Bits, y: Bits)
    requires WellFormedData(i) && i.AddSubShiftedRegister?
    requires x == RX(s, i.n, i.datasize) && y == ShiftReg(RX(s, i.m, i.datasize), i.shiftType, i.amount)
    ensures DataWrite(i, s) == SumWrite(i.d, false, i.setflags, AddOrSub(x, y, i.subOp))
  {
  }

  lemma AddSubShiftedRegisterNeeded(i: DataOp, r: Reg)
    requires WellFormedData(i) && i.AddSubShiftedRegister? && (i.d != 31 || i.setflags)
    requires r in XFP(i.n) + XFP(i.m)
    ensures DataNeeded(i, r)
  {
    var N, amount := i.datasize, if i.n == i.m then 1 else 0;
    var j := AddSubShiftedRegister(i.d, i.n, i.m, N, i.subOp, i.setflags, i.shiftType, amount);
    var s, t := Probe(0, CLEAR, r, 0), Probe(0, CLEAR, r, 2);
    var x1, z1, x2, z2 := RX(s, i.n, N), RX(s, i.m, N), RX(t, i.n, N), RX(t, i.m, N);
    ProbesDiffer(0, CLEAR, r, 0, 2);
    ShiftedFrom(i, j, r, s, t, amount, x1, z1, ShiftReg(z1, i.shiftType, amount), x2, z2,
                ShiftReg(z2, i.shiftType, amount));
  }

  lemma ShiftedFrom(i: DataOp, j: DataOp, r: Reg, s: State, t: State, amount: nat, x1: Bits, z1: Bits, y1: Bits,
                    x2: Bits, z2: Bits, y2: Bits)
    requires WellFormedData(i) && i.AddSubShiftedRegister? && DiffersOnly(s, t, r) && (i.d != 31 || i.setflags)
    requires r in XFP(i.n) + XFP(i.m) && amount == if i.n == i.m then 1 else 0
    requires j == AddSubShiftedRegister(i.d, i.n, i.m, i.datasize, i.subOp, i.setflags, i.shiftType, amount)
    requires s == Probe(0, CLEAR, r, 0) && t == Probe(0, CLEAR, r, 2)
    requires x1 == RX(s, i.n, i.datasize) && z1 == RX(s, i.m, i.datasize) && y1 == ShiftReg(z1, i.shiftType, amount)
    requires x2 == RX(t, i.n, i.datasize) && z2 == RX(t, i.m, i.datasize) && y2 == ShiftReg(z2, i.shiftType, amount)
    ensures DataNeeded(i, r)
  {
    ShiftedOperands(r, i.n, i.m, i.datasize, x1, z1, x2, z2);
    ShiftedNumbers(z1, z2, i.shiftType, i.n == i.m, y1, y2);
    TwoGrows(x2, y2, i.n == i.m, i.subOp);
    ShiftedWrite(j, s, x1, y1);
    ShiftedWrite(j, t, x2, y2);
    SumNeeded(i, j, r, s, t, i.d, false, i.setflags, x1, y1, x2, y2, i.subOp);
  }

  // ----- carry -----

  lemma CarryWrite(i: DataOp, s: State, x: Bits, y: Bits)
    requires WellFormedData(i) && i.AddSubCarry? && s.flags.c == i.subOp
    requires x == RX(s, i.n, i.datasize) && y == RX(s, i.m, i.datasize)
    ensures DataWrite(i, s) == SumWrite(i.d, false, i.setflags, AddOrSub(x, y, i.subOp))
  {
  }

  lemma PairOperands(f: Flags, r: Reg, n: RegIndex, m: RegIndex, N: nat, sub: bool, x1: Bits, y1: Bits, x2: Bits,
                     y2: Bits)
    requires 8 <= N <= 64 && r in XFP(n) + XFP(m) && !(sub && n == m)
    requires x1 == RX(Probe(0, f, r, 0), n, N) && x2 == RX(Probe(0, f, r, 2), n, N)
    requires y1 == RX(Probe(0, f, r, 0), m, N) && y2 == RX(Probe(0, f, r, 2), m, N)
    ensures |x1| == |y1| == |x2| == |y2| == N && UInt(x1) == UInt(y1) == 0 && Grows(x2, y2, sub)
  {
    OperandProbed(f, r, n, N, x1, x2);
    OperandProbed(f, r, m, N, y1, y2);
    SmallSums(x2, y2);
  }

  lemma AddSubCarryNeeded(i: DataOp, r: Reg)
    requires WellFormedData(i) && i.AddSubCarry? && (i.d != 31 || i.setflags)
    requires r in XFP(i.n) + XFP(i.m) && !(i.subOp && i.n == i.m)
    ensures DataNeeded(i, r)
  {
    var N, f := i.datasize, Flags(false, false, i.subOp, false);
    var s, t := Probe(0, f, r, 0), Probe(0, f, r, 2);
    ProbesDiffer(0, f, r, 0, 2);
    ProbeFlags(0, f, r, 0);
    ProbeFlags(0, f, r, 2);
    CarryFrom(i, r, f, s, t, RX(s, i.n, N), RX(s, i.m, N), RX(t, i.n, N), RX(t, i.m, N));
  }

  lemma CarryFrom(i: DataOp, r: Reg, f: Flags, s: State, t: State, x1: Bits, y1: Bits, x2: Bits, y2: Bits)
    requires WellFormedData(i) && i.AddSubCarry? && DiffersOnly(s, t, r) && (i.d != 31 || i.setflags)
    requires r in XFP(i.n) + XFP(i.m) && !(i.subOp && i.n == i.m) && f.c == i.subOp
    requires s.flags == t.flags == f
    requires s == Probe(0, f, r, 0) && t == Probe(0, f, r, 2)
    requires x1 == RX(s, i.n, i.datasize) && y1 == RX(s, i.m, i.datasize)
    requires x2 == RX(t, i.n, i.datasize) && y2 == RX(t, i.m, i.datasize)
    ensures DataNeeded(i, r)
  {
    PairOperands(f, r, i.n, i.m, i.datasize, i.subOp, x1, y1, x2, y2);
    CarryWrite(i, s, x1, y1);
    CarryWrite(i, t, x2, y2);
    SumNeeded(i, i, r, s, t, i.d, false, i.setflags, x1, y1, x2, y2, i.subOp);
  }

  // ----- flags as inputs -----

  function Flip(f: Flags, r: Reg): Flags {
    match r
    case FlagN => f.(n := !f.n)
    case FlagZ => f.(z := !f.z)
    case FlagC => f.(c := !f.c)
    case FlagV => f.(v := !f.v)
    case _ => f
  }

  lemma FlipDiffers(k: Word, f: Flags, r: Reg)
    requires r in NZCV_FP
    ensures DiffersOnly(Uniform(k, f), Uniform(k, Flip(f, r)), r)
    ensures DiffersOnly(Uniform(k, Flip(f, r)), Uniform(k, f), r)
  {
    var s, t := Uniform(k, f), Uniform(k, Flip(f, r));
    assert Read(s, r)[0] != Read(t, r)[0];
    forall q | q != r ensures Read(s, q) == Read(t, q) { }
  }

  /** Flags with which turning one flag a condition looks at decides it. */
  function Balanced(cond: Cond, r: Reg): Flags { Flags(false, false, cond / 2 == 4 && r == FlagZ, false) }

  lemma FlipDecides(cond: Cond, r: Reg)
    requires r in ConditionFP(cond)
    ensures r in NZCV_FP
    ensures ConditionHolds(cond, Balanced(cond, r)) != ConditionHolds(cond, Flip(Balanced(cond, r), r))
  {
  }

  /** Flags that make a condition hold. */
  function Holding(cond: Cond): (f: Flags)
    ensures ConditionHolds(cond, f)
  {
    Flags(cond == 4 || cond == 11, cond == 0 || cond == 13, cond == 2 || cond == 8, cond == 6)
  }

  lemma ZeroOperand(k: Word, f: Flags, n: RegIndex, w: nat)
    requires w <= 64 && k == Zeros(64)
    ensures UInt(RX(Uniform(k, f), n, w)) == 0
  {
    UIntZeros(w);
    assert RX(Uniform(k, f), n, w) == Zeros(w);
  }

  lemma OtherCarry(x: Bits, y: Bits, sub: bool)
    requires |x| == |y| > 0 && UInt(x) == UInt(y) == 0
    ensures var r := AddWithCarry(x, InvertIf(sub, y), !sub); !IsZero(r.0) && r.1.z == IsZero(r.0)
  {
    var r := AddWithCarry(x, InvertIf(sub, y), !sub).0;
    var w := if sub then Pow2(|x|) - 1 else 1;
    if sub { SubtractMeaning(x, y, false); }
    assert Pow2(1) == 2;
    Pow2Mono(1, |x|);
    ResultOf(x, InvertIf(sub, y), !sub, w);
    SmallMod(w, Pow2(|x|));
    IsZeroValue(r);
  }

  lemma CarrySumWrite(i: DataOp, s: State, x: Bits, y: Bits, c: bool)
    requires WellFormedData(i) && i.AddSubCarry? && s.flags.c == c
    requires x == RX(s, i.n, i.datasize) && y == RX(s, i.m, i.datasize)
    ensures DataWrite(i, s) == SumWrite(i.d, false, i.setflags, AddWithCarry(x, InvertIf(i.subOp, y), c))
  {
  }

  lemma CarryFlagNeeded(i: DataOp)
    requires WellFormedData(i) && i.AddSubCarry? && (i.d != 31 || i.setflags)
    ensures DataNeeded(i, FlagC)
  {
    var N, f := i.datasize, Flags(false, false, i.subOp, false);
    var s, t := Uniform(Zeros(64), f), Uniform(Zeros(64), Flip(f, FlagC));
    FlipDiffers(Zeros(64), f, FlagC);
    ZeroOperand(Zeros(64), f, i.n, N);
    ZeroOperand(Zeros(64), f, i.m, N);
    CarryFlagFrom(i, s, t, RX(s, i.n, N), RX(s, i.m, N));
  }

  lemma CarryFlagFrom(i: DataOp, s: State, t: State, x: Bits, y: Bits)
    requires WellFormedData(i) && i.AddSubCarry? && (i.d != 31 || i.setflags) && DiffersOnly(s, t, FlagC)
    requires s.flags.c == i.subOp && t.flags.c == !i.subOp
    requires x == RX(s, i.n, i.datasize) == RX(t, i.n, i.datasize) && UInt(x) == 0
    requires y == RX(s, i.m, i.datasize) == RX(t, i.m, i.datasize) && UInt(y) == 0
    ensures DataNeeded(i, FlagC)
  {
    CarryWrite(i, s, x, y);
    CarrySumWrite(i, t, x, y, !i.subOp);
    OtherSum(x, y, i.subOp, AddOrSub(x, y, i.subOp), AddWithCarry(x, InvertIf(i.subOp, y), !i.subOp));
    SumsApart(i.d, false, i.setflags, AddOrSub(x, y, i.subOp), AddWithCarry(x, InvertIf(i.subOp, y), !i.subOp));
    ShownNeeded(i, i, FlagC, s, t);
  }

  lemma OtherSum(x: Bits, y: Bits, sub: bool, sum1: (Bits, Flags), sum2: (Bits, Flags))
    requires |x| == |y| > 0 && UInt(x) == UInt(y) == 0
    requires sum1 == AddOrSub(x, y, sub) && sum2 == AddWithCarry(x, InvertIf(sub, y), !sub)
    ensures IsZero(sum1.0) && !IsZero(sum2.0) && sum1.1.z == IsZero(sum1.0) && sum2.1.z == IsZero(sum2.0)
  {
    SumIsZero(x, y, sub);
    OtherCarry(x, y, sub);
  }

  // ----- conditional compares -----

  lemma FlagsApart(f: Flags, g: Flags)
    requires f.z != g.z
    ensures Apart(FlagsWrite(f), FlagsWrite(g))
  {
  }

  /** A compare that is made twice, of zeros and of operands that differ. */
  lemma CompareNeeded(i: DataOp, j: DataOp, r: Reg, s: State, t: State, x1: Bits, y1: Bits, x2: Bits, y2: Bits,
                      sub: bool)
    requires WellFormedData(i) && WellFormedData(j) && SameForm(i, j) && DiffersOnly(s, t, r)
    requires 0 < |x1| == |y1| == |x2| == |y2| <= 64 && UInt(x1) == UInt(y1) == 0 && Grows(x2, y2, sub)
    requires DataWrite(j, s) == FlagsWrite(AddOrSub(x1, y1, sub).1)
    requires DataWrite(j, t) == FlagsWrite(AddOrSub(x2, y2, sub).1)
    ensures DataNeeded(i, r)
  {
    SumIsZero(x1, y1, sub);
    SumIsZero(x2, y2, sub);
    FlagsApart(AddOrSub(x1, y1, sub).1, AddOrSub(x2, y2, sub).1);
    ShownNeeded(i, j, r, s, t);
  }

  /** A compare that is made in one state, of zeros, and not in the other. */
  lemma ConditionNeeded(i: DataOp, j: DataOp, r: Reg, s: State, t: State, x: Bits, y: Bits, sub: bool)
    requires WellFormedData(i) && WellFormedData(j) && SameForm(i, j) && DiffersOnly(s, t, r)
    requires 0 < |x| == |y| <= 64 && UInt(x) == UInt(y) == 0
    requires DataWrite(j, s) == FlagsWrite(AddOrSub(x, y, sub).1) && DataWrite(j, t) == FlagsWrite(CLEAR)
    ensures DataNeeded(i, r)
  {
    SumIsZero(x, y, sub);
    FlagsApart(AddOrSub(x, y, sub).1, CLEAR);
    ShownNeeded(i, j, r, s, t);
  }

  lemma CompareImmediateWrite(i: DataOp, s: State, x: Bits)
    requires WellFormedData(i) && i.ConditionalCompareImmediate? && x == RX(s, i.n, i.datasize)
    ensures DataWrite(i, s)
         == FlagsWrite(if ConditionHolds(i.condition, s.flags) then AddOrSub(x, i.imm, i.subOp).1 else i.flags)
  {
  }

  lemma CompareRegisterWrite(i: DataOp, s: State, x: Bits, y: Bits)
    requires WellFormedData(i) && i.ConditionalCompareRegister?
    requires x == RX(s, i.n, i.datasize) && y == RX(s, i.m, i.datasize)
    ensures DataWrite(i, s)
         == FlagsWrite(if ConditionHolds(i.condition, s.flags) then AddOrSub(x, y, i.subOp).1 else i.flags)
  {
  }

  lemma CompareImmediateNeeded(i: DataOp, r: Reg)
    requires WellFormedData(i) && i.ConditionalCompareImmediate? && r in XFP(i.n)
    ensures DataNeeded(i, r)
  {
    var N, f := i.datasize, Holding(i.condition);
    var s, t := Probe(0, f, r, 0), Probe(0, f, r, 2);
    ProbesDiffer(0, f, r, 0, 2);
    ProbeFlags(0, f, r, 0);
    ProbeFlags(0, f, r, 2);
    CompareImmediateFrom(i, ConditionalCompareImmediate(i.n, N, i.subOp, i.condition, i.flags, Zeros(N)), r, f, s, t,
                         RX(s, i.n, N), RX(t, i.n, N), Zeros(N));
  }

  lemma SingleOperand(f: Flags, r: Reg, n: RegIndex, N: nat, sub: bool, x1: Bits, x2: Bits, zero: Bits)
    requires 8 <= N <= 64 && r in XFP(n) && zero == Zeros(N)
    requires x1 == RX(Probe(0, f, r, 0), n, N) && x2 == RX(Probe(0, f, r, 2), n, N)
    ensures |x1| == |x2| == |zero| == N && UInt(x1) == UInt(zero) == 0 && Grows(x2, zero, sub)
  {
    OperandProbed(f, r, n, N, x1, x2);
    UIntZeros(N);
    SmallSums(x2, zero);
  }

  lemma CompareImmediateFrom(i: DataOp, j: DataOp, r: Reg, f: Flags, s: State, t: State, x1: Bits, x2: Bits, zero: Bits)
    requires WellFormedData(i) && i.ConditionalCompareImmediate? && r in XFP(i.n) && DiffersOnly(s, t, r)
    requires zero == Zeros(i.datasize)
    requires j == ConditionalCompareImmediate(i.n, i.datasize, i.subOp, i.condition, i.flags, zero)
    requires s.flags == t.flags == f
    requires s == Probe(0, f, r, 0) && t == Probe(0, f, r, 2) && ConditionHolds(i.condition, f)
    requires x1 == RX(s, i.n, i.datasize) && x2 == RX(t, i.n, i.datasize)
    ensures DataNeeded(i, r)
  {
    SingleOperand(f, r, i.n, i.datasize, i.subOp, x1, x2, zero);
    CompareImmediateWrite(j, s, x1);
    CompareImmediateWrite(j, t, x2);
    CompareNeeded(i, j, r, s, t, x1, zero, x2, zero, i.subOp);
  }

  lemma CompareRegisterNeeded(i: DataOp, r: Reg)
    requires WellFormedData(i) && i.ConditionalCompareRegister?
    requires r in XFP(i.n) + XFP(i.m) && !(i.subOp && i.n == i.m)
    ensures DataNeeded(i, r)
  {
    var N, f := i.datasize, Holding(i.condition);
    var s, t := Probe(0, f, r, 0), Probe(0, f, r, 2);
    ProbesDiffer(0, f, r, 0, 2);
    ProbeFlags(0, f, r, 0);
    ProbeFlags(0, f, r, 2);
    CompareRegisterFrom(i, r, f, s, t, RX(s, i.n, N), RX(s, i.m, N), RX(t, i.n, N), RX(t, i.m, N));
  }

  lemma CompareRegisterFrom(i: DataOp, r: Reg, f: Flags, s: State, t: State, x1: Bits, y1: Bits, x2: Bits, y2: Bits)
    requires WellFormedData(i) && i.ConditionalCompareRegister? && DiffersOnly(s, t, r)
    requires r in XFP(i.n) + XFP(i.m) && !(i.subOp && i.n == i.m) && ConditionHolds(i.condition, f)
    requires s.flags == t.flags == f
    requires s == Probe(0, f, r, 0) && t == Probe(0, f, r, 2)
    requires x1 == RX(s, i.n, i.datasize) && y1 == RX(s, i.m, i.datasize)
    requires x2 == RX(t, i.n, i.datasize) && y2 == RX(t, i.m, i.datasize)
    ensures DataNeeded(i, r)
  {
    PairOperands(f, r, i.n, i.m, i.datasize, i.subOp, x1, y1, x2, y2);
    CompareRegisterWrite(i, s, x1, y1);
    CompareRegisterWrite(i, t, x2, y2);
    CompareNeeded(i, i, r, s, t, x1, y1, x2, y2, i.subOp);
  }

  /** Zero states whose flags differ in r only: in the first the condition holds, in the second it does not. */
  ghost predicate Decided(cond: Cond, r: Reg, s: State, t: State) {
    && DiffersOnly(s, t, r) && ConditionHolds(cond, s.flags) && !ConditionHolds(cond, t.flags)
    && s == Uniform(Zeros(64), s.flags)
  }

  lemma DecidedStates(cond: Cond, r: Reg) returns (s: State, t: State)
    requires r in ConditionFP(cond)
    ensures Decided(cond, r, s, t)
  {
    var f := Balanced(cond, r);
    FlipDecides(cond, r);
    FlipDiffers(Zeros(64), f, r);
    s, t := Uniform(Zeros(64), f), Uniform(Zeros(64), Flip(f, r));
    if !ConditionHolds(cond, f) { s, t := t, s; }
  }

  lemma CompareImmediateFlagNeeded(i: DataOp, r: Reg)
    requires WellFormedData(i) && i.ConditionalCompareImmediate? && r in ConditionFP(i.condition)
    ensures DataNeeded(i, r)
  {
    var N := i.datasize;
    var j := ConditionalCompareImmediate(i.n, N, i.subOp, i.condition, CLEAR, Zeros(N));
    var s, t := DecidedStates(i.condition, r);
    var x := RX(s, i.n, N);
    ZeroOperand(Zeros(64), s.flags, i.n, N);
    UIntZeros(N);
    CompareImmediateWrite(j, s, x);
    CompareImmediateWrite(j, t, RX(t, i.n, N));
    ConditionNeeded(i, j, r, s, t, x, Zeros(N), i.subOp);
  }

  lemma CompareRegisterFlagNeeded(i: DataOp, r: Reg)
    requires WellFormedData(i) && i.ConditionalCompareRegister? && r in ConditionFP(i.condition)
    ensures DataNeeded(i, r)
  {
    var N := i.datasize;
    var j := ConditionalCompareRegister(i.n, i.m, N, i.subOp, i.condition, CLEAR);
    var s, t := DecidedStates(i.condition, r);
    ZeroOperand(Zeros(64), s.flags, i.n, N);
    ZeroOperand(Zeros(64), s.flags, i.m, N);
    CompareRegisterWrite(j, s, RX(s, i.n, N), RX(s, i.m, N));
    CompareRegisterWrite(j, t, RX(t, i.n, N), RX(t, i.m, N));
    ConditionNeeded(i, j, r, s, t, RX(s, i.n, N), RX(s, i.m, N), i.subOp);
  }

  // ----- inputs that make no difference -----

  /** x - x with a borrow or without does not depend on x. */
  lemma SelfDifference(x: Bits, y: Bits, c: bool)
    requires |x| == |y| > 0
    ensures AddWithCarry(x, Not(x), c) == AddWithCarry(y, Not(y), c)
  {
    SubtractMeaning(x, x, c);
    SubtractMeaning(y, y, c);
  }

  lemma SameFlagsExcept(s: State, t: State, r: Reg)
    requires DiffersOnly(s, t, r) && r.R?
    ensures s.flags == t.flags
  {
    AgreeExcept(s, t, r, NZCV_FP);
    AgreeFlagBits(s, t, NZCV_FP);
  }

  lemma SelfCarryWrite(i: DataOp, s: State, t: State, x: Bits, y: Bits)
    requires WellFormedData(i) && i.AddSubCarry? && i.subOp && i.n == i.m && s.flags == t.flags
    requires x == RX(s, i.n, i.datasize) && y == RX(t, i.n, i.datasize)
    ensures DataWrite(i, s) == DataWrite(i, t)
  {
    CarrySumWrite(i, s, x, x, s.flags.c);
    CarrySumWrite(i, t, y, y, s.flags.c);
    SelfDifference(x, y, s.flags.c);
  }

  lemma SelfCompareWrite(i: DataOp, s: State, t: State, x: Bits, y: Bits)
    requires WellFormedData(i) && i.ConditionalCompareRegister? && i.subOp && i.n == i.m && s.flags == t.flags
    requires x == RX(s, i.n, i.datasize) && y == RX(t, i.n, i.datasize)
    ensures DataWrite(i, s) == DataWrite(i, t)
  {
    CompareRegisterWrite(i, s, x, x);
    CompareRegisterWrite(i, t, y, y);
    SelfDifference(x, y, true);
  }

  lemma CarryIndifferent(i: DataOp)
    requires WellFormedData(i) && i.AddSubCarry? && i.subOp && i.n == i.m && i.n != 31
    ensures DataIndifferent(i, R(i.n))
  {
    forall j: DataOp, s: State, t: State | WellFormedData(j) && SameForm(i, j) && DiffersOnly(s, t, R(i.n))
      ensures Alike(DataWrite(j, s), DataWrite(j, t))
    {
      SameFlagsExcept(s, t, R(i.n));
      SelfCarryWrite(j, s, t, RX(s, i.n, i.datasize), RX(t, i.n, i.datasize));
    }
  }

  lemma CompareIndifferent(i: DataOp)
    requires WellFormedData(i) && i.ConditionalCompareRegister? && i.subOp && i.n == i.m && i.n != 31
    ensures DataIndifferent(i, R(i.n))
  {
    forall j: DataOp, s: State, t: State | WellFormedData(j) && SameForm(i, j) && DiffersOnly(s, t, R(i.n))
      ensures Alike(DataWrite(j, s), DataWrite(j, t))
    {
      SameFlagsExcept(s, t, R(i.n));
      SelfCompareWrite(j, s, t, RX(s, i.n, i.datasize), RX(t, i.n, i.datasize));
    }
  }

  /** At EL0 the stack selection is announced but makes no difference. */
  lemma SelectionIndifferent(i: DataOp)
    requires WellFormedData(i)
    ensures DataIndifferent(i, SpSel)
  {
    forall j: DataOp, s: State, t: State | WellFormedData(j) && SameForm(i, j) && DiffersOnly(s, t, SpSel)
      ensures Alike(DataWrite(j, s), DataWrite(j, t))
    {
      OtherSelection(s, t);
      WriteIgnoresSelection(j, s, t.spSel);
    }
  }

  lemma OtherSelection(s: State, t: State)
    requires DiffersOnly(s, t, SpSel)
    ensures t == s.(spSel := t.spSel)
  {
    var u := s.(spSel := t.spSel);
    forall q ensures Read(u, q) == Read(t, q) { if q != SpSel { assert Read(u, q) == Read(s, q); } }
    SameState(u, t);
  }

  lemma WriteIgnoresSelection(i: DataOp, s: State, b: bool)
    requires WellFormedData(i)
    ensures DataWrite(i, s) == DataWrite(i, s.(spSel := b))
  {
    if i.AddSubImmediate? || i.AddSubExtendRegister? || i.AddSubShiftedRegister? || i.AddSubCarry?
      || i.ConditionalCompareImmediate? || i.ConditionalCompareRegister? || i.ConditionalSelect? {
      SumIgnoresSelection(i, s, b);
    } else if i.MultiplyAddSub? || i.MultiplyAddSubLong? || i.MultiplyHigh? || i.Division? || i.Shift? || i.CRC? {
      ProductIgnoresSelection(i, s, b);
    } else if i.LogicalImmediate? || i.LogicalShiftedRegister? || i.MoveWide? || i.BitfieldMove? {
      LogicIgnoresSelection(i, s, b);
    } else {
      BitsIgnoreSelection(i, s, b);
    }
  }

  lemma LogicIgnoresSelection(i: DataOp, s: State, b: bool)
    requires WellFormedData(i)
    requires i.LogicalImmediate? || i.LogicalShiftedRegister? || i.MoveWide? || i.BitfieldMove?
    ensures DataWrite(i, s) == DataWrite(i, s.(spSel := b))
  {
  }

  lemma SumIgnoresSelection(i: DataOp, s: State, b: bool)
    requires WellFormedData(i)
    requires i.AddSubImmediate? || i.AddSubExtendRegister? || i.AddSubShiftedRegister? || i.AddSubCarry?
          || i.ConditionalCompareImmediate? || i.ConditionalCompareRegister? || i.ConditionalSelect?
    ensures DataWrite(i, s) == DataWrite(i, s.(spSel := b))
  {
  }

  lemma ProductIgnoresSelection(i: DataOp, s: State, b: bool)
    requires WellFormedData(i)
    requires i.MultiplyAddSub? || i.MultiplyAddSubLong? || i.MultiplyHigh? || i.Division? || i.Shift? || i.CRC?
    ensures DataWrite(i, s) == DataWrite(i, s.(spSel := b))
  {
  }

  lemma BitsIgnoreSelection(i: DataOp, s: State, b: bool)
    requires WellFormedData(i)
    requires i.ExtractRegister? || i.Address? || i.Reverse? || i.CountLeading?
    ensures DataWrite(i, s) == DataWrite(i, s.(spSel := b))
  {
  }
}
