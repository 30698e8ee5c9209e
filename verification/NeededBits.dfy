/** Which announced inputs the shifts, checksums and logical instructions need. */
module NeededBits {
  import opened Ints
  import opened BitVectors
  import opened Shifts
  import opened A64Lib
  import opened Gf2
  import opened Instructions
  import opened Semantics
  import opened Footprint
  import opened FootprintNeeded
  import opened NeededSums
  import opened NeededValues

  // ----- words in one register -----

  /** The word whose only one is bit k. */
  function One(k: nat): (w: Word)
    requires k < 64
    ensures forall j :: 0 <= j < 64 ==> w[j] == (j == k)
  {
    Zeros(k) + [true] + Zeros(63 - k)
  }

  /** Registers holding word k, and the word v in register r. */
  ghost function Trial(k: Word, r: Reg, v: Word): State
    requires Placeable(r)
  {
    Place(Uniform(k, CLEAR), r, v)
  }

  lemma TrialSource(k: Word, r: Reg, v: Word, n: RegIndex, w: nat, x: Bits)
    requires Placeable(r) && w <= 64 && x == RX(Trial(k, r, v), n, w)
    ensures |x| == w && x == Held(k, r, v, n)[..w]
  {
    HeldReads(k, CLEAR, r, v, n, w);
  }

  lemma TrialsDiffer(k: Word, r: Reg, v: Word, u: Word, b: nat)
    requires Placeable(r) && b < 64 && v[b] != u[b]
    ensures DiffersOnly(Trial(k, r, v), Trial(k, r, u), r)
  {
    PlaceDiffers(Uniform(k, CLEAR), r, v, u);
  }

  // ----- shifts by a register -----

  lemma ShiftValue(i: DataOp, s: State, x: Bits, amount: nat)
    requires WellFormedData(i) && i.Shift? && x == RX(s, i.n, i.datasize)
    requires amount == Residue(UInt(RX(s, i.m, i.datasize)), i.datasize)
    ensures DataWrite(i, s) == ValueWrite(i.d, ShiftReg(x, i.shiftType, amount))
  {
  }

  /** A register shifted by zero. */
  lemma UnshiftedFrom(i: DataOp, r: Reg, s: State, t: State, x1: Bits, x2: Bits)
    requires WellFormedData(i) && i.Shift? && i.d != 31 && DiffersOnly(s, t, r)
    requires x1 == RX(s, i.n, i.datasize) && x2 == RX(t, i.n, i.datasize) && x1 != x2
    requires Residue(UInt(RX(s, i.m, i.datasize)), i.datasize) == 0
    requires Residue(UInt(RX(t, i.m, i.datasize)), i.datasize) == 0
    ensures DataNeeded(i, r)
  {
    ShiftValue(i, s, x1, 0);
    ShiftValue(i, t, x2, 0);
    NoShift(x1, i.shiftType);
    NoShift(x2, i.shiftType);
    ValueNeeded(i, i, r, s, t, i.d, x1, x2);
  }

  lemma ShiftSourceNeeded(i: DataOp, r: Reg)
    requires WellFormedData(i) && i.Shift? && i.d != 31 && r in XFP(i.n)
    ensures DataNeeded(i, r)
  {
    if i.n == i.m { ShiftSelfNeeded(i, r); } else { ShiftOtherNeeded(i, r); }
  }

  lemma ShiftOtherNeeded(i: DataOp, r: Reg)
    requires WellFormedData(i) && i.Shift? && i.d != 31 && r in XFP(i.n) && i.n != i.m
    ensures DataNeeded(i, r)
  {
    var N := i.datasize;
    var s, t := Probe(0, CLEAR, r, 0), Probe(0, CLEAR, r, 2);
    ProbesDiffer(0, CLEAR, r, 0, 2);
    OperandProbed(CLEAR, r, i.n, N, RX(s, i.n, N), RX(t, i.n, N));
    OperandProbed(CLEAR, r, i.m, N, RX(s, i.m, N), RX(t, i.m, N));
    SmallMod(0, N);
    UnshiftedFrom(i, r, s, t, RX(s, i.n, N), RX(t, i.n, N));
  }

  /** A register shifted by itself: its width is no shift. */
  lemma ShiftSelfNeeded(i: DataOp, r: Reg)
    requires WellFormedData(i) && i.Shift? && i.d != 31 && r in XFP(i.n) && i.n == i.m
    ensures DataNeeded(i, r)
  {
    var N := i.datasize;
    var zero: Word, width: Word := ToBits(64, 0), ToBits(64, N);
    var s, t := Trial(zero, r, zero), Trial(zero, r, width);
    WidthsDiffer(N, r, zero, width);
    WidthSource(N, zero, r, zero, i.n, 0, RX(s, i.n, N));
    WidthSource(N, zero, r, width, i.n, N, RX(t, i.n, N));
    UnshiftedFrom(i, r, s, t, RX(s, i.n, N), RX(t, i.n, N));
  }

  lemma WidthsDiffer(N: nat, r: Reg, zero: Word, width: Word)
    requires N in {32, 64} && Placeable(r) && zero == ToBits(64, 0) && width == ToBits(64, N)
    ensures DiffersOnly(Trial(zero, r, zero), Trial(zero, r, width), r)
  {
    WidthPart(64, 0);
    WidthPart(64, N);
    PlaceDiffers(Uniform(zero, CLEAR), r, zero, width);
  }

  lemma WidthSource(N: nat, zero: Word, r: Reg, v: Word, n: RegIndex, k: nat, x: Bits)
    requires N in {32, 64} && r in XFP(n) && v == ToBits(64, k) && (k == 0 || k == N)
    requires x == RX(Trial(zero, r, v), n, N)
    ensures UInt(x) == k && Residue(UInt(x), N) == 0
  {
    TrialSource(zero, r, v, n, N, x);
    WidthPart(N, k);
    if k == 0 { SmallMod(0, N); } else { DivModUnique(N, N, 1, 0); }
  }

  lemma WidthPart(w: nat, v: nat)
    requires 8 <= w <= 64 && v in {0, 32, 64} && (v > 0 ==> w >= 32)
    ensures UInt(ToBits(64, v)[..w]) == v
  {
    assert ToBits(64, v)[..w] == ToBits(w, v);
    assert Pow2(7) == 128;
    Pow2Mono(7, w);
    SmallNumber(w, v);
  }

  lemma ShiftAmountNeeded(i: DataOp, r: Reg)
    requires WellFormedData(i) && i.Shift? && i.d != 31 && r in XFP(i.m) && i.n != i.m && i.n != 31
    ensures DataNeeded(i, r)
  {
    var N := i.datasize;
    var s, t := Probe(2, CLEAR, r, 0), Probe(2, CLEAR, r, 1);
    ProbesDiffer(2, CLEAR, r, 0, 1);
    ProbeNumber(2, CLEAR, r, 0, i.n, N);
    ProbeNumber(2, CLEAR, r, 1, i.n, N);
    ProbeNumber(2, CLEAR, r, 0, i.m, N);
    ProbeNumber(2, CLEAR, r, 1, i.m, N);
    SmallMod(0, N);
    SmallMod(1, N);
    ShiftedOnceFrom(i, r, s, t, RX(s, i.n, N), RX(t, i.n, N));
  }

  lemma ShiftedOnceFrom(i: DataOp, r: Reg, s: State, t: State, x1: Bits, x2: Bits)
    requires WellFormedData(i) && i.Shift? && i.d != 31 && DiffersOnly(s, t, r)
    requires x1 == RX(s, i.n, i.datasize) && x2 == RX(t, i.n, i.datasize)
    requires UInt(x1) == 2 && UInt(x2) == SInt(x2) == 2
    requires Residue(UInt(RX(s, i.m, i.datasize)), i.datasize) == 0
    requires Residue(UInt(RX(t, i.m, i.datasize)), i.datasize) == 1
    ensures DataNeeded(i, r)
  {
    ShiftValue(i, s, x1, 0);
    ShiftValue(i, t, x2, 1);
    NoShift(x1, i.shiftType);
    ShiftTwo(x2, i.shiftType);
    ValueNeeded(i, i, r, s, t, i.d, x1, ShiftReg(x2, i.shiftType, 1));
  }

  /** How far the zero register is shifted makes no difference. */
  lemma ShiftAmountIndifferent(i: DataOp, r: Reg)
    requires WellFormedData(i) && i.Shift? && i.n == 31
    ensures DataIndifferent(i, r)
  {
    forall j: DataOp, s: State, t: State | WellFormedData(j) && SameForm(i, j) && DiffersOnly(s, t, r)
      ensures Alike(DataWrite(j, s), DataWrite(j, t))
    {
      ShiftedZerosAlike(i, s, t);
    }
  }

  lemma ShiftedZerosAlike(i: DataOp, s: State, t: State)
    requires WellFormedData(i) && i.Shift? && i.n == 31
    ensures Alike(DataWrite(i, s), DataWrite(i, t))
  {
    ShiftedZeroWrite(i, s, Residue(UInt(RX(s, i.m, i.datasize)), i.datasize));
    ShiftedZeroWrite(i, t, Residue(UInt(RX(t, i.m, i.datasize)), i.datasize));
  }

  lemma ShiftedZeroWrite(i: DataOp, s: State, amount: nat)
    requires WellFormedData(i) && i.Shift? && i.n == 31
    requires amount == Residue(UInt(RX(s, i.m, i.datasize)), i.datasize)
    ensures DataWrite(i, s) == ValueWrite(i.d, Zeros(i.datasize))
  {
    ShiftValue(i, s, Zeros(i.datasize), amount);
    ShiftZero(Zeros(i.datasize), i.shiftType, amount);
    assert ShiftReg(Zeros(i.datasize), i.shiftType, amount) == Zeros(i.datasize);
  }

  // ----- checksums -----

  lemma CrcValue(i: DataOp, s: State, acc: Bits, val: Bits)
    requires WellFormedData(i) && i.CRC? && acc == RX(s, i.n, 32) && val == RX(s, i.m, i.size)
    ensures DataWrite(i, s) == ValueWrite(i.d, CrcStep(acc, val, CrcPoly(i.crc32c)))
  {
  }

  lemma CrcFrom(i: DataOp, r: Reg, s: State, t: State, acc1: Bits, val1: Bits, acc2: Bits, val2: Bits)
    requires WellFormedData(i) && i.CRC? && i.d != 31 && DiffersOnly(s, t, r)
    requires acc1 == RX(s, i.n, 32) && val1 == RX(s, i.m, i.size)
    requires acc2 == RX(t, i.n, 32) && val2 == RX(t, i.m, i.size)
    requires CrcStep(acc1, val1, CrcPoly(i.crc32c)) != CrcStep(acc2, val2, CrcPoly(i.crc32c))
    ensures DataNeeded(i, r)
  {
    CrcValue(i, s, acc1, val1);
    CrcValue(i, t, acc2, val2);
    ValueNeeded(i, i, r, s, t, i.d, CrcStep(acc1, val1, CrcPoly(i.crc32c)), CrcStep(acc2, val2, CrcPoly(i.crc32c)));
  }

  lemma CrcZero(k: nat, poly: Bits)
    ensures CrcStep(Zeros(|poly|), Zeros(k), poly) == Zeros(|poly|)
  {
    var a, v := Zeros(|poly|), Zeros(k);
    CrcLinear(a, a, v, v, poly);
    XorSelf(a, a);
    XorSelf(v, v);
    XorSelf(CrcStep(a, v, poly), CrcStep(a, v, poly));
  }

  /** A value whose only one is its top bit is told apart from zero. */
  lemma TopApart(w: nat, crc32c: bool)
    requires w > 0
    ensures var p := CrcPoly(crc32c); CrcStep(Zeros(32), Zeros(w - 1) + [true], p) != CrcStep(Zeros(32), Zeros(w), p)
  {
    var p := CrcPoly(crc32c);
    CrcPolyTerms(crc32c, 0);
    CrcTopBit(w, p);
    CrcZero(w, p);
    assert Reversed(p)[31] == p[0];
  }

  lemma CrcAccumulatorNeeded(i: DataOp, r: Reg)
    requires WellFormedData(i) && i.CRC? && i.d != 31 && r in XFP(i.n) && (i.n == i.m ==> i.size < 32)
    ensures DataNeeded(i, r)
  {
    var zero: Word := Zeros(64);
    var s, t := Trial(zero, r, zero), Trial(zero, r, One(31));
    TrialsDiffer(zero, r, zero, One(31), 31);
    var acc1, val1, acc2, val2 := RX(s, i.n, 32), RX(s, i.m, i.size), RX(t, i.n, 32), RX(t, i.m, i.size);
    TrialSource(zero, r, zero, i.n, 32, acc1);
    TrialSource(zero, r, One(31), i.n, 32, acc2);
    TrialSource(zero, r, zero, i.m, i.size, val1);
    TrialSource(zero, r, One(31), i.m, i.size, val2);
    SameValue(val1, val2, i.size);
    assert acc1[31] != acc2[31];
    CrcPolyTerms(i.crc32c, 0);
    CrcKeepsAccumulators(acc1, acc2, val1, CrcPoly(i.crc32c));
    CrcFrom(i, r, s, t, acc1, val1, acc2, val2);
  }

  lemma SameValue(v: Bits, w: Bits, n: nat)
    requires |v| == |w| == n && forall k :: 0 <= k < n ==> !v[k] && !w[k]
    ensures v == w == Zeros(n)
  {
  }

  lemma CrcValueNeeded(i: DataOp, r: Reg)
    requires WellFormedData(i) && i.CRC? && i.d != 31 && r in XFP(i.m) && (i.n == i.m ==> i.size == 64)
    ensures DataNeeded(i, r)
  {
    var zero: Word, top := Zeros(64), One(i.size - 1);
    var s, t := Trial(zero, r, zero), Trial(zero, r, top);
    TrialsDiffer(zero, r, zero, top, i.size - 1);
    var acc1, val1, acc2, val2 := RX(s, i.n, 32), RX(s, i.m, i.size), RX(t, i.n, 32), RX(t, i.m, i.size);
    TrialSource(zero, r, zero, i.n, 32, acc1);
    TrialSource(zero, r, top, i.n, 32, acc2);
    TrialSource(zero, r, zero, i.m, i.size, val1);
    TrialSource(zero, r, top, i.m, i.size, val2);
    SameValue(acc1, acc2, 32);
    TopParts(i.size, val1, val2);
    TopApart(i.size, i.crc32c);
    CrcFrom(i, r, s, t, acc1, val1, acc2, val2);
  }

  lemma TopParts(w: nat, v1: Bits, v2: Bits)
    requires 0 < w <= 64 && v1 == Zeros(64)[..w] && v2 == One(w - 1)[..w]
    ensures v1 == Zeros(w) && v2 == Zeros(w - 1) + [true]
  {
  }

  /** A word checked against itself leaves nothing. */
  lemma SelfCrc(x: Bits, y: Bits, poly: Bits)
    requires |x| == |y| == |poly|
    ensures CrcStep(x, x, poly) == CrcStep(y, y, poly)
  {
    SelfDividend(Reversed(x));
    SelfDividend(Reversed(y));
  }

  lemma SelfDividend(a: Bits)
    ensures Dividend(a, a) == Zeros(|a| + |a|)
  {
    XorSelf(Concat(a, Zeros(|a|)), Concat(a, Zeros(|a|)));
  }

  lemma CrcIndifferent(i: DataOp, r: Reg)
    requires WellFormedData(i) && i.CRC? && i.n == i.m && i.size == 32
    ensures DataIndifferent(i, r)
  {
    forall j: DataOp, s: State, t: State | WellFormedData(j) && SameForm(i, j) && DiffersOnly(s, t, r)
      ensures Alike(DataWrite(j, s), DataWrite(j, t))
    {
      CrcValue(i, s, RX(s, i.n, 32), RX(s, i.n, 32));
      CrcValue(i, t, RX(t, i.n, 32), RX(t, i.n, 32));
      SelfCrc(RX(s, i.n, 32), RX(t, i.n, 32), CrcPoly(i.crc32c));
    }
  }
}
