/** Which announced inputs the logical instructions need. */
module NeededLogic {
  import opened Wrappers
  import opened Ints
  import opened BitVectors
  import opened CommonLib
  import opened Shifts
  import opened A64Lib
  import opened Instructions
  import opened Semantics
  import opened Footprint
  import opened FootprintNeeded
  import opened NeededSums
  import opened NeededBits

  // ----- results that show -----

  /** Results that the sign or zero flag tells apart, or that a register shows. */
  predicate Distinct(d: RegIndex, v: Bits, w: Bits)
    requires |v| == |w| > 0
  {
    v[|v| - 1] != w[|w| - 1] || IsZero(v) != IsZero(w) || (d != 31 && v != w)
  }

  lemma LogicalApart(d: RegIndex, spAllowed: bool, setflags: bool, v: Bits, w: Bits)
    requires 0 < |v| == |w| <= 64 && Distinct(d, v, w) && (d != 31 || spAllowed || setflags)
    ensures Apart(LogicalWrite(d, spAllowed, setflags, v), LogicalWrite(d, spAllowed, setflags, w))
  {
  }

  lemma LogicalNeeded(i: DataOp, j: DataOp, r: Reg, s: State, t: State, d: RegIndex, spAllowed: bool, setflags: bool,
                      v: Bits, w: Bits)
    requires WellFormedData(i) && WellFormedData(j) && SameForm(i, j) && DiffersOnly(s, t, r)
    requires 0 < |v| == |w| <= 64 && Distinct(d, v, w) && (d != 31 || spAllowed || setflags)
    requires DataWrite(j, s) == LogicalWrite(d, spAllowed, setflags, v)
    requires DataWrite(j, t) == LogicalWrite(d, spAllowed, setflags, w)
    ensures DataNeeded(i, r)
  {
    LogicalApart(d, spAllowed, setflags, v, w);
    ShownNeeded(i, j, r, s, t);
  }

  // ----- immediates -----

  lemma LogicalImmediateValue(i: DataOp, s: State, x: Bits)
    requires WellFormedData(i) && i.LogicalImmediate? && x == RX(s, i.n, i.datasize)
    ensures DataWrite(i, s) == LogicalWrite(i.d, true, i.setflags, BitsOp(i.bitOp, x, i.imm))
  {
  }

  /** An immediate with a single one: the top bit to keep it, the lowest bit to leave the top alone. */
  function SingleOne(op: BitOp, n: nat): (b: Bits)
    requires n >= 8
    ensures |b| == n && b[n - 1] == (op == AndOp) && b != Zeros(n) && b != Ones(n)
  {
    if op == AndOp then TopOne(n) else LowOne(n)
  }

  function TopOne(n: nat): (b: Bits)
    requires n >= 8
    ensures |b| == n && b[n - 1] && b != Zeros(n) && b != Ones(n)
  {
    var b := Zeros(n - 1) + [true];
    assert b[n - 1] != Zeros(n)[n - 1] && b[0] != Ones(n)[0];
    b
  }

  function LowOne(n: nat): (b: Bits)
    requires n >= 8
    ensures |b| == n && !b[n - 1] && b != Zeros(n) && b != Ones(n)
  {
    var b := [true] + Zeros(n - 1);
    assert b[0] != Zeros(n)[0] && b[1] != Ones(n)[1];
    b
  }

  lemma LogicalImmediateNeeded(i: DataOp, r: Reg)
    requires WellFormedData(i) && i.LogicalImmediate? && r in XFP(i.n)
    ensures DataNeeded(i, r)
  {
    var N := i.datasize;
    var j := LogicalImmediate(i.d, i.n, N, i.setflags, i.bitOp, SingleOne(i.bitOp, N));
    var zero: Word := Zeros(64);
    var s, t := Trial(zero, r, zero), Trial(zero, r, One(N - 1));
    TrialsDiffer(zero, r, zero, One(N - 1), N - 1);
    TrialSource(zero, r, zero, i.n, N, RX(s, i.n, N));
    TrialSource(zero, r, One(N - 1), i.n, N, RX(t, i.n, N));
    ImmediateLogicFrom(i, j, r, s, t, RX(s, i.n, N), RX(t, i.n, N));
  }

  lemma ImmediateLogicFrom(i: DataOp, j: DataOp, r: Reg, s: State, t: State, x1: Bits, x2: Bits)
    requires WellFormedData(i) && i.LogicalImmediate? && DiffersOnly(s, t, r)
    requires j == LogicalImmediate(i.d, i.n, i.datasize, i.setflags, i.bitOp, SingleOne(i.bitOp, i.datasize))
    requires x1 == RX(s, i.n, i.datasize) && x2 == RX(t, i.n, i.datasize) && !x1[i.datasize - 1] && x2[i.datasize - 1]
    ensures DataNeeded(i, r)
  {
    LogicalImmediateValue(j, s, x1);
    LogicalImmediateValue(j, t, x2);
    LogicalNeeded(i, j, r, s, t, i.d, true, i.setflags, BitsOp(i.bitOp, x1, j.imm), BitsOp(i.bitOp, x2, j.imm));
  }

  // ----- shifted registers -----

  lemma LogicalShiftedValue(i: DataOp, s: State, x: Bits, y: Bits)
    requires WellFormedData(i) && i.LogicalShiftedRegister? && x == RX(s, i.n, i.datasize)
    requires y == InvertIf(i.invert, ShiftReg(RX(s, i.m, i.datasize), i.shiftType, i.amount))
    ensures DataWrite(i, s) == LogicalWrite(i.d, false, i.setflags, BitsOp(i.bitOp, x, y))
  {
  }

  function WithAmount(i: DataOp, amount: nat): DataOp
    requires i.LogicalShiftedRegister?
  {
    LogicalShiftedRegister(i.d, i.n, i.m, i.datasize, i.setflags, i.bitOp, i.shiftType, amount, i.invert)
  }

  lemma ShiftedLogicFrom(i: DataOp, r: Reg, s: State, t: State, amount: nat, x1: Bits, y1: Bits, x2: Bits, y2: Bits)
    requires WellFormedData(i) && i.LogicalShiftedRegister? && DiffersOnly(s, t, r) && amount < 8
    requires i.d != 31 || i.setflags
    requires x1 == RX(s, i.n, i.datasize) && x2 == RX(t, i.n, i.datasize)
    requires y1 == InvertIf(i.invert, ShiftReg(RX(s, i.m, i.datasize), i.shiftType, amount))
    requires y2 == InvertIf(i.invert, ShiftReg(RX(t, i.m, i.datasize), i.shiftType, amount))
    requires Distinct(i.d, BitsOp(i.bitOp, x1, y1), BitsOp(i.bitOp, x2, y2))
    ensures DataNeeded(i, r)
  {
    var j := WithAmount(i, amount);
    LogicalShiftedValue(j, s, x1, y1);
    LogicalShiftedValue(j, t, x2, y2);
    LogicalNeeded(i, j, r, s, t, i.d, false, i.setflags, BitsOp(i.bitOp, x1, y1), BitsOp(i.bitOp, x2, y2));
  }

  // two different registers, unshifted

  /** A word for the other register that lets the first one through. */
  function Passing(i: DataOp): Word
    requires i.LogicalShiftedRegister?
  {
    if (i.bitOp == AndOp && !i.invert) || (i.bitOp == OrOp && i.invert) then Ones(64) else Zeros(64)
  }

  /** The second operand hides the first: nothing passes an and with zeros or an or with ones. */
  predicate Hidden(i: DataOp)
    requires i.LogicalShiftedRegister?
  {
    i.m == 31 && ((i.bitOp == AndOp && !i.invert) || (i.bitOp == OrOp && i.invert))
  }

  lemma LogicalFirstNeeded(i: DataOp, r: Reg)
    requires WellFormedData(i) && i.LogicalShiftedRegister? && (i.d != 31 || i.setflags)
    requires i.n != i.m && r in XFP(i.n) && !Hidden(i)
    ensures DataNeeded(i, r)
  {
    var N, k, zero: Word := i.datasize, Passing(i), Zeros(64);
    var s, t := Trial(k, r, zero), Trial(k, r, One(N - 1));
    TrialsDiffer(k, r, zero, One(N - 1), N - 1);
    TrialSource(k, r, zero, i.n, N, RX(s, i.n, N));
    TrialSource(k, r, One(N - 1), i.n, N, RX(t, i.n, N));
    TrialSource(k, r, zero, i.m, N, RX(s, i.m, N));
    TrialSource(k, r, One(N - 1), i.m, N, RX(t, i.m, N));
    FirstOperandFrom(i, r, s, t, RX(s, i.n, N), RX(t, i.n, N), RX(s, i.m, N), k);
  }

  lemma FirstOperandFrom(i: DataOp, r: Reg, s: State, t: State, x1: Bits, x2: Bits, z: Bits, k: Word)
    requires WellFormedData(i) && i.LogicalShiftedRegister? && DiffersOnly(s, t, r) && (i.d != 31 || i.setflags)
    requires !Hidden(i) && k == Passing(i)
    requires x1 == RX(s, i.n, i.datasize) && x2 == RX(t, i.n, i.datasize)
    requires z == RX(s, i.m, i.datasize) == RX(t, i.m, i.datasize)
    requires !x1[i.datasize - 1] && x2[i.datasize - 1] && z[i.datasize - 1] == (i.m != 31 && k[i.datasize - 1])
    ensures DataNeeded(i, r)
  {
    NoShift(z, i.shiftType);
    ShiftedLogicFrom(i, r, s, t, 0, x1, InvertIf(i.invert, z), x2, InvertIf(i.invert, z));
  }

  lemma LogicalSecondNeeded(i: DataOp, r: Reg)
    requires WellFormedData(i) && i.LogicalShiftedRegister? && (i.d != 31 || i.setflags)
    requires i.n != i.m && r in XFP(i.m) && !(i.n == 31 && i.bitOp == AndOp)
    ensures DataNeeded(i, r)
  {
    var N, zero: Word := i.datasize, Zeros(64);
    var k: Word := if i.bitOp == AndOp then Ones(64) else Zeros(64);
    var s, t := Trial(k, r, zero), Trial(k, r, One(N - 1));
    TrialsDiffer(k, r, zero, One(N - 1), N - 1);
    TrialSource(k, r, zero, i.n, N, RX(s, i.n, N));
    TrialSource(k, r, One(N - 1), i.n, N, RX(t, i.n, N));
    TrialSource(k, r, zero, i.m, N, RX(s, i.m, N));
    TrialSource(k, r, One(N - 1), i.m, N, RX(t, i.m, N));
    SecondOperandFrom(i, r, s, t, RX(s, i.n, N), RX(s, i.m, N), RX(t, i.m, N));
  }

  lemma SecondOperandFrom(i: DataOp, r: Reg, s: State, t: State, x: Bits, z1: Bits, z2: Bits)
    requires WellFormedData(i) && i.LogicalShiftedRegister? && DiffersOnly(s, t, r) && (i.d != 31 || i.setflags)
    requires x == RX(s, i.n, i.datasize) == RX(t, i.n, i.datasize) && x[i.datasize - 1] == (i.bitOp == AndOp)
    requires z1 == RX(s, i.m, i.datasize) && z2 == RX(t, i.m, i.datasize)
    requires !z1[i.datasize - 1] && z2[i.datasize - 1]
    ensures DataNeeded(i, r)
  {
    NoShift(z1, i.shiftType);
    NoShift(z2, i.shiftType);
    ShiftedLogicFrom(i, r, s, t, 0, x, InvertIf(i.invert, z1), x, InvertIf(i.invert, z2));
  }

  // one register twice

  /** Bit k of a register shifted by one. */
  lemma ShiftBit(x: Bits, stype: ShiftType, k: nat)
    requires |x| >= 8 && k < |x|
    ensures ShiftReg(x, stype, 1)[k]
         == match stype
            case ShiftLSL => k > 0 && x[k - 1]
            case ShiftLSR => k + 1 < |x| && x[k + 1]
            case ShiftASR => x[if k + 1 < |x| then k + 1 else k]
            case ShiftROR => x[if k + 1 < |x| then k + 1 else 0]
  {
    match stype
    case ShiftLSL => LslAt(x, 1, k);
    case ShiftLSR => LsrAt(x, 1, k);
    case ShiftASR => AsrAt(x, 1, k);
    case ShiftROR =>
      SmallMod(1, |x|);
      RorBit(x, 1, 1, k, if k + 1 < |x| then k + 1 else 0);
  }

  /** The sign of a register or-ed or xor-ed with its complement, shifted right, is always one. */
  predicate SignFixed(i: DataOp)
    requires i.LogicalShiftedRegister?
  {
    i.invert && ((i.bitOp == OrOp && (i.shiftType == ShiftLSR || i.shiftType == ShiftASR))
                 || (i.bitOp == XorOp && i.shiftType == ShiftASR))
  }

  /** The one bit and the amount with which a register combined with itself shows. */
  function TrialBit(i: DataOp): (b: nat)
    requires i.LogicalShiftedRegister? && Width(i.datasize)
    ensures b < i.datasize
  {
    if i.bitOp == AndOp || (!i.invert && i.bitOp == XorOp) || SignFixed(i) then 1
    else if !i.invert then i.datasize - 1
    else
      match i.shiftType
      case ShiftLSL => i.datasize - 2
      case ShiftLSR => i.datasize - 1
      case ShiftASR => 1
      case ShiftROR => 0
  }

  function TrialAmount(i: DataOp): nat
    requires i.LogicalShiftedRegister?
  {
    if !i.invert && i.bitOp != XorOp then 0 else 1
  }

  lemma LogicalSelfNeeded(i: DataOp, r: Reg)
    requires WellFormedData(i) && i.LogicalShiftedRegister? && (i.d != 31 || (i.setflags && !SignFixed(i)))
    requires i.n == i.m && r in XFP(i.n)
    ensures DataNeeded(i, r)
  {
    var N, zero: Word, b := i.datasize, Zeros(64), TrialBit(i);
    var s, t := Trial(zero, r, zero), Trial(zero, r, One(b));
    TrialsDiffer(zero, r, zero, One(b), b);
    TrialSource(zero, r, zero, i.n, N, RX(s, i.n, N));
    TrialSource(zero, r, One(b), i.n, N, RX(t, i.n, N));
    SelfLogicFrom(i, r, s, t, RX(s, i.n, N), RX(t, i.n, N));
  }

  lemma SelfLogicFrom(i: DataOp, r: Reg, s: State, t: State, x1: Bits, x2: Bits)
    requires WellFormedData(i) && i.LogicalShiftedRegister? && DiffersOnly(s, t, r) && i.n == i.m
    requires i.d != 31 || (i.setflags && !SignFixed(i))
    requires x1 == RX(s, i.n, i.datasize) && x2 == RX(t, i.n, i.datasize)
    requires x1 == Zeros(i.datasize) && forall k :: 0 <= k < i.datasize ==> x2[k] == (k == TrialBit(i))
    ensures DataNeeded(i, r)
  {
    var amount := TrialAmount(i);
    var y1 := InvertIf(i.invert, ShiftReg(x1, i.shiftType, amount));
    var y2 := InvertIf(i.invert, ShiftReg(x2, i.shiftType, amount));
    SelfResults(i.bitOp, i.invert, i.shiftType, amount, x1, x2, TrialBit(i), i.d);
    ShiftedLogicFrom(i, r, s, t, amount, x1, y1, x2, y2);
  }

  /** A register that is zero, and one with a single one, combined with themselves. */
  lemma SelfResults(op: BitOp, invert: bool, stype: ShiftType, amount: nat, x1: Bits, x2: Bits, b: nat, d: RegIndex)
    requires |x1| == |x2| >= 8 && x1 == Zeros(|x1|) && b < |x2| && forall k :: 0 <= k < |x2| ==> x2[k] == (k == b)
    requires amount == if !invert && op != XorOp then 0 else 1
    requires if op == AndOp || (!invert && op == XorOp) then b == 1
             else if !invert then b == |x1| - 1
             else if stype == ShiftLSL then b == |x1| - 2
             else if stype == ShiftROR then b == 0
             else if op == XorOp && stype == ShiftLSR then b == |x1| - 1
             else b == 1 && d != 31
    ensures var (v, w) := (BitsOp(op, x1, InvertIf(invert, ShiftReg(x1, stype, amount))),
                           BitsOp(op, x2, InvertIf(invert, ShiftReg(x2, stype, amount))));
            Distinct(d, v, w)
  {
    if amount == 0 {
      NoShift(x1, stype);
      NoShift(x2, stype);
      UnshiftedResults(op, x1, x2, b, d);
    } else {
      ShiftZero(x1, stype, 1);
      ShiftedResults(op, invert, stype, x1, x2, b, d, ShiftReg(x1, stype, 1), ShiftReg(x2, stype, 1));
    }
  }

  lemma UnshiftedResults(op: BitOp, x1: Bits, x2: Bits, b: nat, d: RegIndex)
    requires |x1| == |x2| >= 8 && x1 == Zeros(|x1|) && b < |x2| && forall k :: 0 <= k < |x2| ==> x2[k] == (k == b)
    requires op != XorOp
    ensures Distinct(d, BitsOp(op, x1, x1), BitsOp(op, x2, x2))
  {
    assert !BitsOp(op, x1, x1)[b] && BitsOp(op, x2, x2)[b];
    assert IsZero(BitsOp(op, x1, x1));
  }

  lemma ShiftedResults(op: BitOp, invert: bool, stype: ShiftType, x1: Bits, x2: Bits, b: nat, d: RegIndex, z1: Bits,
                       z2: Bits)
    requires |x1| == |x2| == |z1| == |z2| >= 8 && x1 == Zeros(|x1|) && IsZero(z1) && z2 == ShiftReg(x2, stype, 1)
    requires b < |x2| && forall k :: 0 <= k < |x2| ==> x2[k] == (k == b)
    requires if op == AndOp || !invert then b == 1 && (op == AndOp || op == XorOp) && (op == AndOp ==> invert)
             else if stype == ShiftLSL then b == |x1| - 2
             else if stype == ShiftROR then b == 0
             else if op == XorOp && stype == ShiftLSR then b == |x1| - 1
             else b == 1 && d != 31
    ensures Distinct(d, BitsOp(op, x1, InvertIf(invert, z1)), BitsOp(op, x2, InvertIf(invert, z2)))
  {
    var v, w := BitsOp(op, x1, InvertIf(invert, z1)), BitsOp(op, x2, InvertIf(invert, z2));
    if op == AndOp || !invert {
      ShiftBit(x2, stype, 1);
      assert w[1];
      assert IsZero(v);
    } else if b == 1 && d != 31 && stype != ShiftLSL && stype != ShiftROR {
      ShiftBit(x2, stype, 0);
      assert v[0] != w[0];
    } else {
      TopResults(op, stype, x1, x2, b, z1, z2);
    }
  }

  lemma TopResults(op: BitOp, stype: ShiftType, x1: Bits, x2: Bits, b: nat, z1: Bits, z2: Bits)
    requires |x1| == |x2| == |z1| == |z2| >= 8 && x1 == Zeros(|x1|) && IsZero(z1) && z2 == ShiftReg(x2, stype, 1)
    requires b < |x2| && (forall k :: 0 <= k < |x2| ==> x2[k] == (k == b)) && op != AndOp
    requires if stype == ShiftLSL then b == |x1| - 2
             else if stype == ShiftROR then b == 0
             else op == XorOp && stype == ShiftLSR && b == |x1| - 1
    ensures BitsOp(op, x1, Not(z1))[|x1| - 1] && !BitsOp(op, x2, Not(z2))[|x2| - 1]
  {
    ShiftBit(x2, stype, |x2| - 1);
  }

  // ----- inputs that make no difference -----

  lemma HiddenIndifferent(i: DataOp, r: Reg)
    requires WellFormedData(i) && i.LogicalShiftedRegister? && Hidden(i)
    ensures DataIndifferent(i, r)
  {
    forall j: DataOp, s: State, t: State | WellFormedData(j) && SameForm(i, j) && DiffersOnly(s, t, r)
      ensures Alike(DataWrite(j, s), DataWrite(j, t))
    {
      HiddenAlike(j, s, t);
    }
  }

  lemma HiddenAlike(i: DataOp, s: State, t: State)
    requires WellFormedData(i) && i.LogicalShiftedRegister? && Hidden(i)
    ensures Alike(DataWrite(i, s), DataWrite(i, t))
  {
    HiddenWrite(i, s);
    HiddenWrite(i, t);
  }

  lemma HiddenWrite(i: DataOp, s: State)
    requires WellFormedData(i) && i.LogicalShiftedRegister? && Hidden(i)
    ensures DataWrite(i, s)
         == LogicalWrite(i.d, false, i.setflags, if i.bitOp == AndOp then Zeros(i.datasize) else Ones(i.datasize))
  {
    var N := i.datasize;
    var z := ShiftReg(Zeros(N), i.shiftType, i.amount);
    ShiftZero(Zeros(N), i.shiftType, i.amount);
    LogicalShiftedValue(i, s, RX(s, i.n, N), InvertIf(i.invert, z));
    HiddenResult(i.bitOp, i.invert, RX(s, i.n, N), z);
  }

  lemma HiddenResult(op: BitOp, invert: bool, x: Bits, z: Bits)
    requires |x| == |z| && IsZero(z) && ((op == AndOp && !invert) || (op == OrOp && invert))
    ensures BitsOp(op, x, InvertIf(invert, z)) == if op == AndOp then Zeros(|x|) else Ones(|x|)
  {
  }

  lemma ZeroAndIndifferent(i: DataOp, r: Reg)
    requires WellFormedData(i) && i.LogicalShiftedRegister? && i.n == 31 && i.bitOp == AndOp
    ensures DataIndifferent(i, r)
  {
    forall j: DataOp, s: State, t: State | WellFormedData(j) && SameForm(i, j) && DiffersOnly(s, t, r)
      ensures Alike(DataWrite(j, s), DataWrite(j, t))
    {
      ZeroAndAlike(j, s, t);
    }
  }

  lemma ZeroAndAlike(i: DataOp, s: State, t: State)
    requires WellFormedData(i) && i.LogicalShiftedRegister? && i.n == 31 && i.bitOp == AndOp
    ensures Alike(DataWrite(i, s), DataWrite(i, t))
  {
    ZeroAndWrite(i, s);
    ZeroAndWrite(i, t);
  }

  lemma ZeroAndWrite(i: DataOp, s: State)
    requires WellFormedData(i) && i.LogicalShiftedRegister? && i.n == 31 && i.bitOp == AndOp
    ensures DataWrite(i, s) == LogicalWrite(i.d, false, i.setflags, Zeros(i.datasize))
  {
    var N := i.datasize;
    var y := InvertIf(i.invert, ShiftReg(RX(s, i.m, N), i.shiftType, i.amount));
    LogicalShiftedValue(i, s, Zeros(N), y);
    assert BitsOp(AndOp, Zeros(N), y) == Zeros(N);
  }

  /** With only the flags written, a fixed sign leaves nothing to see. */
  lemma FixedIndifferent(i: DataOp, r: Reg)
    requires WellFormedData(i) && i.LogicalShiftedRegister? && i.d == 31 && i.n == i.m && SignFixed(i)
    ensures DataIndifferent(i, r)
  {
    forall j: DataOp, s: State, t: State | WellFormedData(j) && SameForm(i, j) && DiffersOnly(s, t, r)
      ensures Alike(DataWrite(j, s), DataWrite(j, t))
    {
      FixedAlike(j, s, t);
    }
  }

  lemma FixedAlike(i: DataOp, s: State, t: State)
    requires WellFormedData(i) && i.LogicalShiftedRegister? && i.d == 31 && i.n == i.m && SignFixed(i)
    ensures Alike(DataWrite(i, s), DataWrite(i, t))
  {
    FixedWrite(i, s);
    FixedWrite(i, t);
  }

  /** A write that nothing but negative flags can show. */
  predicate ShowsNegative(w: Write, setflags: bool) {
    w.d == 31 && !w.toSp && w.flags == if setflags then Some(Flags(true, false, false, false)) else None
  }

  lemma FixedWrite(i: DataOp, s: State)
    requires WellFormedData(i) && i.LogicalShiftedRegister? && i.d == 31 && i.n == i.m && SignFixed(i)
    ensures ShowsNegative(DataWrite(i, s), i.setflags)
  {
    var x := RX(s, i.n, i.datasize);
    var v := BitsOp(i.bitOp, x, Not(ShiftReg(x, i.shiftType, i.amount)));
    LogicalShiftedValue(i, s, x, Not(ShiftReg(x, i.shiftType, i.amount)));
    FixedSign(i.bitOp, i.shiftType, i.amount, x);
    assert v[|v| - 1] && !IsZero(v);
  }

  lemma FixedSign(op: BitOp, stype: ShiftType, amount: nat, x: Bits)
    requires |x| > 0 && ((op == OrOp && (stype == ShiftLSR || stype == ShiftASR)) || (op == XorOp && stype == ShiftASR))
    ensures BitsOp(op, x, Not(ShiftReg(x, stype, amount)))[|x| - 1]
  {
    if amount > 0 { if stype == ShiftLSR { LsrAt(x, amount, |x| - 1); } else { AsrAt(x, amount, |x| - 1); } }
  }
}
