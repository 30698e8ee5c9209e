/** Which announced inputs the divisions and multiplications need. */
module NeededProducts {
  import opened Ints
  import opened BitVectors
  import opened A64Lib
  import opened Instructions
  import opened Semantics
  import opened Footprint
  import opened FootprintNeeded
  import opened NeededSums
  import opened NeededValues
  import opened NeededBits
  import Meanings

  // ----- two in every register, zero or two in the one tried -----

  lemma TwosTried(r: Reg, n: RegIndex, w: nat, x1: Bits, x2: Bits)
    requires Placeable(r) && 8 <= w <= 64
    requires x1 == RX(Probe(2, CLEAR, r, 0), n, w) && x2 == RX(Probe(2, CLEAR, r, 2), n, w)
    ensures |x1| == |x2| == w && UInt(x1) == SInt(x1) == Num(2, r, 0, n) && UInt(x2) == SInt(x2) == Num(2, r, 2, n)
  {
    ProbeNumber(2, CLEAR, r, 0, n, w);
    ProbeNumber(2, CLEAR, r, 2, n, w);
  }

  lemma ResiduesApart(u: int, v: int, m: int)
    requires 0 < u - v < m
    ensures u % m != v % m
  {
    if u % m == v % m {
      DivModForm(u, m);
      DivModForm(v, m);
      assert (u / m - v / m) * m == u / m * m - v / m * m;
      if u / m - v / m >= 1 { MulMono(1, u / m - v / m, m); } else { MulMono(u / m - v / m, 0, m); }
    }
  }

  lemma NumbersApart(n: nat, u: int, v: int)
    requires n >= 8 && u != v && -16 < u - v < 16
    ensures ToBits(n, u) != ToBits(n, v)
  {
    assert Pow2(4) == 16;
    Pow2Mono(4, n);
    UIntToBits(n, u);
    UIntToBits(n, v);
    if u > v { ResiduesApart(u, v, Pow2(n)); } else { ResiduesApart(v, u, Pow2(n)); }
  }

  // ----- divisions -----

  lemma DivisionValue(i: DataOp, s: State, x: Bits, y: Bits)
    requires WellFormedData(i) && i.Division? && x == RX(s, i.n, i.datasize) && y == RX(s, i.m, i.datasize)
    ensures DataWrite(i, s) == ValueWrite(i.d, ToBits(i.datasize, Quotient(x, y, i.unsigned)))
  {
  }

  lemma SmallQuotient(x: Bits, y: Bits, unsigned: bool)
    requires UInt(x) == SInt(x) && UInt(y) == SInt(y) && UInt(x) in {0, 2} && UInt(y) in {0, 2}
    ensures Quotient(x, y, unsigned) == if UInt(x) == 2 && UInt(y) == 2 then 1 else 0
  {
    IsZeroValue(y);
  }

  lemma DivisionNeeded(i: DataOp, r: Reg)
    requires WellFormedData(i) && i.Division? && i.d != 31 && i.n != 31 && i.m != 31 && r in XFP(i.n) + XFP(i.m)
    ensures DataNeeded(i, r)
  {
    var N := i.datasize;
    var s, t := Probe(2, CLEAR, r, 0), Probe(2, CLEAR, r, 2);
    ProbesDiffer(2, CLEAR, r, 0, 2);
    TwosTried(r, i.n, N, RX(s, i.n, N), RX(t, i.n, N));
    TwosTried(r, i.m, N, RX(s, i.m, N), RX(t, i.m, N));
    DividedFrom(i, r, s, t, RX(s, i.n, N), RX(s, i.m, N), RX(t, i.n, N), RX(t, i.m, N));
  }

  lemma DividedFrom(i: DataOp, r: Reg, s: State, t: State, x1: Bits, y1: Bits, x2: Bits, y2: Bits)
    requires WellFormedData(i) && i.Division? && i.d != 31 && DiffersOnly(s, t, r)
    requires x1 == RX(s, i.n, i.datasize) && y1 == RX(s, i.m, i.datasize)
    requires x2 == RX(t, i.n, i.datasize) && y2 == RX(t, i.m, i.datasize)
    requires UInt(x1) == SInt(x1) && UInt(y1) == SInt(y1) && UInt(x1) in {0, 2} && UInt(y1) in {0, 2}
    requires UInt(x1) == 0 || UInt(y1) == 0
    requires UInt(x2) == SInt(x2) == 2 && UInt(y2) == SInt(y2) == 2
    ensures DataNeeded(i, r)
  {
    SmallQuotient(x1, y1, i.unsigned);
    SmallQuotient(x2, y2, i.unsigned);
    NumbersApart(i.datasize, 1, 0);
    DivisionValue(i, s, x1, y1);
    DivisionValue(i, t, x2, y2);
    ValueNeeded(i, i, r, s, t, i.d, ToBits(i.datasize, 0), ToBits(i.datasize, 1));
  }

  /** Nothing is left of dividing zero, or by zero. */
  lemma DivisionIndifferent(i: DataOp, r: Reg)
    requires WellFormedData(i) && i.Division? && (i.n == 31 || i.m == 31)
    ensures DataIndifferent(i, r)
  {
    forall j: DataOp, s: State, t: State | WellFormedData(j) && SameForm(i, j) && DiffersOnly(s, t, r)
      ensures Alike(DataWrite(j, s), DataWrite(j, t))
    {
      ZeroQuotientsAlike(i, s, t);
    }
  }

  lemma ZeroQuotientsAlike(i: DataOp, s: State, t: State)
    requires WellFormedData(i) && i.Division? && (i.n == 31 || i.m == 31)
    ensures Alike(DataWrite(i, s), DataWrite(i, t))
  {
    ZeroQuotientWrite(i, s, RX(s, i.n, i.datasize), RX(s, i.m, i.datasize));
    ZeroQuotientWrite(i, t, RX(t, i.n, i.datasize), RX(t, i.m, i.datasize));
  }

  lemma ZeroQuotientWrite(i: DataOp, s: State, x: Bits, y: Bits)
    requires WellFormedData(i) && i.Division? && (i.n == 31 || i.m == 31)
    requires x == RX(s, i.n, i.datasize) && y == RX(s, i.m, i.datasize)
    ensures DataWrite(i, s) == ValueWrite(i.d, ToBits(i.datasize, 0))
  {
    DivisionValue(i, s, x, y);
    ZeroQuotient(x, y, i.unsigned);
  }

  lemma ZeroQuotient(x: Bits, y: Bits, unsigned: bool)
    requires |x| > 0 && (IsZero(x) || IsZero(y))
    ensures Quotient(x, y, unsigned) == 0
  {
    IsZeroValue(x);
    if !IsZero(y) {
      ReadingNonzero(y, unsigned);
      ZeroDividend(Reading(y, unsigned));
    }
  }

  lemma ZeroDividend(b: int)
    requires b != 0
    ensures TruncDiv(0, b) == 0
  {
    SmallMod(0, Abs(b));
  }

  // ----- products added -----

  predicate MultiplyAdd(i: DataOp) { i.MultiplyAddSub? || i.MultiplyAddSubLong? }

  function ResultWidth(i: DataOp): nat
    requires MultiplyAdd(i)
  {
    if i.MultiplyAddSub? then i.destsize else 64
  }

  predicate Unsigned(i: DataOp)
    requires MultiplyAdd(i)
  {
    i.MultiplyAddSub? || i.unsigned
  }

  function Accumulated(c: int, x: int, y: int, sub: bool): int { if sub then c - x * y else c + x * y }

  lemma ProductValue(i: DataOp, s: State, c: Bits, x: Bits, y: Bits)
    requires WellFormedData(i) && MultiplyAdd(i)
    requires c == RX(s, i.a, i.destsize) && x == RX(s, i.n, i.datasize) && y == RX(s, i.m, i.datasize)
    ensures DataWrite(i, s)
         == ValueWrite(i.d, ToBits(ResultWidth(i), Accumulated(Reading(c, Unsigned(i)), Reading(x, Unsigned(i)),
                                                               Reading(y, Unsigned(i)), i.subOp)))
  {
  }

  /** What is left with two in every register and zero or two in one of them. */
  lemma TwosMultiplied(r: Reg, n: RegIndex, m: RegIndex, a: RegIndex, sub: bool)
    requires r in XFP(n) + XFP(m) + XFP(a) && (r in XFP(a) || (n != 31 && m != 31))
    ensures var u := Accumulated(Num(2, r, 0, a), Num(2, r, 0, n), Num(2, r, 0, m), sub);
            var v := Accumulated(Num(2, r, 2, a), Num(2, r, 2, n), Num(2, r, 2, m), sub);
            u != v && -16 < u - v < 16
  {
  }

  lemma MultiplyNeeded(i: DataOp, r: Reg)
    requires WellFormedData(i) && MultiplyAdd(i) && i.d != 31 && r in XFP(i.n) + XFP(i.m) + XFP(i.a)
    requires r in XFP(i.a) || (i.n != 31 && i.m != 31)
    ensures DataNeeded(i, r)
  {
    var N, D := i.datasize, i.destsize;
    var s, t := Probe(2, CLEAR, r, 0), Probe(2, CLEAR, r, 2);
    ProbesDiffer(2, CLEAR, r, 0, 2);
    TwosTried(r, i.a, D, RX(s, i.a, D), RX(t, i.a, D));
    TwosTried(r, i.n, N, RX(s, i.n, N), RX(t, i.n, N));
    TwosTried(r, i.m, N, RX(s, i.m, N), RX(t, i.m, N));
    ProductValue(i, s, RX(s, i.a, D), RX(s, i.n, N), RX(s, i.m, N));
    ProductValue(i, t, RX(t, i.a, D), RX(t, i.n, N), RX(t, i.m, N));
    TwosMultiplied(r, i.n, i.m, i.a, i.subOp);
    MultipliedFrom(i, r, s, t, Accumulated(Num(2, r, 0, i.a), Num(2, r, 0, i.n), Num(2, r, 0, i.m), i.subOp),
                   Accumulated(Num(2, r, 2, i.a), Num(2, r, 2, i.n), Num(2, r, 2, i.m), i.subOp));
  }

  lemma MultipliedFrom(i: DataOp, r: Reg, s: State, t: State, u: int, v: int)
    requires WellFormedData(i) && MultiplyAdd(i) && i.d != 31 && DiffersOnly(s, t, r) && u != v && -16 < u - v < 16
    requires DataWrite(i, s) == ValueWrite(i.d, ToBits(ResultWidth(i), u))
    requires DataWrite(i, t) == ValueWrite(i.d, ToBits(ResultWidth(i), v))
    ensures DataNeeded(i, r)
  {
    NumbersApart(ResultWidth(i), u, v);
    ValueNeeded(i, i, r, s, t, i.d, ToBits(ResultWidth(i), u), ToBits(ResultWidth(i), v));
  }

  /** A product with the zero register adds nothing. */
  lemma MultiplyIndifferent(i: DataOp, r: Reg)
    requires WellFormedData(i) && MultiplyAdd(i) && (i.n == 31 || i.m == 31) && r !in XFP(i.a)
    ensures DataIndifferent(i, r)
  {
    forall j: DataOp, s: State, t: State | WellFormedData(j) && SameForm(i, j) && DiffersOnly(s, t, r)
      ensures Alike(DataWrite(j, s), DataWrite(j, t))
    {
      ZeroProductsAlike(i, s, t, r);
    }
  }

  lemma ZeroProductsAlike(i: DataOp, s: State, t: State, r: Reg)
    requires WellFormedData(i) && MultiplyAdd(i) && (i.n == 31 || i.m == 31) && r !in XFP(i.a) && DiffersOnly(s, t, r)
    ensures Alike(DataWrite(i, s), DataWrite(i, t))
  {
    SameSources(s, t, r, i.a, i.destsize);
    ZeroProductWrite(i, s, RX(s, i.a, i.destsize), RX(s, i.n, i.datasize), RX(s, i.m, i.datasize));
    ZeroProductWrite(i, t, RX(t, i.a, i.destsize), RX(t, i.n, i.datasize), RX(t, i.m, i.datasize));
  }

  lemma ZeroProductWrite(i: DataOp, s: State, c: Bits, x: Bits, y: Bits)
    requires WellFormedData(i) && MultiplyAdd(i) && (i.n == 31 || i.m == 31)
    requires c == RX(s, i.a, i.destsize) && x == RX(s, i.n, i.datasize) && y == RX(s, i.m, i.datasize)
    ensures DataWrite(i, s) == ValueWrite(i.d, ToBits(ResultWidth(i), Reading(c, Unsigned(i))))
  {
    ProductValue(i, s, c, x, y);
    if i.n == 31 { ZeroReading(x, Unsigned(i)); } else { ZeroReading(y, Unsigned(i)); }
  }

  lemma ZeroReading(x: Bits, unsigned: bool)
    requires x == Zeros(|x|)
    ensures Reading(x, unsigned) == 0
  {
    UIntZeros(|x|);
  }

  // ----- high products -----

  lemma HighValue(i: DataOp, s: State, x: Bits, y: Bits)
    requires WellFormedData(i) && i.MultiplyHigh? && x == RX(s, i.n, i.destsize) && y == RX(s, i.m, i.destsize)
    ensures DataWrite(i, s) == ValueWrite(i.d, HighProduct(x, y, i.unsigned))
  {
  }

  /** The upper half of a product shows its quotient by 2^64. */
  lemma HighShows(x: Bits, y: Bits, unsigned: bool, p: int)
    requires p == Reading(x, unsigned) * Reading(y, unsigned)
    ensures HighProduct(x, y, unsigned) == ToBits(64, p / Pow2(64))
  {
    Meanings.UpperHalf(64, p);
  }

  lemma TopOneNumber(x: Bits, n: nat)
    requires |x| == n > 0 && forall k :: 0 <= k < n ==> x[k] == (k == n - 1)
    ensures UInt(x) == Pow2(n - 1) && SInt(x) == -Pow2(n - 1)
  {
    assert x == Zeros(n - 1) + [true];
    UIntAppend(Zeros(n - 1), [true]);
    UIntZeros(n - 1);
    assert [true][1..] == [];
    assert UInt([true]) == 1;
  }

  /** Twice the greatest power, and its square. */
  lemma TopDoubled(n: nat)
    requires n > 0
    ensures Pow2(n - 1) * 2 == Pow2(n) && -Pow2(n - 1) * 2 == -Pow2(n)
  {
  }

  lemma MinusOneOver(p: int, q: int)
    requires 0 < p <= q
    ensures -p / q == -1
  {
    DivModUnique(-p, q, -1, q - p);
  }

  lemma WordSquared()
    ensures Pow2(63) * Pow2(63) == Pow2(62) * Pow2(64) && 0 < Pow2(62) < Pow2(64)
  {
    Pow2Sum(63, 63, 126);
    Pow2Sum(62, 64, 126);
    Pow2Mono(62, 64);
  }

  lemma Pow2Sum(a: nat, b: nat, c: nat)
    requires c == a + b
    ensures Pow2(c) == Pow2(a) * Pow2(b)
  {
    Pow2Add(a, b);
  }

  /** The factor 2^(n-1), or minus that, times two, or times itself for doublewords: the quotient by 2^64 is not
      zero. */
  lemma HighQuotient(n: nat, unsigned: bool, square: bool, p: int)
    requires (n == 64 || (n == 32 && !unsigned && !square))
    requires var top := if unsigned then Pow2(n - 1) else -Pow2(n - 1); p == if square then top * top else top * 2
    ensures p / Pow2(64) % Pow2(64) != 0
  {
    if square {
      SquareQuotient(p);
    } else if unsigned {
      TopDoubled(64);
      DivModUnique(p, Pow2(64), 1, 0);
      Pow2Mono(1, 64);
      SmallMod(1, Pow2(64));
    } else {
      TopDoubled(n);
      Pow2Mono(n, 64);
      MinusOneOver(Pow2(n), Pow2(64));
      MinusOneResidue(Pow2(64));
    }
  }

  lemma SquareQuotient(p: int)
    requires p == Pow2(63) * Pow2(63) || p == -Pow2(63) * -Pow2(63)
    ensures p / Pow2(64) % Pow2(64) != 0
  {
    WordSquared();
    DivModUnique(p, Pow2(64), Pow2(62), 0);
    SmallMod(Pow2(62), Pow2(64));
  }

  lemma MinusOneResidue(m: int)
    requires m > 0
    ensures -1 % m == m - 1
  {
    DivModUnique(-1, m, -1, m - 1);
  }

  lemma HighApart(x1: Bits, y1: Bits, x2: Bits, y2: Bits, unsigned: bool, p: int)
    requires Reading(x1, unsigned) * Reading(y1, unsigned) == 0 && p == Reading(x2, unsigned) * Reading(y2, unsigned)
    requires p / Pow2(64) % Pow2(64) != 0
    ensures HighProduct(x1, y1, unsigned) != HighProduct(x2, y2, unsigned)
  {
    HighShows(x1, y1, unsigned, 0);
    HighShows(x2, y2, unsigned, p);
    SmallMod(0, Pow2(64));
    UIntToBits(64, 0);
    UIntToBits(64, p / Pow2(64));
  }

  /** The upper half can differ from zero: neither factor is the zero register, and words only as signed numbers of
      two registers, whose product can be negative. */
  predicate ReachesHigh(i: DataOp)
    requires i.MultiplyHigh?
  {
    i.n != 31 && i.m != 31 && (i.destsize == 64 || (!i.unsigned && i.n != i.m))
  }

  lemma MultiplyHighNeeded(i: DataOp, r: Reg)
    requires WellFormedData(i) && i.MultiplyHigh? && i.d != 31 && ReachesHigh(i) && r in XFP(i.n) + XFP(i.m)
    ensures DataNeeded(i, r)
  {
    var N, two, zero: Word := i.destsize, Small(2), Zeros(64);
    var s, t := Trial(two, r, zero), Trial(two, r, One(N - 1));
    TrialsDiffer(two, r, zero, One(N - 1), N - 1);
    var x1, y1, x2, y2 := RX(s, i.n, N), RX(s, i.m, N), RX(t, i.n, N), RX(t, i.m, N);
    FactorTried(two, r, zero, i.n, N, x1);
    FactorTried(two, r, zero, i.m, N, y1);
    FactorTried(two, r, One(N - 1), i.n, N, x2);
    FactorTried(two, r, One(N - 1), i.m, N, y2);
    HighFrom(i, r, s, t, x1, y1, x2, y2);
  }

  /** A factor reads two, or what was put into the register tried. */
  lemma FactorTried(two: Word, r: Reg, v: Word, n: RegIndex, N: nat, x: Bits)
    requires Width(N) && r.R? && n != 31 && two == Small(2) && x == RX(Trial(two, r, v), n, N)
    requires v == Zeros(64) || v == One(N - 1)
    ensures r != R(n) ==> UInt(x) == SInt(x) == 2
    ensures r == R(n) && v == Zeros(64) ==> UInt(x) == SInt(x) == 0
    ensures r == R(n) && v == One(N - 1) ==> UInt(x) == Pow2(N - 1) && SInt(x) == -Pow2(N - 1)
  {
    TrialSource(two, r, v, n, N, x);
    if r != R(n) {
      SmallPart(2, N);
    } else if v == One(N - 1) {
      TopOneNumber(x, N);
    } else {
      assert x == Zeros(N);
      UIntZeros(N);
    }
  }

  lemma HighFrom(i: DataOp, r: Reg, s: State, t: State, x1: Bits, y1: Bits, x2: Bits, y2: Bits)
    requires WellFormedData(i) && i.MultiplyHigh? && i.d != 31 && ReachesHigh(i) && DiffersOnly(s, t, r)
    requires x1 == RX(s, i.n, i.destsize) && y1 == RX(s, i.m, i.destsize)
    requires x2 == RX(t, i.n, i.destsize) && y2 == RX(t, i.m, i.destsize)
    requires Reading(x1, i.unsigned) == 0 || Reading(y1, i.unsigned) == 0
    requires Reach(i.destsize, i.unsigned, i.n == i.m, Reading(x2, i.unsigned), Reading(y2, i.unsigned))
    ensures DataNeeded(i, r)
  {
    HighsApart(i.destsize, i.n == i.m, x1, y1, x2, y2, i.unsigned);
    HighValue(i, s, x1, y1);
    HighValue(i, t, x2, y2);
    ValueNeeded(i, i, r, s, t, i.d, HighProduct(x1, y1, i.unsigned), HighProduct(x2, y2, i.unsigned));
  }

  lemma HighsApart(n: nat, same: bool, x1: Bits, y1: Bits, x2: Bits, y2: Bits, unsigned: bool)
    requires n == 64 || (n == 32 && !unsigned && !same)
    requires Reading(x1, unsigned) == 0 || Reading(y1, unsigned) == 0
    requires Reach(n, unsigned, same, Reading(x2, unsigned), Reading(y2, unsigned))
    ensures HighProduct(x1, y1, unsigned) != HighProduct(x2, y2, unsigned)
  {
    var p := Reading(x2, unsigned) * Reading(y2, unsigned);
    ReachQuotient(n, unsigned, same, Reading(x2, unsigned), Reading(y2, unsigned), p);
    ZeroFactor(Reading(x1, unsigned), Reading(y1, unsigned));
    HighApart(x1, y1, x2, y2, unsigned, p);
  }

  lemma ZeroFactor(a: int, b: int)
    requires a == 0 || b == 0
    ensures a * b == 0
  {
  }

  /** The factors tried: the top power twice, or the top power and two. */
  predicate Reach(n: nat, unsigned: bool, same: bool, a: int, b: int)
    requires n > 0
  {
    var top := if unsigned then Pow2(n - 1) else -Pow2(n - 1);
    if same then a == top && b == top else (a == top && b == 2) || (a == 2 && b == top)
  }

  lemma ReachQuotient(n: nat, unsigned: bool, same: bool, a: int, b: int, p: int)
    requires (n == 64 || (n == 32 && !unsigned && !same)) && Reach(n, unsigned, same, a, b) && p == a * b
    ensures p / Pow2(64) % Pow2(64) != 0
  {
    HighQuotient(n, unsigned, same, p);
  }

  lemma HighIndifferent(i: DataOp, r: Reg)
    requires WellFormedData(i) && i.MultiplyHigh? && !ReachesHigh(i)
    ensures DataIndifferent(i, r)
  {
    forall j: DataOp, s: State, t: State | WellFormedData(j) && SameForm(i, j) && DiffersOnly(s, t, r)
      ensures Alike(DataWrite(j, s), DataWrite(j, t))
    {
      NoHighAlike(i, s, t);
    }
  }

  lemma NoHighAlike(i: DataOp, s: State, t: State)
    requires WellFormedData(i) && i.MultiplyHigh? && !ReachesHigh(i)
    ensures Alike(DataWrite(i, s), DataWrite(i, t))
  {
    NoHighWrite(i, s, RX(s, i.n, i.destsize), RX(s, i.m, i.destsize));
    NoHighWrite(i, t, RX(t, i.n, i.destsize), RX(t, i.m, i.destsize));
  }

  lemma NoHighWrite(i: DataOp, s: State, x: Bits, y: Bits)
    requires WellFormedData(i) && i.MultiplyHigh? && !ReachesHigh(i)
    requires x == RX(s, i.n, i.destsize) && y == RX(s, i.m, i.destsize)
    ensures DataWrite(i, s) == ValueWrite(i.d, ToBits(64, 0))
  {
    var p := Reading(x, i.unsigned) * Reading(y, i.unsigned);
    HighValue(i, s, x, y);
    HighShows(x, y, i.unsigned, p);
    NoHighProduct(x, y, i.unsigned, i.n == i.m, i.n == 31, i.m == 31, p);
    SmallMod(p, Pow2(64));
  }

  lemma NoHighProduct(x: Bits, y: Bits, unsigned: bool, same: bool, zeroX: bool, zeroY: bool, p: int)
    requires |x| == |y| && p == Reading(x, unsigned) * Reading(y, unsigned)
    requires (zeroX ==> x == Zeros(|x|)) && (zeroY ==> y == Zeros(|y|))
    requires zeroX || zeroY || (|x| == 32 && (unsigned || same) && (same ==> x == y))
    ensures 0 <= p < Pow2(64)
  {
    if zeroX {
      ZeroReading(x, unsigned);
    } else if zeroY {
      ZeroReading(y, unsigned);
    } else {
      WordProduct(x, y, unsigned, same);
    }
  }

  /** A product of two unsigned words, or the square of a signed one, stays below 2^64. */
  lemma WordProduct(x: Bits, y: Bits, unsigned: bool, same: bool)
    requires |x| == |y| == 32 && (unsigned || same) && (same ==> x == y)
    ensures 0 <= Reading(x, unsigned) * Reading(y, unsigned) < Pow2(64)
  {
    WordReading(x, unsigned);
    WordReading(y, unsigned);
    Pow2Sum(32, 32, 64);
    ProductBelow(Reading(x, unsigned), Reading(y, unsigned), Pow2(32));
  }

  lemma WordReading(x: Bits, unsigned: bool)
    requires |x| == 32
    ensures -Pow2(32) < Reading(x, unsigned) < Pow2(32) && (unsigned ==> Reading(x, unsigned) >= 0)
  {
    UIntRange(x);
    SIntRange(x);
  }

  lemma ProductBelow(a: int, b: int, m: int)
    requires -m < a < m && -m < b < m && ((a >= 0 && b >= 0) || a == b)
    ensures 0 <= a * b < m * m
  {
    if a >= 0 {
      BelowSquare(a, b, m);
    } else {
      BelowSquare(-a, -b, m);
      assert -a * -b == a * b;
    }
  }

  lemma BelowSquare(a: int, b: int, m: int)
    requires 0 <= a < m && 0 <= b < m
    ensures 0 <= a * b < m * m
  {
    MulMono(0, a, b);
    MulMono(a, m - 1, b);
    MulMono(b, m, m - 1);
    Distribute(m, m, 1);
  }
}