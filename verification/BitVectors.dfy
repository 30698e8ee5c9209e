/** Sail bit vectors `bits('N)` as sequences of bits, least significant bit at index 0,
    and their two readings as integers. */
module BitVectors {
  import opened Ints

  type Bits = seq<bool>

  /** Unsigned reading (`UInt`). */
  function UInt(b: Bits): (x: nat) {
    if b == [] then 0 else (if b[0] then 1 else 0) + 2 * UInt(b[1..])
  }

  /** Two's-complement reading (`SInt`). */
  function SInt(b: Bits): int {
    if |b| > 0 && b[|b| - 1] then UInt(b) - Pow2(|b|) else UInt(b)
  }

  /** The low `n` bits of an integer (a cast `x : bits('N)`). */
  function ToBits(n: nat, x: int): (b: Bits)
    ensures |b| == n
  {
    seq(n, i requires 0 <= i < n => Bit(x, i))
  }

  lemma ToBitsAt(n: nat, x: int, i: nat)
    requires i < n
    ensures ToBits(n, x)[i] == Bit(x, i)
  {
  }

  function Zeros(n: nat): (b: Bits)
    ensures |b| == n && forall i :: 0 <= i < n ==> !b[i]
  {
    seq(n, i requires 0 <= i < n => false)
  }

  function Ones(n: nat): (b: Bits)
    ensures |b| == n && forall i :: 0 <= i < n ==> b[i]
  {
    seq(n, i requires 0 <= i < n => true)
  }

  function Not(x: Bits): (b: Bits)
    ensures |b| == |x| && forall i :: 0 <= i < |x| ==> b[i] == !x[i]
  {
    seq(|x|, i requires 0 <= i < |x| => !x[i])
  }

  function BitsOp(op: BitOp, x: Bits, y: Bits): (b: Bits)
    requires |x| == |y|
    ensures |b| == |x| && forall i :: 0 <= i < |x| ==> b[i] == Apply(op, x[i], y[i])
  {
    seq(|x|, i requires 0 <= i < |x| => Apply(op, x[i], y[i]))
  }

  function AndBits(x: Bits, y: Bits): Bits requires |x| == |y| { BitsOp(AndOp, x, y) }
  function OrBits(x: Bits, y: Bits): Bits requires |x| == |y| { BitsOp(OrOp, x, y) }
  function XorBits(x: Bits, y: Bits): Bits requires |x| == |y| { BitsOp(XorOp, x, y) }

  function Concat(hi: Bits, lo: Bits): Bits { lo + hi }

  function ZeroExtend(x: Bits, n: nat): (b: Bits)
    requires |x| <= n
    ensures |b| == n
  {
    x + Zeros(n - |x|)
  }

  /** Low `n` bits (`mask`). */
  function Mask(x: Bits, n: nat): (b: Bits)
    requires n <= |x|
    ensures |b| == n
  {
    x[..n]
  }

  predicate IsZero(x: Bits) { forall i :: 0 <= i < |x| ==> !x[i] }

  function BoolInt(b: bool): nat { if b then 1 else 0 }

  // ----- bits and values agree -----

  lemma {:induction false} UIntRange(b: Bits)
    ensures UInt(b) < Pow2(|b|)
  {
    if b != [] { UIntRange(b[1..]); }
  }

  lemma {:induction false} UIntBit(b: Bits, i: nat)
    ensures Bit(UInt(b), i) == (i < |b| && b[i])
  {
    if b == [] {
      BitZero(i);
    } else {
      assert UInt(b) / 2 == UInt(b[1..]);
      if i > 0 { UIntBit(b[1..], i - 1); }
    }
  }

  /** Truncating an integer to n bits and reading it back is reduction modulo 2^n. */
  lemma {:induction false} UIntToBits(n: nat, x: int)
    ensures UInt(ToBits(n, x)) == x % Pow2(n)
    decreases n
  {
    if n > 0 {
      UIntToBits(n - 1, x / 2);
      DivPow2Step(x, n);
      assert ToBits(n, x)[1..] == ToBits(n - 1, x / 2);
      assert ToBits(n, x)[0] == (x % 2 == 1);
    }
  }

  /** A number that fits is kept. */
  lemma SmallNumber(n: nat, v: nat)
    requires v < Pow2(n)
    ensures UInt(ToBits(n, v)) == v
  {
    UIntToBits(n, v);
    SmallMod(v, Pow2(n));
  }

  lemma {:induction false} ToBitsUInt(b: Bits)
    ensures ToBits(|b|, UInt(b)) == b
  {
    if b != [] {
      ToBitsUInt(b[1..]);
      assert UInt(b) / 2 == UInt(b[1..]);
      assert ToBits(|b|, UInt(b))[1..] == ToBits(|b| - 1, UInt(b[1..]));
      assert ToBits(|b|, UInt(b)) == [b[0]] + ToBits(|b|, UInt(b))[1..];
    }
  }

  lemma UIntInjective(a: Bits, b: Bits)
    requires |a| == |b| && UInt(a) == UInt(b)
    ensures a == b
  {
    ToBitsUInt(a);
    ToBitsUInt(b);
  }

  /** Bit vectors of one width with congruent sources are equal. */
  lemma ToBitsMod(n: nat, x: int, y: int)
    requires x % Pow2(n) == y % Pow2(n)
    ensures ToBits(n, x) == ToBits(n, y)
  {
    UIntToBits(n, x);
    UIntToBits(n, y);
    UIntInjective(ToBits(n, x), ToBits(n, y));
  }

  lemma ToBitsWrap(n: nat, v: int)
    ensures ToBits(n, v - Pow2(n)) == ToBits(n, v)
  {
    ModLess(v, Pow2(n));
    ToBitsMod(n, v - Pow2(n), v);
  }

  lemma {:induction false} UIntAppend(lo: Bits, hi: Bits)
    ensures UInt(lo + hi) == UInt(lo) + UInt(hi) * Pow2(|lo|)
  {
    var h, n := UInt(hi), |lo|;
    if lo == [] {
      assert lo + hi == hi;
    } else {
      assert (lo + hi)[1..] == lo[1..] + hi;
      UIntAppend(lo[1..], hi);
      HalfJoin(h, 0, n);
    }
  }

  lemma {:induction false} UIntZeros(n: nat)
    ensures UInt(Zeros(n)) == 0
  {
    if n > 0 { UIntZeros(n - 1); assert Zeros(n)[1..] == Zeros(n - 1); }
  }

  lemma {:induction false} UIntOnes(n: nat)
    ensures UInt(Ones(n)) == Pow2(n) - 1
  {
    if n > 0 { UIntOnes(n - 1); assert Ones(n)[1..] == Ones(n - 1); }
  }

  lemma UIntZeroExtend(x: Bits, n: nat)
    requires |x| <= n
    ensures UInt(ZeroExtend(x, n)) == UInt(x)
  {
    var b := ZeroExtend(x, n);
    UIntRange(x);
    UIntRange(b);
    Pow2Mono(|x|, n);
    forall i: nat | i < n ensures Bit(UInt(b), i) == Bit(UInt(x), i) { UIntBit(b, i); UIntBit(x, i); }
    BitsEqual(UInt(b), UInt(x), n);
  }

  lemma IsZeroValue(x: Bits)
    ensures IsZero(x) <==> UInt(x) == 0
  {
    UIntZeros(|x|);
    if IsZero(x) { assert x == Zeros(|x|); }
    if UInt(x) == 0 { UIntInjective(x, Zeros(|x|)); }
  }

  // ----- signed readings -----

  /** The sign bit carries weight -2^(n-1); the rest is unsigned. */
  lemma SIntRange(b: Bits)
    requires |b| > 0
    ensures -Pow2(|b| - 1) <= SInt(b) < Pow2(|b| - 1)
    ensures SInt(b) < 0 <==> b[|b| - 1]
    ensures SInt(b) == UInt(b) || SInt(b) == UInt(b) - Pow2(|b|)
  {
    var n := |b| - 1;
    assert b == b[..n] + [b[n]];
    UIntAppend(b[..n], [b[n]]);
    assert [b[n]][1..] == [];
    assert UInt([b[n]]) == BoolInt(b[n]);
    UIntRange(b[..n]);
  }

  lemma {:induction false} UIntNot(x: Bits)
    ensures UInt(Not(x)) == Pow2(|x|) - 1 - UInt(x)
  {
    if x != [] { UIntNot(x[1..]); assert Not(x)[1..] == Not(x[1..]); }
  }

  /** The residue of v modulo m that lies between -m/2 and m/2. */
  function Centred(v: int, m: int): int
    requires m > 0
  {
    if 2 * (v % m) >= m then v % m - m else v % m
  }

  /** The signed reading of n bits is the centred residue of the unsigned one. */
  lemma SIntCentred(b: Bits)
    requires |b| > 0
    ensures SInt(b) == Centred(UInt(b), Pow2(|b|))
  {
    UIntRange(b);
    SIntRange(b);
    SmallMod(UInt(b), Pow2(|b|));
  }

  lemma SIntNot(x: Bits)
    requires |x| > 0
    ensures SInt(Not(x)) == -1 - SInt(x)
  {
    UIntNot(x);
  }

  /** The n-bit pattern of a value in signed range reads back as that value. */
  lemma SIntToBits(n: nat, v: int)
    requires n > 0 && -Pow2(n - 1) <= v < Pow2(n - 1)
    ensures SInt(ToBits(n, v)) == v
  {
    var b := ToBits(n, v);
    UIntToBits(n, v);
    SIntRange(b);
    if v >= 0 {
      SmallMod(v, Pow2(n));
    } else {
      ModShift(v, 1, Pow2(n));
      SmallMod(v + Pow2(n), Pow2(n));
    }
  }

  lemma SIntBit(b: Bits, i: nat)
    requires |b| > 0
    ensures Bit(SInt(b), i) == if i < |b| then b[i] else b[|b| - 1]
  {
    UIntRange(b);
    UIntBit(b, i);
    SIntRange(b);
    if SInt(b) < 0 {
      assert SInt(b) == UInt(b) + (-1) * Pow2(|b|);
      BitJoin(-1, UInt(b), |b|, i);
      if i >= |b| { BitZero(i - |b|); }
    }
  }
}
