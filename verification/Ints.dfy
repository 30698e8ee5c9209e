/** Two's-complement bits of unbounded integers: the arithmetic that GMP integers
    (`mpz_t`) and Sail's conversions between integers and bit vectors are built on. */
module Ints {

  function Pow2(n: nat): (p: int)
    ensures p > 0
  {
    if n == 0 then 1 else 2 * Pow2(n - 1)
  }

  /** The range of `uint64_t`. */
  const WORD: int := 0x1_0000_0000_0000_0000

  lemma WordIsPow2()
    ensures WORD == Pow2(64)
  {
    assert Pow2(4) == 16;
    Pow2Square(4, 16);
    Pow2Square(8, 0x100);
    Pow2Square(16, 0x1_0000);
    Pow2Square(32, 0x1_0000_0000);
  }

  lemma Pow2Square(n: nat, p: int)
    requires Pow2(n) == p
    ensures Pow2(2 * n) == p * p
  {
    Pow2Add(n, n);
  }

  /** Bit `i` of the infinite two's-complement representation of `x` (`mpz_tstbit`). */
  predicate Bit(x: int, i: nat)
    decreases i
  {
    if i == 0 then x % 2 == 1 else Bit(x / 2, i - 1)
  }

  // ----- division and remainder by powers of two -----

  /** Floor division by 2^k peels off one halving at a time. */
  lemma DivPow2Step(x: int, k: nat)
    requires k > 0
    ensures x / Pow2(k) == (x / 2) / Pow2(k - 1)
    ensures x % Pow2(k) == 2 * ((x / 2) % Pow2(k - 1)) + x % 2
  {
    var m := Pow2(k - 1);
    var q, r := (x / 2) / m, (x / 2) % m;
    assert x == 2 * (q * m + r) + x % 2;
    assert x == q * (2 * m) + (2 * r + x % 2) by { assert 2 * (q * m) == q * (2 * m); }
    DivModUnique(x, 2 * m, q, 2 * r + x % 2);
  }

  lemma DivModUnique(x: int, d: int, q: int, r: int)
    requires 0 <= r < d && x == q * d + r
    ensures x / d == q && x % d == r
  {
    var q', r' := x / d, x % d;
    assert q' * d + r' == x;
    assert (q' - q) * d == q' * d - q * d;
    if q < q' {
      MulMono(1, q' - q, d);
    } else if q' < q {
      MulMono(q' - q, -1, d);
    }
  }

  lemma MulMono(a: int, b: int, d: int)
    requires a <= b && 0 <= d
    ensures a * d <= b * d
  {
  }

  lemma Pow2Add(a: nat, b: nat)
    ensures Pow2(a + b) == Pow2(a) * Pow2(b)
  {
    if a != 0 {
      Pow2Add(a - 1, b);
      assert Pow2(a + b) == 2 * Pow2(a - 1 + b);
      assert 2 * (Pow2(a - 1) * Pow2(b)) == (2 * Pow2(a - 1)) * Pow2(b);
    }
  }

  lemma Pow2Mono(a: nat, b: nat)
    requires a <= b
    ensures Pow2(a) <= Pow2(b)
    ensures a < b ==> Pow2(a) < Pow2(b)
    decreases b
  {
    if a < b {
      Pow2Mono(a, b - 1);
    }
  }

  // ----- bits of shifted, truncated and joined values -----

  /** Right shift with floor (`mpz_fdiv_q_2exp`). */
  lemma {:induction false} BitShr(x: int, k: nat, i: nat)
    ensures Bit(x / Pow2(k), i) == Bit(x, i + k)
    decreases k
  {
    if k != 0 {
      DivPow2Step(x, k);
      BitShr(x / 2, k - 1, i);
    }
  }

  /** A remainder modulo 2^k keeps exactly the low k bits. */
  lemma {:induction false} BitMod(x: int, k: nat, i: nat)
    ensures Bit(x % Pow2(k), i) == (i < k && Bit(x, i))
    decreases k
  {
    if k == 0 {
      BitZero(i);
    } else {
      DivPow2Step(x, k);
      if i > 0 { BitMod(x / 2, k - 1, i - 1); }
    }
  }

  lemma {:induction false} BitZero(i: nat)
    ensures !Bit(0, i) && Bit(-1, i)
  {
    if i > 0 { BitZero(i - 1); }
  }

  /** `lo + hi * 2^k` with `0 <= lo < 2^k` places `hi` directly above the k bits of `lo`. */
  lemma {:induction false} BitJoin(hi: int, lo: int, k: nat, i: nat)
    requires 0 <= lo < Pow2(k)
    ensures Bit(lo + hi * Pow2(k), i) == if i < k then Bit(lo, i) else Bit(hi, i - k)
    decreases k
  {
    if k != 0 {
      var m := Pow2(k - 1);
      assert hi * Pow2(k) == 2 * (hi * m);
      assert (lo + hi * Pow2(k)) / 2 == lo / 2 + hi * m;
      if i > 0 { BitJoin(hi, lo / 2, k - 1, i - 1); }
    }
  }

  /** Values below 2^k have no bit at or above k. */
  lemma {:induction false} BitHigh(x: int, k: nat, i: nat)
    requires 0 <= x < Pow2(k) && i >= k
    ensures !Bit(x, i)
  {
    BitJoin(0, x, k, i);
    BitZero(i - k);
  }

  /** Bits determine the residue: equal low bits mean equal residues. */
  lemma {:induction false} BitsEqualMod(x: int, y: int, n: nat)
    requires forall i: nat :: i < n ==> Bit(x, i) == Bit(y, i)
    ensures x % Pow2(n) == y % Pow2(n)
    decreases n
  {
    if n != 0 {
      DivPow2Step(x, n);
      DivPow2Step(y, n);
      assert Bit(x, 0) == Bit(y, 0);
      forall i: nat | i < n - 1 ensures Bit(x / 2, i) == Bit(y / 2, i) {
        assert Bit(x, i + 1) == Bit(y, i + 1);
      }
      BitsEqualMod(x / 2, y / 2, n - 1);
    }
  }

  lemma SmallMod(x: int, m: int)
    requires 0 <= x < m
    ensures x % m == x && x / m == 0
  {
    DivModUnique(x, m, 0, x);
  }

  /** Extensionality for naturals of a known width. */
  lemma BitsEqual(x: int, y: int, n: nat)
    requires 0 <= x < Pow2(n) && 0 <= y < Pow2(n)
    requires forall i: nat :: i < n ==> Bit(x, i) == Bit(y, i)
    ensures x == y
  {
    BitsEqualMod(x, y, n);
    SmallMod(x, Pow2(n));
    SmallMod(y, Pow2(n));
  }

  lemma ModRange(x: int, n: nat)
    ensures 0 <= x % Pow2(n) < Pow2(n)
  {
  }

  /** A residue is unchanged by adding multiples of the modulus. */
  lemma ModShift(x: int, q: int, m: int)
    requires m > 0
    ensures (x + q * m) % m == x % m
    ensures (x + q * m) / m == x / m + q
  {
    var a, r := x / m, x % m;
    assert x + q * m == (a + q) * m + r by { assert (a + q) * m == a * m + q * m; }
    DivModUnique(x + q * m, m, a + q, r);
  }

  lemma ModLess(x: int, m: int)
    requires m > 0
    ensures (x - m) % m == x % m
  {
    ModShift(x, -1, m);
  }

  // ----- bitwise operations (`mpz_and`, `mpz_ior`, `mpz_xor`) -----

  datatype BitOp = AndOp | OrOp | XorOp

  predicate Apply(op: BitOp, a: bool, b: bool) {
    match op
    case AndOp => a && b
    case OrOp => a || b
    case XorOp => a != b
  }

  function Abs(x: int): nat { if x < 0 then -x else x }

  function Bitwise(op: BitOp, x: int, y: int): int
    decreases Abs(x) + Abs(y)
  {
    if x in {0, -1} && y in {0, -1} then
      if Apply(op, x == -1, y == -1) then -1 else 0
    else
      2 * Bitwise(op, x / 2, y / 2) + (if Apply(op, x % 2 == 1, y % 2 == 1) then 1 else 0)
  }

  function And(x: int, y: int): int { Bitwise(AndOp, x, y) }
  function Or(x: int, y: int): int { Bitwise(OrOp, x, y) }
  function Xor(x: int, y: int): int { Bitwise(XorOp, x, y) }

  /** The defining property of all three bitwise operations, for every bit of every integer. */
  lemma {:induction false} BitwiseBit(op: BitOp, x: int, y: int, i: nat)
    ensures Bit(Bitwise(op, x, y), i) == Apply(op, Bit(x, i), Bit(y, i))
    decreases i
  {
    if x in {0, -1} && y in {0, -1} {
      BitZero(i);
    } else if i > 0 {
      var r := Bitwise(op, x, y);
      assert r / 2 == Bitwise(op, x / 2, y / 2);
      BitwiseBit(op, x / 2, y / 2, i - 1);
    }
  }

  /** Bitwise operations stay within the width of their operands. */
  lemma {:induction false} BitwiseRange(op: BitOp, x: int, y: int, n: nat)
    requires 0 <= x < Pow2(n) && 0 <= y < Pow2(n)
    ensures 0 <= Bitwise(op, x, y) < Pow2(n)
  {
    if !(x in {0, -1} && y in {0, -1}) {
      assert n > 0;
      BitwiseRange(op, x / 2, y / 2, n - 1);
    }
  }

  /** Masking with 2^k - 1 is the residue modulo 2^k, also for negative integers. */
  lemma {:induction false} AndLowMask(x: int, k: nat)
    ensures And(x, Pow2(k) - 1) == x % Pow2(k)
    decreases k
  {
    if k == 0 {
      AndZero(x);
    } else {
      DivPow2Step(x, k);
      AndLowMask(x / 2, k - 1);
      assert (Pow2(k) - 1) / 2 == Pow2(k - 1) - 1;
      if x in {0, -1} && Pow2(k) - 1 in {0, -1} {
      } else {
        assert And(x, Pow2(k) - 1) == 2 * And(x / 2, Pow2(k - 1) - 1) + (if x % 2 == 1 then 1 else 0);
      }
    }
  }

  lemma {:induction false} AndZero(x: int)
    ensures And(x, 0) == 0
    decreases Abs(x)
  {
    if x !in {0, -1} { AndZero(x / 2); }
  }

  /** Clearing the low k bits of an n-bit value rounds it down to a multiple of 2^k. */
  lemma {:induction false} AndHighMask(x: int, n: nat, k: nat)
    requires k <= n && 0 <= x < Pow2(n)
    ensures And(x, Pow2(n) - Pow2(k)) == x - x % Pow2(k)
    decreases n
  {
    if k == 0 {
      AndLowMask(x, n);
      SmallMod(x, Pow2(n));
    } else {
      DivPow2Step(x, k);
      AndHighMask(x / 2, n - 1, k - 1);
      assert (Pow2(n) - Pow2(k)) / 2 == Pow2(n - 1) - Pow2(k - 1);
      if x in {0, -1} && Pow2(n) - Pow2(k) in {0, -1} {
      } else {
        assert And(x, Pow2(n) - Pow2(k)) == 2 * And(x / 2, Pow2(n - 1) - Pow2(k - 1));
      }
    }
  }

  // ----- single-bit updates (`mpz_setbit`, `mpz_clrbit`, `mpz_combit`) -----

  function WriteBit(x: int, i: nat, b: bool): int
    decreases i
  {
    if i == 0 then 2 * (x / 2) + (if b then 1 else 0) else 2 * WriteBit(x / 2, i - 1, b) + x % 2
  }

  function SetBit(x: int, i: nat): int { WriteBit(x, i, true) }
  function ClearBit(x: int, i: nat): int { WriteBit(x, i, false) }
  function FlipBit(x: int, i: nat): int { WriteBit(x, i, !Bit(x, i)) }

  lemma {:induction false} WriteBitBit(x: int, i: nat, b: bool, j: nat)
    ensures Bit(WriteBit(x, i, b), j) == if j == i then b else Bit(x, j)
    decreases i
  {
    if i > 0 && j > 0 {
      assert WriteBit(x, i, b) / 2 == WriteBit(x / 2, i - 1, b);
      WriteBitBit(x / 2, i - 1, b, j - 1);
    }
  }

  lemma {:induction false} WriteBitValue(x: int, i: nat, b: bool)
    ensures WriteBit(x, i, b) == x + (if b then Pow2(i) else 0) - (if Bit(x, i) then Pow2(i) else 0)
    decreases i
  {
    if i > 0 { WriteBitValue(x / 2, i - 1, b); }
  }

  lemma {:induction false} WriteBitRange(x: int, i: nat, b: bool, n: nat)
    requires 0 <= x < Pow2(n) && i < n
    ensures 0 <= WriteBit(x, i, b) < Pow2(n)
    decreases i
  {
    if i > 0 { WriteBitRange(x / 2, i - 1, b, n - 1); }
  }

  /** `mpz_setbit` never makes a non-negative value smaller, and a new top bit makes it at least 2^i. */
  lemma {:induction false} BitLowerBound(x: int, i: nat)
    requires x >= 0 && Bit(x, i)
    ensures x >= Pow2(i)
  {
    if x < Pow2(i) { BitHigh(x, i, i); }
  }

  // ----- exclusive or of small naturals, used as an index transformation -----

  lemma XorEachBit(x: nat, y: nat, n: nat)
    requires x < Pow2(n) && y < Pow2(n)
    ensures 0 <= Xor(x, y) < Pow2(n)
    ensures forall i: nat :: Bit(Xor(x, y), i) == (Bit(x, i) != Bit(y, i))
  {
    BitwiseRange(XorOp, x, y, n);
    forall i: nat ensures Bit(Xor(x, y), i) == (Bit(x, i) != Bit(y, i)) { BitwiseBit(XorOp, x, y, i); }
  }

  lemma {:induction false} WidthOf(x: nat)
    ensures x < Pow2(x)
  {
    if x > 0 { WidthOf(x - 1); }
  }

  lemma XorNat(x: nat, y: nat)
    ensures Xor(x, y) >= 0
  {
    var n := x + y;
    WidthOf(n);
    BitwiseRange(XorOp, x, y, n);
  }

  /** Flipping twice with the same word is the identity. */
  lemma {:induction false} XorTwice(x: nat, y: nat)
    ensures Xor(Xor(x, y), y) == x
    decreases x + y
  {
    if x == 0 && y == 0 {
    } else {
      XorTwice(x / 2, y / 2);
      XorStep(x, y);
      XorNat(x, y);
      XorStep(Xor(x, y), y);
    }
  }

  lemma XorStep(x: nat, y: nat)
    ensures Xor(x, y) == 2 * Xor(x / 2, y / 2) + (if (x % 2 == 1) != (y % 2 == 1) then 1 else 0)
  {
  }

  lemma HalfJoin(h: nat, l: nat, k: nat)
    requires k > 0
    ensures (h * Pow2(k) + l) / 2 == h * Pow2(k - 1) + l / 2
    ensures (h * Pow2(k) + l) % 2 == l % 2
    ensures h * Pow2(k) + l >= 0 && h * Pow2(k - 1) >= 0
    ensures h * Pow2(k) == 2 * (h * Pow2(k - 1))
  {
    var m := Pow2(k - 1);
    assert h * Pow2(k) == 2 * (h * m);
  }

  /** Exclusive or works separately on a low field of k bits and the rest. */
  lemma {:induction false} XorFields(hx: nat, lx: nat, hy: nat, ly: nat, k: nat)
    requires lx < Pow2(k) && ly < Pow2(k)
    ensures Xor(hx * Pow2(k) + lx, hy * Pow2(k) + ly) == Xor(hx, hy) * Pow2(k) + Xor(lx, ly)
    decreases k
  {
    if k != 0 {
      HalfJoin(hx, lx, k);
      HalfJoin(hy, ly, k);
      var x, y := hx * Pow2(k) + lx, hy * Pow2(k) + ly;
      XorStep(x, y);
      XorFields(hx, lx / 2, hy, ly / 2, k - 1);
      XorStep(lx, ly);
      XorNat(hx, hy);
      HalfJoin(Xor(hx, hy), 0, k);
    } else {
      assert hx * Pow2(0) + lx == hx && hy * Pow2(0) + ly == hy;
    }
  }

  lemma {:induction false} XorZero(x: nat)
    ensures Xor(x, 0) == x && Xor(0, x) == x
  {
    if x != 0 { XorZero(x / 2); XorStep(x, 0); XorStep(0, x); }
  }

  /** Complementing all k low bits counts down from the top. */
  lemma {:induction false} XorOnes(x: nat, k: nat)
    requires x < Pow2(k)
    ensures Xor(x, Pow2(k) - 1) == Pow2(k) - 1 - x
  {
    if k != 0 {
      XorOnes(x / 2, k - 1);
      XorStep(x, Pow2(k) - 1);
    }
  }

  lemma XorAssoc(a: nat, b: nat, c: nat)
    ensures Xor(a, b) >= 0 && Xor(b, c) >= 0
    ensures Xor(Xor(a, b), c) == Xor(a, Xor(b, c))
  {
    var n := a + b + c;
    WidthOf(n);
    XorEachBit(a, b, n);
    XorEachBit(b, c, n);
    XorEachBit(a, Xor(b, c), n);
    XorEachBit(Xor(a, b), c, n);
    BitsEqual(Xor(Xor(a, b), c), Xor(a, Xor(b, c)), n);
  }

  lemma {:induction false} XorCommutes(a: nat, b: nat)
    ensures Xor(a, b) == Xor(b, a)
    decreases a + b
  {
    if a != 0 || b != 0 {
      XorCommutes(a / 2, b / 2);
      XorStep(a, b);
      XorStep(b, a);
    }
  }

  /** The field form of exclusive or, for arbitrary operands. */
  lemma {:induction false} XorSplit(x: nat, y: nat, k: nat)
    ensures x / Pow2(k) >= 0 && y / Pow2(k) >= 0
    ensures Xor(x / Pow2(k), y / Pow2(k)) >= 0
    ensures Xor(x, y) == Xor(x / Pow2(k), y / Pow2(k)) * Pow2(k) + Xor(x % Pow2(k), y % Pow2(k))
    decreases k
  {
    if k == 0 {
      XorNat(x, y);
    } else {
      DivPow2Step(x, k);
      DivPow2Step(y, k);
      XorSplit(x / 2, y / 2, k - 1);
      var h := Xor(x / Pow2(k), y / Pow2(k));
      var lx, ly := x % Pow2(k), y % Pow2(k);
      XorStep(x, y);
      XorStep(lx, ly);
      assert lx / 2 == (x / 2) % Pow2(k - 1) && ly / 2 == (y / 2) % Pow2(k - 1);
      HalfJoin(h, 0, k);
    }
  }

  /** The field form for a low field of three bits. */
  lemma XorSplit8(x: nat, y: nat)
    ensures Xor(x / 8, y / 8) >= 0
    ensures Xor(x, y) == 8 * Xor(x / 8, y / 8) + Xor(x % 8, y % 8)
  {
    assert Pow2(3) == 8;
    XorSplit(x, y, 3);
  }

  lemma DivModForm(x: int, m: int)
    requires m > 0
    ensures x == (x / m) * m + x % m && 0 <= x % m < m
    ensures x >= 0 ==> x / m >= 0
  {
  }

  /** Exclusive or with a word below 2^k leaves the part above k alone. */
  lemma XorLowOnly(x: nat, y: nat, k: nat)
    requires y < Pow2(k)
    ensures Xor(x, y) == x - x % Pow2(k) + Xor(x % Pow2(k), y)
  {
    XorSplit(x, y, k);
    DivModUnique(y, Pow2(k), 0, y);
    XorZero(x / Pow2(k));
    DivModForm(x, Pow2(k));
  }

  lemma {:induction false} ModPow2Step(x: int, k: nat)
    ensures x % Pow2(k + 1) == x % Pow2(k) + (if Bit(x, k) then Pow2(k) else 0)
    decreases k
  {
    if k > 0 {
      DivPow2Step(x, k + 1);
      DivPow2Step(x, k);
      ModPow2Step(x / 2, k - 1);
    } else {
      DivPow2Step(x, 1);
    }
  }

  lemma ModBelow(x: nat, m: int)
    requires m > 0
    ensures 0 <= x % m <= x
  {
    if x < m { SmallMod(x, m); }
  }

  /** The top k of n one bits, shifted down. */
  lemma TopOnes(n: nat, k: nat)
    requires k <= n
    ensures (Pow2(n) - 1) / Pow2(n - k) == Pow2(k) - 1
  {
    Pow2Add(k, n - k);
    var p, q := Pow2(k), Pow2(n - k);
    assert (p - 1) * q == p * q - q;
    DivModUnique(Pow2(n) - 1, q, p - 1, q - 1);
  }

  lemma FloorDivBounds(x: int, m: int)
    requires m > 0
    ensures x >= 0 ==> 0 <= x / m <= x
    ensures x < 0 ==> x <= x / m < 0
  {
    var y := if x >= 0 then x else -1 - x;
    var q, r := y / m, y % m;
    DivModForm(y, m);
    MulMono(1, m, q);
    assert m * q == q * m && q <= y;
    if x < 0 {
      assert (-1 - q) * m == -m - q * m;
      DivModUnique(x, m, -1 - q, m - 1 - r);
    }
  }

  /** Dividing by 2^a and then by 2^b is dividing by 2^(a+b); remainders join accordingly. */
  lemma DivModSplit(x: int, a: nat, b: nat)
    ensures x / Pow2(a + b) == x / Pow2(a) / Pow2(b)
    ensures x % Pow2(a + b) == x % Pow2(a) + Pow2(a) * (x / Pow2(a) % Pow2(b))
  {
    Pow2Add(a, b);
    DivModSplitAt(x, Pow2(a), Pow2(b), x / Pow2(a), x / Pow2(a) / Pow2(b));
  }

  lemma DivModSplitAt(x: int, p: int, q: int, y: int, z: int)
    requires p > 0 && q > 0 && y == x / p && z == y / q
    ensures x / (p * q) == z && x % (p * q) == x % p + p * (y % q)
  {
    DivModForm(x, p);
    DivModForm(y, q);
    var r := x % p + p * (y % q);
    assert x == z * (p * q) + r by {
      assert y * p == (z * q + y % q) * p;
      assert (z * q + y % q) * p == z * (p * q) + p * (y % q);
    }
    assert 0 <= r < p * q by {
      MulMono(0, y % q, p);
      MulMono(y % q, q - 1, p);
      assert (q - 1) * p == p * q - p;
    }
    DivModUnique(x, p * q, z, r);
  }

  /** Splitting off the lowest byte. */
  lemma SplitByte(x: int, n: nat)
    requires n > 0
    ensures x % Pow2(8 * n) == x % 256 + 256 * (x / 256 % Pow2(8 * (n - 1)))
  {
    assert Pow2(8) == 256;
    DivModSplit(x, 8, 8 * (n - 1));
  }

  lemma Distribute(p: int, a: int, b: int)
    ensures p * (a + b) == p * a + p * b
    ensures p * (a - b) == p * a - p * b
  {
  }
}
