/** Exact rationals of lib/sail.c: the Babylonian square root and exponentiation by squaring.
    GMP rationals (`mpq_t`) are exact, so they are modelled by `real`. */
module SailReals {
  import opened Ints

  // ----- integer square root (`mpz_sqrt`) -----

  /** The largest integer whose square does not exceed n. */
  function ISqrt(n: nat): nat {
    if n == 0 then 0
    else
      var r := ISqrt(n - 1);
      if r * r + 2 * r + 1 <= n then r + 1 else r
  }

  lemma {:induction false} ISqrtBounds(n: nat)
    ensures ISqrt(n) * ISqrt(n) <= n < (ISqrt(n) + 1) * (ISqrt(n) + 1)
    ensures n <= ISqrt(n) * ISqrt(n) + 2 * ISqrt(n)
    ensures n > 0 ==> ISqrt(n) > 0
  {
    if n > 0 {
      var r := ISqrt(n - 1);
      ISqrtBounds(n - 1);
      assert (r + 1) * (r + 1) == r * r + 2 * r + 1;
      assert (r + 2) * (r + 2) == r * r + 4 * r + 4;
    }
  }

  predicate PerfectSquare(n: int) { n >= 0 && ISqrt(n) * ISqrt(n) == n }

  lemma RootUnique(k: int, r: int, n: int)
    requires 0 <= k && 0 <= r && k * k == n && r * r <= n < (r + 1) * (r + 1)
    ensures k == r
  {
    if k < r { MulMono(k + 1, r, k + 1); MulMono(k + 1, r, r); }
    if r < k { MulMono(r + 1, k, r + 1); MulMono(r + 1, k, k); }
  }

  /** The test recognises exactly the squares (`mpz_perfect_square_p`). */
  lemma PerfectSquareExact(n: int)
    ensures PerfectSquare(n) <==> exists k: nat :: k * k == n
  {
    forall k: nat | k * k == n ensures PerfectSquare(n) {
      SquareIsNat(k);
      ISqrtBounds(n);
      RootUnique(k, ISqrt(n), n);
    }
  }

  lemma SquareIsNat(k: nat)
    ensures k * k >= 0
  {
  }

  /** Smallest integer not below x (`mpz_cdiv_q` of numerator and denominator). */
  function Ceiling(x: real): int { -((-x).Floor) }

  /** 10^-30: the convergence bound 1 / 10^SQRT_PRECISION. */
  const CONVERGENCE: real := 1.0 / 1_000_000_000_000_000_000_000_000_000_000.0

  function AbsReal(x: real): real { if x < 0.0 then -x else x }

  // ----- one Babylonian step -----

  function Next(op: real, p: real): real
    requires p > 0.0
  {
    (p + op / p) / 2.0
  }

  /** The error after a step is the square of the step: n^2 - op == (p - n)^2. */
  lemma StepIdentity(op: real, p: real)
    requires p > 0.0
    ensures var n := Next(op, p);
            n * n - op == (p - n) * (p - n) && (p - n) * p * 2.0 == p * p - op
  {
    var q := op / p;
    var n := (p + q) / 2.0;
    assert q * p == op;
    assert p - n == (p - q) / 2.0;
    assert (p - n) * p * 2.0 == p * p - q * p;
    SquareDifference(p, q);
  }

  lemma SquareDifference(p: real, q: real)
    ensures ((p + q) / 2.0) * ((p + q) / 2.0) - q * p == ((p - q) / 2.0) * ((p - q) / 2.0)
  {
    var s, d := (p + q) / 2.0, (p - q) / 2.0;
    assert p == s + d && q == s - d;
    assert q * p == (s - d) * s + (s - d) * d;
    assert (s - d) * s == s * s - d * s && (s - d) * d == s * d - d * d;
  }

  lemma SignOfFactor(x: real, p: real)
    requires p > 0.0
    ensures x * p >= 0.0 <==> x >= 0.0
    ensures x * p <= 0.0 <==> x <= 0.0
  {
  }

  lemma ProductMono(a: real, b: real, c: real)
    requires a <= b && c >= 0.0
    ensures a * c <= b * c
  {
    assert (b - a) * c >= 0.0;
    assert (b - a) * c == b * c - a * c;
  }

  /** Squaring preserves and reflects the order of non-negative numbers. */
  lemma SquareOrder(a: real, b: real)
    requires a >= 0.0 && b >= 0.0
    ensures a <= b <==> a * a <= b * b
  {
    assert (b - a) * (b + a) == b * b - a * a by {
      assert (b - a) * (b + a) == (b - a) * b + (b - a) * a;
      assert (b - a) * b == b * b - a * b && (b - a) * a == b * a - a * a;
    }
    if a + b > 0.0 { SignOfFactor(b - a, b + a); } else { assert a == 0.0 && b == 0.0; }
  }

  /** What later arguments need to know about a step from p to n. */
  ghost predicate StepTo(op: real, p: real, n: real) {
    && p > 0.0 && n > 0.0
    && n * n - op == (p - n) * (p - n)
    && (p - n) * p * 2.0 == p * p - op
  }

  lemma StepFacts(op: real, p: real)
    requires op >= 0.0 && p > 0.0
    ensures StepTo(op, p, Next(op, p))
  {
    StepIdentity(op, p);
    SignOfFactor(op / p, p);
    assert op / p * p == op;
  }

  /** From an estimate that is not too small, the squared error shrinks by a factor of at least four. */
  lemma ErrorShrinks(op: real, p: real, n: real)
    requires op >= 0.0 && StepTo(op, p, n) && p * p >= op
    ensures 4.0 * (n * n - op) <= p * p - op
  {
    var d, e := p - n, p * p - op;
    SignOfFactor(d, p);
    assert (p - 2.0 * d) * p == op by { assert (p - 2.0 * d) * p == p * p - d * p * 2.0; }
    SignOfFactor(p - 2.0 * d, p);
    ProductMono(2.0 * d, p, 2.0 * d);
    assert 2.0 * d * (2.0 * d) == 4.0 * (d * d);
    assert p * (2.0 * d) == d * p * 2.0;
  }

  /** The iteration starts from the integer square root p of op rounded up, for which p^2 is within 2p of op. */
  lemma StartBound(op: real, c: nat, p: nat)
    requires op > 0.0 && c == Ceiling(op) && p == ISqrt(c)
    ensures p >= 1 && NearStart(op, p as real)
  {
    ISqrtBounds(c);
    IntSquare(p);
    assert c as real - 1.0 <= op <= c as real;
    assert (p * p) as real <= c as real <= (p * p) as real + 2.0 * p as real;
  }

  lemma IntSquare(p: int)
    ensures (p * p) as real == p as real * p as real
  {
  }

  predicate NearStart(op: real, p: real) { p > 0.0 && -(2.0 * p) <= p * p - op <= 2.0 * p }

  lemma UnitSquare(d: real, r: real, e: real)
    requires r > 0.0 && d * r * 2.0 == e && -(2.0 * r) <= e <= 2.0 * r
    ensures d * d <= 1.0
  {
    var s := 2.0 * r;
    assert (1.0 + d) * s == s + e by { assert d * s == d * r * 2.0; }
    assert (1.0 - d) * s == s - e;
    SignOfFactor(1.0 + d, s);
    SignOfFactor(1.0 - d, s);
    ProductMono(0.0, 1.0 - d, 1.0 + d);
    assert (1.0 - d) * (1.0 + d) == 1.0 - d * d;
  }

  /** From the integer starting point the first step moves by at most one. */
  lemma FirstStep(op: real, p: real, n: real)
    requires NearStart(op, p) && StepTo(op, p, n)
    ensures n * n - op <= 1.0
  {
    UnitSquare(p - n, p, p * p - op);
  }

  // ----- what the result means -----

  /** Any n with op <= n^2 < op + eps^2 is at least the true root and less than eps above it. */
  lemma NearRoot(op: real, n: real, root: real)
    requires n >= 0.0 && root >= 0.0 && root * root == op
    requires op <= n * n < op + CONVERGENCE * CONVERGENCE
    ensures root <= n < root + CONVERGENCE
  {
    var eps := CONVERGENCE;
    SquareOrder(root, n);
    SquareOrder(root + eps, n);
    assert root * eps >= 0.0;
    assert (root + eps) * (root + eps) == root * root + 2.0 * (root * eps) + eps * eps by {
      assert (root + eps) * (root + eps) == (root + eps) * root + (root + eps) * eps;
      assert (root + eps) * root == root * root + eps * root && (root + eps) * eps == root * eps + eps * eps;
    }
  }

  // ----- counting iterations -----

  /** 4^-k. */
  function Quarter(k: nat): (q: real)
    ensures q > 0.0
  {
    if k == 0 then 1.0 else Quarter(k - 1) / 4.0
  }

  lemma {:induction false} QuarterDecreases(i: nat, j: nat)
    requires i <= j
    ensures Quarter(j) <= Quarter(i)
    decreases j
  {
    if i < j { QuarterDecreases(i, j - 1); }
  }

  lemma QuarterTwo(k: nat)
    ensures Quarter(k + 2) * 16.0 == Quarter(k)
  {
    assert Quarter(k + 1) * 4.0 == Quarter(k);
  }

  lemma QuarterTen(k: nat)
    ensures Quarter(k + 10) * 1_048_576.0 == Quarter(k)
  {
    QuarterTwo(k);
    QuarterTwo(k + 2);
    QuarterTwo(k + 4);
    QuarterTwo(k + 6);
    QuarterTwo(k + 8);
  }

  /** A hundred quarterings pass below 10^-60. */
  lemma QuarterHundred(k: nat)
    requires k == 0
    ensures Quarter(k + 100) < CONVERGENCE * CONVERGENCE
  {
    QuarterTen(k);
    QuarterTen(k + 10);
    QuarterTen(k + 20);
    QuarterTen(k + 30);
    QuarterTen(k + 40);
    QuarterTen(k + 50);
    QuarterTen(k + 60);
    QuarterTen(k + 70);
    QuarterTen(k + 80);
    QuarterTen(k + 90);
  }

  lemma CannotContinue(k: nat, err: real)
    requires CONVERGENCE * CONVERGENCE <= err <= Quarter(k)
    ensures k < 100
  {
    QuarterHundred(0);
    if k >= 100 { QuarterDecreases(100, k); }
  }

  /** The estimate p after `rounds` rounds. */
  ghost predicate Estimate(op: real, p: real, rounds: nat) {
    && p > 0.0
    && (rounds == 0 ==> NearStart(op, p))
    && (rounds > 0 ==> 0.0 <= p * p - op <= Quarter(rounds - 1))
  }

  lemma SquareNonNegative(d: real)
    ensures d * d >= 0.0
  {
  }

  /** One round keeps the error bound. */
  lemma Round(op: real, p: real, n: real, rounds: nat)
    requires op > 0.0 && Estimate(op, p, rounds) && StepTo(op, p, n)
    ensures Estimate(op, n, rounds + 1)
  {
    SquareNonNegative(p - n);
    if rounds == 0 { FirstStep(op, p, n); } else { ErrorShrinks(op, p, n); }
  }

  /** The step size is small exactly when the error is below its square. */
  lemma SmallStep(op: real, p: real, n: real, eps: real)
    requires StepTo(op, p, n) && eps > 0.0
    ensures AbsReal(p - n) < eps <==> n * n - op < eps * eps
  {
    var tmp := AbsReal(p - n);
    assert tmp * tmp == (p - n) * (p - n);
    SquareOrder(eps, tmp);
  }

  /** The accuracy promised for a result. */
  ghost predicate Close(op: real, n: real) { n > 0.0 && op <= n * n < op + CONVERGENCE * CONVERGENCE }

  /** A round either ends with an accurate estimate or is one of the first hundred. */
  lemma RoundEnds(op: real, p: real, n: real, rounds: nat)
    requires op > 0.0 && Estimate(op, p, rounds) && StepTo(op, p, n)
    ensures Estimate(op, n, rounds + 1)
    ensures AbsReal(p - n) < CONVERGENCE ==> Close(op, n)
    ensures AbsReal(p - n) >= CONVERGENCE ==> rounds < 100
  {
    Round(op, p, n, rounds);
    SmallStep(op, p, n, CONVERGENCE);
    if AbsReal(p - n) >= CONVERGENCE { CannotContinue(rounds, n * n - op); }
  }

  /** `sqrt_real`: terminates for every op >= 0 after at most 101 rounds, with a result that is the exact
      root of a perfect square and otherwise satisfies op <= result^2 < op + 10^-60. */
  method SqrtReal(op: real) returns (rop: real, ghost rounds: nat)
    requires op >= 0.0
    ensures rop >= 0.0 && op <= rop * rop < op + CONVERGENCE * CONVERGENCE
    ensures op == op.Floor as real && PerfectSquare(op.Floor) ==> rop * rop == op
    ensures rounds <= 101
  {
    if op == op.Floor as real && PerfectSquare(op.Floor) {
      var root := ISqrt(op.Floor);
      IntSquare(root);
      return root as real, 0;
    }
    assert op != 0.0;
    rop, rounds := Babylonian(op);
  }

  /** The loop of `sqrt_real`. */
  method Babylonian(op: real) returns (rop: real, ghost rounds: nat)
    requires op > 0.0
    ensures Close(op, rop) && rounds <= 101
  {
    rounds := 0;
    assert Ceiling(op) >= 1;
    var start := ISqrt(Ceiling(op));
    StartBound(op, Ceiling(op), start);
    var p := start as real;
    while true
      invariant rounds <= 100 && p > 0.0 && Estimate(op, p, rounds)
      decreases 101 - rounds
    {
      var n := op / p;
      n := (n + p) / 2.0;
      assert n == Next(op, p);
      StepFacts(op, p);
      RoundEnds(op, p, n, rounds);
      var tmp := p - n;
      tmp := AbsReal(tmp);
      rounds := rounds + 1;
      if tmp < CONVERGENCE {
        rop := n;
        break;
      }
      n, p := p, n;
    }
  }

  // ----- real_power -----

  function Power(b: real, e: nat): real {
    if e == 0 then 1.0 else b * Power(b, e - 1)
  }

  /** The specification: base^exp for any integer exponent. */
  function IntPower(base: real, exp: int): real
    requires exp < 0 ==> base != 0.0
  {
    if exp >= 0 then Power(base, exp) else PowerNonZero(base, -exp); 1.0 / Power(base, -exp)
  }

  lemma {:induction false} PowerNonZero(b: real, e: nat)
    requires b != 0.0
    ensures Power(b, e) != 0.0
  {
    if e > 0 { PowerNonZero(b, e - 1); }
  }

  lemma {:induction false} PowerSquare(b: real, e: nat)
    ensures Power(b, 2 * e) == Power(b * b, e)
  {
    if e > 0 {
      PowerSquare(b, e - 1);
      assert Power(b, 2 * e) == b * Power(b, 2 * e - 1);
      assert Power(b, 2 * e - 1) == b * Power(b, 2 * e - 2);
      assert b * (b * Power(b, 2 * e - 2)) == (b * b) * Power(b, 2 * e - 2);
    }
  }

  /** Exponents add: the law that fixes `Power` as exponentiation. */
  lemma {:induction false} PowerAdd(b: real, d: nat, e: nat)
    ensures Power(b, d + e) == Power(b, d) * Power(b, e)
  {
    if d > 0 {
      PowerAdd(b, d - 1, e);
      assert b * (Power(b, d - 1) * Power(b, e)) == (b * Power(b, d - 1)) * Power(b, e);
    }
  }

  /** One more factor of the base, at every integer exponent. */
  lemma IntPowerStep(b: real, e: int)
    requires b != 0.0
    ensures IntPower(b, 0) == 1.0
    ensures IntPower(b, e + 1) == b * IntPower(b, e)
  {
    if e < 0 {
      PowerNonZero(b, -e);
      PowerNonZero(b, -e - 1);
      InverseStep(b, Power(b, -e - 1));
    }
  }

  lemma InverseStep(b: real, p: real)
    requires b != 0.0 && p != 0.0
    ensures b * p != 0.0 && 1.0 / p == b * (1.0 / (b * p))
  {
    var q := 1.0 / (b * p);
    assert q * (b * p) == 1.0;
    Associate(q, b, p);
    assert (q * b) * p == 1.0;
  }

  /** f gains a factor b from k to k + 1. */
  predicate Gains(f: int -> real, b: real, k: int) { f(k + 1) == b * f(k) }

  /** f starts at one and gains a factor b with every step. */
  ghost predicate Exponential(f: int -> real, b: real) { b != 0.0 && f(0) == 1.0 && forall k :: Gains(f, b, k) }

  lemma {:induction false} ExponentialAdds(b: real, f: int -> real, d: int, e: int)
    requires Exponential(f, b)
    ensures f(d + e) == f(d) * f(e)
    decreases Abs(d)
  {
    if d > 0 {
      ExponentialAdds(b, f, d - 1, e);
      assert Gains(f, b, d - 1) && Gains(f, b, d - 1 + e);
      SameFactor(b, f(d - 1), f(e), f(d - 1 + e), f(d), f(d + e));
    } else if d < 0 {
      ExponentialAdds(b, f, d + 1, e);
      assert Gains(f, b, d) && Gains(f, b, d + e);
      SameFactor(b, f(d), f(e), f(d + e), f(d + 1), f(d + e + 1));
    }
  }

  lemma SameFactor(b: real, x: real, y: real, z: real, x': real, z': real)
    requires b != 0.0 && x' == b * x && z' == b * z
    ensures z == x * y <==> z' == x' * y
  {
    Associate(b, x, y);
    if z' == x' * y { Cancel(b, z, x * y); }
  }

  lemma Cancel(b: real, x: real, y: real)
    requires b != 0.0 && b * x == b * y
    ensures x == y
  {
    assert b * (x - y) == 0.0;
  }

  /** `IntPower` as a function of the exponent. */
  function Powers(b: real): int -> real
    requires b != 0.0
  {
    (k: int) => IntPower(b, k)
  }

  lemma PowersExponential(b: real)
    requires b != 0.0
    ensures Exponential(Powers(b), b)
  {
    IntPowerStep(b, 0);
    forall k ensures Gains(Powers(b), b, k) { IntPowerStep(b, k); }
  }

  /** Exponents of either sign add. */
  lemma IntPowerAdd(b: real, d: int, e: int)
    requires b != 0.0
    ensures IntPower(b, d + e) == IntPower(b, d) * IntPower(b, e)
  {
    PowersExponential(b);
    ExponentialAdds(b, Powers(b), d, e);
    assert Powers(b)(d + e) == IntPower(b, d + e) && Powers(b)(d) == IntPower(b, d) && Powers(b)(e) == IntPower(b, e);
  }

  /** Starting at one and gaining a factor of the base with every step fixes the power. */
  lemma {:induction false} IntPowerUnique(b: real, f: int -> real, e: int)
    requires Exponential(f, b)
    ensures f(e) == IntPower(b, e)
    decreases Abs(e)
  {
    IntPowerStep(b, if e > 0 then e - 1 else e);
    if e > 0 {
      IntPowerUnique(b, f, e - 1);
      assert Gains(f, b, e - 1);
    } else if e < 0 {
      IntPowerUnique(b, f, e + 1);
      assert Gains(f, b, e);
      Cancel(b, f(e), IntPower(b, e));
    }
  }

  function BitLength(e: nat): nat { if e == 0 then 0 else 1 + BitLength(e / 2) }
  function PopCount(e: nat): nat { if e == 0 then 0 else e % 2 + PopCount(e / 2) }

  /** Multiplications the squaring loop still performs for exponent e. */
  function Cost(e: nat): nat {
    if e == 0 then 0 else if e % 2 == 1 then 1 + Cost(e - 1) else 1 + Cost(e / 2)
  }

  lemma {:induction false} CostExact(e: nat)
    requires e > 0
    ensures Cost(e) == PopCount(e) + BitLength(e) - 1 <= 2 * BitLength(e) - 1
  {
    if e == 1 {
      assert Cost(0) == 0 && PopCount(0) == 0 && BitLength(0) == 0;
    } else {
      CostExact(e / 2);
      if e % 2 == 1 { assert Cost(e - 1) == 1 + Cost(e / 2) by { assert (e - 1) / 2 == e / 2; } }
    }
  }

  lemma Associate(a: real, b: real, c: real)
    ensures a * (b * c) == (a * b) * c
  {
  }

  /** `real_power` by repeated squaring, for every exponent that fits a 64-bit machine integer. */
  method RealPower(base: real, exp: int) returns (rop: real, ghost mults: nat)
    requires -0x8000_0000_0000_0000 < exp < 0x8000_0000_0000_0000
    requires exp < 0 ==> base != 0.0
    ensures rop == IntPower(base, exp)
    ensures exp != 0 ==> mults == PopCount(Abs(exp)) + BitLength(Abs(exp)) - 1 <= 2 * BitLength(Abs(exp)) - 1
  {
    rop := 1.0;
    mults := 0;
    var b := base;
    var pexp: nat := Abs(exp);
    while pexp != 0
      invariant rop * Power(b, pexp) == Power(base, Abs(exp))
      invariant mults + Cost(pexp) == Cost(Abs(exp))
      decreases pexp
    {
      if pexp % 2 == 1 {
        Associate(rop, b, Power(b, pexp - 1));
        rop := rop * b;
        pexp := pexp - 1;
      } else {
        PowerSquare(b, pexp / 2);
        b := b * b;
        pexp := pexp / 2;
      }
      mults := mults + 1;
    }
    if exp != 0 { CostExact(Abs(exp)); }
    if exp < 0 {
      PowerNonZero(base, -exp);
      rop := 1.0 / rop;
    }
  }
}
