/** Shared pseudocode of the ARMv8 model (aarch64_small/armV8_common_lib.sail): addition with
    flags, condition codes, shifts with carry, replication and bit scans. */
module CommonLib {
  import opened Ints
  import opened BitVectors

  // ----- AddWithCarry -----

  datatype Flags = Flags(n: bool, z: bool, c: bool, v: bool)

  function UnsignedSum(x: Bits, y: Bits, carryIn: bool): nat { UInt(x) + UInt(y) + BoolInt(carryIn) }
  function SignedSum(x: Bits, y: Bits, carryIn: bool): int { SInt(x) + SInt(y) + BoolInt(carryIn) }

  function FlagsOf(result: Bits, unsignedSum: nat, signedSum: int): Flags
    requires |result| > 0
  {
    var n := result[|result| - 1];
    var z := IsZero(result);
    var c := UInt(result) != unsignedSum;
    var v := SInt(result) != signedSum;
    Flags(n, z, c, v)
  }

  function AddWithCarry(x: Bits, y: Bits, carryIn: bool): (r: (Bits, Flags))
    requires |x| == |y| > 0
    ensures |r.0| == |x|
  {
    var unsignedSum := UnsignedSum(x, y, carryIn);
    var signedSum := SignedSum(x, y, carryIn);
    var result := ToBits(|x|, unsignedSum);
    (result, FlagsOf(result, unsignedSum, signedSum))
  }

  predicate InSignedRange(n: nat, v: int)
    requires n > 0
  {
    -Pow2(n - 1) <= v < Pow2(n - 1)
  }

  /** What result and flags say about an exact unsigned sum and an exact signed sum: result and carry
      hold the whole unsigned sum, and overflow is leaving the signed range. */
  ghost predicate Reports(r: Bits, f: Flags, sum: int, signed: int)
    requires |r| > 0
  {
    && UInt(r) + (if f.c then Pow2(|r|) else 0) == sum
    && (f.c <==> sum >= Pow2(|r|))
    && (f.z <==> UInt(r) == 0)
    && (f.n <==> SInt(r) < 0)
    && (f.v <==> !InSignedRange(|r|, signed))
    && (!f.v ==> SInt(r) == signed)
    && r == ToBits(|r|, signed)
  }

  lemma AddWithCarryMeaning(x: Bits, y: Bits, cin: bool)
    requires |x| == |y| > 0
    ensures var (r, f) := AddWithCarry(x, y, cin);
            Reports(r, f, UnsignedSum(x, y, cin), SignedSum(x, y, cin))
  {
    UIntRange(x);
    UIntRange(y);
    SIntRange(x);
    SIntRange(y);
    WrapCases(|x|, UInt(x), UInt(y), SInt(x), SInt(y), BoolInt(cin));
    ReportsSum(|x|, UnsignedSum(x, y, cin), SignedSum(x, y, cin));
  }

  lemma ReportsSum(n: nat, sum: nat, signed: int)
    requires n > 0 && sum < 2 * Pow2(n) && ToBits(n, sum) == ToBits(n, signed)
    ensures var r := ToBits(n, sum); Reports(r, FlagsOf(r, sum, signed), sum, signed)
  {
    CarryOut(n, sum);
    IsZeroValue(ToBits(n, sum));
    SignedResult(n, signed);
  }

  lemma CarryOut(n: nat, sum: nat)
    requires sum < 2 * Pow2(n)
    ensures UInt(ToBits(n, sum)) == sum - (if sum >= Pow2(n) then Pow2(n) else 0)
  {
    UIntToBits(n, sum);
    if sum < Pow2(n) { SmallMod(sum, Pow2(n)); } else { ModLess(sum, Pow2(n)); SmallMod(sum - Pow2(n), Pow2(n)); }
  }

  /** The unsigned and the signed sum truncate to the same bits. */
  lemma WrapCases(n: nat, ux: int, uy: int, sx: int, sy: int, c: int)
    requires sx == ux || sx == ux - Pow2(n)
    requires sy == uy || sy == uy - Pow2(n)
    ensures ToBits(n, ux + uy + c) == ToBits(n, sx + sy + c)
  {
    ToBitsWrap(n, ux + uy + c);
    ToBitsWrap(n, ux + uy + c - Pow2(n));
  }

  /** Truncation keeps a signed value exactly when it is in range. */
  lemma SignedResult(n: nat, v: int)
    requires n > 0
    ensures SInt(ToBits(n, v)) == v <==> InSignedRange(n, v)
    ensures SInt(ToBits(n, v)) < 0 <==> ToBits(n, v)[n - 1]
  {
    SIntRange(ToBits(n, v));
    if InSignedRange(n, v) { SIntToBits(n, v); }
  }

  /** Subtraction is addition of the complement; its carry means "no borrow". */
  lemma SubtractMeaning(x: Bits, y: Bits, cin: bool)
    requires |x| == |y| > 0
    ensures UnsignedSum(x, Not(y), cin) == UInt(x) - UInt(y) - BoolInt(!cin) + Pow2(|x|)
    ensures SignedSum(x, Not(y), cin) == SInt(x) - SInt(y) - BoolInt(!cin)
  {
    UIntNot(y);
    SIntNot(y);
  }

  // ----- ConditionHolds -----

  /** A four-bit condition code. */
  type Cond = c: nat | c < 16

  function ConditionHolds(cond: Cond, f: Flags): bool {
    var base :=
      match cond / 2
      case 0 => f.z
      case 1 => f.c
      case 2 => f.n
      case 3 => f.v
      case 4 => f.c && !f.z
      case 5 => f.n == f.v
      case 6 => f.n == f.v && !f.z
      case _ => true;
    if cond % 2 == 1 && cond != 15 then !base else base
  }

  /** What each condition code says about the operands of a comparison. */
  predicate Compares(cond: Cond, x: Bits, y: Bits)
    requires |x| == |y| > 0
  {
    var diff := SInt(x) - SInt(y);
    match cond
    case 0 => x == y                              // EQ
    case 1 => x != y                              // NE
    case 2 => UInt(x) >= UInt(y)                  // HS
    case 3 => UInt(x) < UInt(y)                   // LO
    case 4 => SInt(ToBits(|x|, diff)) < 0         // MI
    case 5 => SInt(ToBits(|x|, diff)) >= 0        // PL
    case 6 => !InSignedRange(|x|, diff)           // VS
    case 7 => InSignedRange(|x|, diff)            // VC
    case 8 => UInt(x) > UInt(y)                   // HI
    case 9 => UInt(x) <= UInt(y)                  // LS
    case 10 => SInt(x) >= SInt(y)                 // GE
    case 11 => SInt(x) < SInt(y)                  // LT
    case 12 => SInt(x) > SInt(y)                  // GT
    case 13 => SInt(x) <= SInt(y)                 // LE
    case _ => true                                // AL, NV
  }

  /** After a compare every condition code decides exactly its comparison, at every width. */
  lemma ConditionsDecideComparisons(x: Bits, y: Bits, cond: Cond)
    requires |x| == |y| > 0
    ensures ConditionHolds(cond, AddWithCarry(x, Not(y), true).1) <==> Compares(cond, x, y)
  {
    SubtractMeaning(x, y, true);
    AddWithCarryMeaning(x, Not(y), true);
    EqualByValue(x, y);
    UIntRange(x);
    UIntRange(y);
    SignedOrderFromFlags(x, y);
  }

  lemma EqualByValue(x: Bits, y: Bits)
    requires |x| == |y| > 0
    ensures x == y <==> UInt(x) == UInt(y)
    ensures x == y <==> SInt(x) == SInt(y)
  {
    if UInt(x) == UInt(y) { UIntInjective(x, y); }
    SIntRange(x);
    SIntRange(y);
    UIntRange(x);
    UIntRange(y);
  }

  /** The wrapped difference is negative exactly when the true one is, unless it overflowed. */
  lemma SignedOrderFromFlags(x: Bits, y: Bits)
    requires |x| == |y| > 0
    ensures var (r, f) := AddWithCarry(x, Not(y), true);
            (f.n == f.v <==> SInt(x) >= SInt(y)) && (f.z <==> x == y)
  {
    var n, diff := |x|, SInt(x) - SInt(y);
    var (r, f) := AddWithCarry(x, Not(y), true);
    SubtractMeaning(x, y, true);
    AddWithCarryMeaning(x, Not(y), true);
    EqualByValue(x, y);
    SIntRange(x);
    SIntRange(y);
    SIntRange(r);
    UIntRange(x);
    UIntRange(y);
    UIntToBits(n, diff);
    if diff >= Pow2(n - 1) {
      SmallMod(diff, Pow2(n));
    } else if diff < -Pow2(n - 1) {
      ModShift(diff, 1, Pow2(n));
      SmallMod(diff + Pow2(n), Pow2(n));
    }
  }

  // ----- carry chains -----

  /** The number whose limbs, least significant first, are xs; every limb has w bits. */
  function ChainValue(w: nat, xs: seq<Bits>): int {
    if xs == [] then 0 else UInt(xs[0]) + Pow2(w) * ChainValue(w, xs[1..])
  }

  predicate Limbs(w: nat, xs: seq<Bits>) { forall x :: x in xs ==> |x| == w }

  /** The first limb added with the given carry, each further limb with the carry flag of the one before. */
  function AddChain(w: nat, xs: seq<Bits>, ys: seq<Bits>, cin: bool): (r: (seq<Bits>, bool))
    requires w > 0 && |xs| == |ys| && Limbs(w, xs) && Limbs(w, ys)
    ensures |r.0| == |xs| && Limbs(w, r.0)
  {
    if xs == [] then ([], cin)
    else
      assert xs[0] in xs && ys[0] in ys;
      var (r, f) := AddWithCarry(xs[0], ys[0], cin);
      var (rest, cout) := AddChain(w, xs[1..], ys[1..], f.c);
      ([r] + rest, cout)
  }

  function NotAll(w: nat, ys: seq<Bits>): (r: seq<Bits>)
    requires Limbs(w, ys)
    ensures |r| == |ys| && Limbs(w, r)
  {
    if ys == [] then [] else assert ys[0] in ys; [Not(ys[0])] + NotAll(w, ys[1..])
  }

  /** A chain of any length computes the full sum; the last carry is the carry-out. */
  lemma {:induction false} AddChainExact(w: nat, xs: seq<Bits>, ys: seq<Bits>, cin: bool)
    requires w > 0 && |xs| == |ys| && Limbs(w, xs) && Limbs(w, ys)
    ensures var (r, cout) := AddChain(w, xs, ys, cin);
            ChainValue(w, r) + (if cout then Pow2(w * |xs|) else 0)
            == ChainValue(w, xs) + ChainValue(w, ys) + BoolInt(cin)
    decreases |xs|
  {
    if xs == [] {
      assert w * |xs| == 0;
    } else {
      assert xs[0] in xs && ys[0] in ys;
      var (r, f) := AddWithCarry(xs[0], ys[0], cin);
      AddWithCarryMeaning(xs[0], ys[0], cin);
      AddChainExact(w, xs[1..], ys[1..], f.c);
      var (rest, cout) := AddChain(w, xs[1..], ys[1..], f.c);
      assert ([r] + rest)[1..] == rest;
      ChainStep(w, |xs|, ChainValue(w, rest), ChainValue(w, xs[1..]), ChainValue(w, ys[1..]), cout, f.c);
    }
  }

  lemma ChainStep(w: nat, k: nat, rest: int, xs: int, ys: int, cout: bool, c: bool)
    requires k > 0 && rest + (if cout then Pow2(w * (k - 1)) else 0) == xs + ys + BoolInt(c)
    ensures Pow2(w) * rest + (if cout then Pow2(w * k) else 0)
         == Pow2(w) * xs + Pow2(w) * ys + (if c then Pow2(w) else 0)
  {
    TopWeight(w, k);
    ChainStepAt(Pow2(w), if cout then Pow2(w * (k - 1)) else 0, rest, xs, ys, BoolInt(c));
  }

  lemma ChainStepAt(p: int, q: int, rest: int, xs: int, ys: int, c: int)
    requires rest + q == xs + ys + c
    ensures p * rest + p * q == p * xs + p * ys + p * c
  {
    Distribute(p, rest, q);
    Distribute(p, xs + ys, c);
    Distribute(p, xs, ys);
  }

  lemma TopWeight(w: nat, k: nat)
    requires k > 0
    ensures w * (k - 1) >= 0 && w * k == w + w * (k - 1) && Pow2(w * k) == Pow2(w) * Pow2(w * (k - 1))
  {
    MulMono(0, k - 1, w);
    Distribute(w, k - 1, 1);
    TopWeightAt(w, w * (k - 1), w * k);
  }

  lemma TopWeightAt(w: nat, m: nat, t: nat)
    requires t == w + m
    ensures Pow2(t) == Pow2(w) * Pow2(m)
  {
    Pow2Add(w, m);
  }

  lemma {:induction false} NotAllValue(w: nat, ys: seq<Bits>)
    requires Limbs(w, ys)
    ensures ChainValue(w, NotAll(w, ys)) == Pow2(w * |ys|) - 1 - ChainValue(w, ys)
    decreases |ys|
  {
    if ys == [] {
      assert w * |ys| == 0;
    } else {
      NotAllValue(w, ys[1..]);
      NotAllHead(w, ys);
      TopWeight(w, |ys|);
      NotStep(Pow2(w), Pow2(w * (|ys| - 1)), UInt(ys[0]), ChainValue(w, ys[1..]), ChainValue(w, NotAll(w, ys[1..])));
    }
  }

  lemma NotAllHead(w: nat, ys: seq<Bits>)
    requires Limbs(w, ys) && ys != []
    ensures ChainValue(w, NotAll(w, ys)) == Pow2(w) - 1 - UInt(ys[0]) + Pow2(w) * ChainValue(w, NotAll(w, ys[1..]))
  {
    assert ys[0] in ys;
    UIntNot(ys[0]);
    assert NotAll(w, ys)[1..] == NotAll(w, ys[1..]);
  }

  lemma NotStep(p: int, q: int, y: int, v: int, r: int)
    requires r == q - 1 - v
    ensures (p - 1 - y) + p * r == p * q - 1 - (y + p * v)
  {
    Distribute(p, q - 1, v);
    Distribute(p, q, 1);
  }

  /** SUBS then SBCS on any number of limbs: the full difference, with a borrow exactly when the carry is clear. */
  lemma SubtractChainExact(w: nat, xs: seq<Bits>, ys: seq<Bits>)
    requires w > 0 && |xs| == |ys| && Limbs(w, xs) && Limbs(w, ys)
    ensures var (r, cout) := AddChain(w, xs, NotAll(w, ys), true);
            ChainValue(w, r) == ChainValue(w, xs) - ChainValue(w, ys) + (if cout then 0 else Pow2(w * |xs|))
  {
    AddChainExact(w, xs, NotAll(w, ys), true);
    NotAllValue(w, ys);
  }
}
