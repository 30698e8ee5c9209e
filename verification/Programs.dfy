/** What short instruction sequences compute: carry chains, compare and branch, CRC by parts, reversals. */
module Programs {
  import opened Ints
  import opened BitVectors
  import opened CommonLib
  import opened A64Lib
  import opened Gf2
  import opened SwapNetwork
  import opened Instructions
  import opened Semantics

  // ----- carry chains -----

  /** One limb of a multi-word addition: source registers n and m, destination d. */
  datatype Limb = Limb(d: RegIndex, n: RegIndex, m: RegIndex)

  /** Every limb has a real destination that no later limb reads or writes. */
  predicate Separate(limbs: seq<Limb>) {
    && (forall i :: 0 <= i < |limbs| ==> limbs[i].d != 31)
    && (forall i, j :: 0 <= i < j < |limbs| ==> limbs[i].d !in {limbs[j].d, limbs[j].n, limbs[j].m})
  }

  function Values(s: State, regs: seq<RegIndex>, N: nat): (xs: seq<Bits>)
    requires N <= 64
    ensures |xs| == |regs| && forall k :: 0 <= k < |regs| ==> xs[k] == RX(s, regs[k], N)
  {
    seq(|regs|, k requires 0 <= k < |regs| => RX(s, regs[k], N))
  }

  function Ns(limbs: seq<Limb>): (r: seq<RegIndex>) ensures |r| == |limbs| {
    seq(|limbs|, k requires 0 <= k < |limbs| => limbs[k].n)
  }

  function Ms(limbs: seq<Limb>): (r: seq<RegIndex>) ensures |r| == |limbs| {
    seq(|limbs|, k requires 0 <= k < |limbs| => limbs[k].m)
  }

  function Ds(limbs: seq<Limb>): (r: seq<RegIndex>) ensures |r| == |limbs| {
    seq(|limbs|, k requires 0 <= k < |limbs| => limbs[k].d)
  }

  /** ADCS or SBCS on every limb in turn. */
  ghost function CarryRun(limbs: seq<Limb>, N: nat, sub: bool, s: State): State
    requires Width(N)
  {
    if limbs == [] then s
    else
      var l := limbs[0];
      CarryRun(limbs[1..], N, sub, After(AddSubCarry(l.d, l.n, l.m, N, sub, true), s))
  }

  /** ADDS or SUBS on the first limb, ADCS or SBCS on the others. */
  ghost function ChainRun(limbs: seq<Limb>, N: nat, sub: bool, s: State): State
    requires Width(N) && limbs != []
  {
    var l := limbs[0];
    CarryRun(limbs[1..], N, sub, After(AddSubShiftedRegister(l.d, l.n, l.m, N, sub, true, ShiftLSL, 0), s))
  }

  function Operands(ys: seq<Bits>, N: nat, sub: bool): (r: seq<Bits>)
    requires Limbs(N, ys)
    ensures |r| == |ys| && Limbs(N, r)
  {
    if sub then NotAll(N, ys) else ys
  }

  /** The sums a chain leaves in the destinations, and the last carry. */
  function ChainOf(s: State, limbs: seq<Limb>, N: nat, sub: bool, carry: bool): (r: (seq<Bits>, bool))
    requires Width(N)
    ensures |r.0| == |limbs|
  {
    AddChain(N, Values(s, Ns(limbs), N), Operands(Values(s, Ms(limbs), N), N, sub), carry)
  }

  lemma LimbStep(s: State, s1: State, limbs: seq<Limb>, N: nat, sub: bool, carry: bool, v: Bits)
    requires Width(N) && limbs != [] && Separate(limbs) && |v| <= 64
    requires s1.x == WX(s, limbs[0].d, v).x
    ensures var (r, f) := AddWithCarry(RX(s, limbs[0].n, N), InvertIf(sub, RX(s, limbs[0].m, N)), carry);
            var rest := ChainOf(s1, limbs[1..], N, sub, f.c);
            ChainOf(s, limbs, N, sub, carry) == ([r] + rest.0, rest.1)
  {
    var xs, ys := Values(s, Ns(limbs), N), Values(s, Ms(limbs), N);
    assert xs[1..] == Values(s1, Ns(limbs[1..]), N);
    assert ys[1..] == Values(s1, Ms(limbs[1..]), N);
    assert ys[0] in ys;
    assert sub ==> NotAll(N, ys) == [Not(ys[0])] + NotAll(N, ys[1..]);
  }

  lemma {:induction false} CarryRunKeeps(limbs: seq<Limb>, N: nat, sub: bool, s: State, r: RegIndex)
    requires Width(N) && forall k :: 0 <= k < |limbs| ==> limbs[k].d != r
    ensures RX(CarryRun(limbs, N, sub, s), r, N) == RX(s, r, N)
    decreases |limbs|
  {
    if limbs != [] {
      var l := limbs[0];
      CarryStepKeeps(l, N, sub, s, r);
      CarryRunKeeps(limbs[1..], N, sub, After(AddSubCarry(l.d, l.n, l.m, N, sub, true), s), r);
    }
  }

  lemma CarryStepKeeps(l: Limb, N: nat, sub: bool, s: State, r: RegIndex)
    requires Width(N) && l.d != r
    ensures RX(After(AddSubCarry(l.d, l.n, l.m, N, sub, true), s), r, N) == RX(s, r, N)
  {
  }

  /** State s holds the sums of a chain in the destinations, and its carry in the carry flag. */
  ghost predicate Holds(s: State, limbs: seq<Limb>, N: nat, chain: (seq<Bits>, bool))
    requires Width(N)
  {
    Values(s, Ds(limbs), N) == chain.0 && s.flags.c == chain.1
  }

  lemma {:induction false} CarryRunExact(limbs: seq<Limb>, N: nat, sub: bool, s: State)
    requires Width(N) && Separate(limbs)
    ensures Holds(CarryRun(limbs, N, sub, s), limbs, N, ChainOf(s, limbs, N, sub, s.flags.c))
    decreases |limbs|
  {
    if limbs != [] {
      var l := limbs[0];
      var s1 := After(AddSubCarry(l.d, l.n, l.m, N, sub, true), s);
      AfterCarry(l, N, sub, s);
      FirstLimb(limbs, N, sub, s, s1, s.flags.c, AddWithCarry(RX(s, l.n, N), InvertIf(sub, RX(s, l.m, N)), s.flags.c));
    }
  }

  /** ADCS and SBCS: the sum of one limb in its destination, its flags. */
  lemma AfterCarry(l: Limb, N: nat, sub: bool, s: State)
    requires Width(N)
    ensures var s1 := After(AddSubCarry(l.d, l.n, l.m, N, sub, true), s);
            var first := AddWithCarry(RX(s, l.n, N), InvertIf(sub, RX(s, l.m, N)), s.flags.c);
            s1.x == WX(s, l.d, first.0).x && s1.flags == first.1
  {
  }

  /** The chain of all limbs from the effect of the first one. */
  lemma {:induction false} FirstLimb(limbs: seq<Limb>, N: nat, sub: bool, s: State, s1: State, carry: bool,
                                     first: (Bits, Flags))
    requires Width(N) && limbs != [] && Separate(limbs)
    requires first == AddWithCarry(RX(s, limbs[0].n, N), InvertIf(sub, RX(s, limbs[0].m, N)), carry)
    requires s1.x == WX(s, limbs[0].d, first.0).x && s1.flags == first.1
    ensures Holds(CarryRun(limbs[1..], N, sub, s1), limbs, N, ChainOf(s, limbs, N, sub, carry))
    decreases |limbs|, 0
  {
    var s' := CarryRun(limbs[1..], N, sub, s1);
    CarryRunExact(limbs[1..], N, sub, s1);
    CarryRunKeeps(limbs[1..], N, sub, s1, limbs[0].d);
    WrittenReads(s, limbs[0].d, first.0, N);
    LimbStep(s, s1, limbs, N, sub, carry, first.0);
    FirstDestination(s', limbs, N);
  }

  lemma FirstDestination(s: State, limbs: seq<Limb>, N: nat)
    requires Width(N) && limbs != []
    ensures Values(s, Ds(limbs), N) == [RX(s, limbs[0].d, N)] + Values(s, Ds(limbs[1..]), N)
  {
  }

  /** `sum` is x + y or x - y on k limbs, `carry` its carry-out or "no borrow". */
  predicate Exact(N: nat, k: nat, sub: bool, sum: int, carry: bool, x: int, y: int) {
    if sub then sum == x - y + (if carry then 0 else Pow2(N * k))
    else sum + (if carry then Pow2(N * k) else 0) == x + y
  }

  /** The number held in registers, least significant limb first. */
  function Number(s: State, regs: seq<RegIndex>, N: nat): int
    requires N <= 64
  {
    ChainValue(N, Values(s, regs, N))
  }

  /** ADDS/ADCS on any number of limbs computes the full sum of the source limbs, the final carry flag being
      the carry-out; SUBS/SBCS the full difference, the final carry flag being "no borrow". */
  lemma ChainRunExact(limbs: seq<Limb>, N: nat, sub: bool, s: State)
    requires Width(N) && limbs != [] && Separate(limbs)
    ensures var s' := ChainRun(limbs, N, sub, s);
            Exact(N, |limbs|, sub, Number(s', Ds(limbs), N), s'.flags.c, Number(s, Ns(limbs), N),
                  Number(s, Ms(limbs), N))
  {
    var l := limbs[0];
    var s1 := After(AddSubShiftedRegister(l.d, l.n, l.m, N, sub, true, ShiftLSL, 0), s);
    FirstLimb(limbs, N, sub, s, s1, sub, AddWithCarry(RX(s, l.n, N), InvertIf(sub, RX(s, l.m, N)), sub));
    ChainOfExact(s, limbs, N, sub);
  }

  lemma ChainOfExact(s: State, limbs: seq<Limb>, N: nat, sub: bool)
    requires Width(N)
    ensures var (r, carry) := ChainOf(s, limbs, N, sub, sub);
            Exact(N, |limbs|, sub, ChainValue(N, r), carry, Number(s, Ns(limbs), N), Number(s, Ms(limbs), N))
  {
    var xs, ys := Values(s, Ns(limbs), N), Values(s, Ms(limbs), N);
    if sub { SubtractChainExact(N, xs, ys); } else { AddChainExact(N, xs, ys, false); }
  }

  // ----- compare, then branch or select -----

  /** After CMP (SUBS to the zero register) B.cond is taken exactly when its comparison of the two registers
      holds, at both widths. */
  lemma CompareThenBranch(s: State, n: RegIndex, m: RegIndex, N: nat, cond: Cond, offset: Word)
    requires Width(N)
    ensures var s1 := After(AddSubShiftedRegister(31, n, m, N, true, true, ShiftLSL, 0), s);
            Taken(BranchConditional(offset, cond), s1) <==> Compares(cond, RX(s, n, N), RX(s, m, N))
  {
    ConditionsDecideComparisons(RX(s, n, N), RX(s, m, N), cond);
    CompareFlagsAre(s, n, m, N);
  }

  /** CMP leaves the flags of the subtraction. */
  lemma CompareFlagsAre(s: State, n: RegIndex, m: RegIndex, N: nat)
    requires Width(N)
    ensures After(AddSubShiftedRegister(31, n, m, N, true, true, ShiftLSL, 0), s).flags
         == AddWithCarry(RX(s, n, N), Not(RX(s, m, N)), true).1
  {
  }

  /** A conditional compare makes the next condition the conjunction of two comparisons when its own flags
      make that condition fail. */
  lemma ConditionalCompareChains(s: State, n: RegIndex, m: RegIndex, N: nat, first: Cond, otherwise: Flags,
                                 second: Cond)
    requires Width(N) && !ConditionHolds(second, otherwise)
    ensures var s1 := After(ConditionalCompareRegister(n, m, N, true, first, otherwise), s);
            ConditionHolds(second, s1.flags)
            <==> (ConditionHolds(first, s.flags) && Compares(second, RX(s, n, N), RX(s, m, N)))
  {
    ConditionsDecideComparisons(RX(s, n, N), RX(s, m, N), second);
    ChainedFlagsAre(s, n, m, N, first, otherwise);
  }

  /** CCMP leaves the flags of the subtraction, or the given ones. */
  lemma ChainedFlagsAre(s: State, n: RegIndex, m: RegIndex, N: nat, first: Cond, otherwise: Flags)
    requires Width(N)
    ensures After(ConditionalCompareRegister(n, m, N, true, first, otherwise), s).flags
         == if ConditionHolds(first, s.flags) then AddWithCarry(RX(s, n, N), Not(RX(s, m, N)), true).1 else otherwise
  {
  }

  // ----- reversals -----

  /** The containers whose bytes a byte reversal reverses. */
  function ContainerLog(op: RevOp): nat {
    match op
    case REV16 => 4
    case REV32 => 5
    case REV64 => 6
    case RBIT => 0
  }

  lemma RegisterPowers(op: RevOp, n: nat, m: nat)
    requires Width(n) && m == (if n == 64 then 6 else 5)
    ensures Pow2(m) == n
    ensures op == RBIT ==> ControlWord(op, n) == n - 1
    ensures op != RBIT ==> ControlWord(op, n) == Pow2(ContainerLog(op)) - 8
  {
    assert Pow2(4) == 16 && Pow2(5) == 32 && Pow2(6) == 64;
  }

  /** RBIT reverses all bits. */
  lemma RbitReversesBits(x: Bits)
    requires Width(|x|)
    ensures ReversedBy(x, RBIT) == Reversed(x)
  {
    var m := if |x| == 64 then 6 else 5;
    RegisterPowers(RBIT, |x|, m);
    ControlCovers(RBIT, |x|);
    NetworkReversesBits(x, m);
  }

  /** REV16, REV32 and REV64 reverse the bytes of every 16, 32 or 64 bits. */
  lemma RevReversesBytes(x: Bits, op: RevOp)
    requires Width(|x|) && op != RBIT && (op == REV64 ==> |x| == 64)
    ensures var w := Pow2(ContainerLog(op));
            w % 8 == 0 && w >= 8 && |x| % w == 0 && ReversedBy(x, op) == ContainersReversed(x, w)
  {
    var m := if |x| == 64 then 6 else 5;
    RegisterPowers(op, |x|, m);
    ControlCovers(op, |x|);
    NetworkReversesContainers(x, Pow2(ContainerLog(op)), ContainerLog(op), m);
  }

  /** Every reversal undoes itself. */
  lemma ReverseTwice(x: Bits, op: RevOp)
    requires Width(|x|) && (op == REV64 ==> |x| == 64)
    ensures ReversedBy(ReversedBy(x, op), op) == x
  {
    ControlCovers(op, |x|);
    NetworkInvolution(x, ControlWord(op, |x|));
  }

  // ----- CRC -----

  /** CRC32x and CRC32Cx of a value whose only one is its top bit, from the empty accumulator: bit k of the
      destination is the coefficient of x^(31 - k) of their polynomial. */
  lemma CrcShowsPolynomial(s: State, d: RegIndex, n: RegIndex, m: RegIndex, size: nat, crc32c: bool, k: nat)
    requires DataWidth(size) && d != 31 && k < 32
    requires RX(s, n, 32) == Zeros(32) && RX(s, m, size) == Zeros(size - 1) + [true]
    ensures RX(After(CRC(d, n, m, size, crc32c), s), d, 32)[k] <==> 31 - k in CrcTerms(crc32c)
  {
    var poly := CrcPoly(crc32c);
    CrcTopBit(size, poly);
    WrittenReads(s, d, CrcStep(Zeros(32), Zeros(size - 1) + [true], poly), 32);
    CrcPolyTerms(crc32c, 31 - k);
  }

  /** One CRC over a 2d-bit register equals two CRCs over its d-bit halves, low half first, for either polynomial. */
  lemma CrcByHalves(s: State, d: RegIndex, n: RegIndex, m: RegIndex, lo: RegIndex, hi: RegIndex, size: nat,
                    crc32c: bool)
    requires size in {8, 16, 32} && d != 31 && d != hi
    requires RX(s, m, 2 * size) == Concat(RX(s, hi, size), RX(s, lo, size))
    ensures RX(After(CRC(d, n, m, 2 * size, crc32c), s), d, 32)
         == RX(After(CRC(d, d, hi, size, crc32c), After(CRC(d, n, lo, size, crc32c), s)), d, 32)
  {
    var poly := CrcPoly(crc32c);
    var acc, l, h := RX(s, n, 32), RX(s, lo, size), RX(s, hi, size);
    var s1 := After(CRC(d, n, lo, size, crc32c), s);
    CrcComposes(acc, l, h, poly);
    WrittenReads(s, d, CrcStep(acc, l, poly), 32);
    WrittenReads(s, d, CrcStep(acc, Concat(h, l), poly), 32);
    WrittenReads(s1, d, CrcStep(CrcStep(acc, l, poly), h, poly), 32);
    assert RX(s1, hi, size) == h;
  }
}
