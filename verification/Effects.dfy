/** What every data-processing instruction leaves in the state, said of numbers, bits and flags rather than of
    the computation: the numbers registers hold afterwards, the comparison the flags report, and that nothing
    else has changed. */
module Effects {
  import opened Ints
  import opened BitVectors
  import opened CommonLib
  import opened Shifts
  import opened A64Lib
  import opened Gf2
  import opened SwapNetwork
  import opened Instructions
  import opened Semantics
  import opened Meanings
  import Programs

  // ----- what a state shows -----

  /** PC, system registers and memory are as before. */
  predicate Kept(s: State, s': State) { s'.(x := s.x, sp := s.sp, flags := s.flags) == s }

  /** Register d, or the stack pointer, holds the number k; the other registers are as before. */
  predicate Puts(s: State, s': State, d: RegIndex, toSp: bool, k: int) {
    && Kept(s, s')
    && (forall j: GeneralIndex :: toSp || j != d ==> s'.x[j] == s.x[j])
    && (if toSp then UInt(s'.sp) == k else s'.sp == s.sp && (d != 31 ==> UInt(s'.x[d]) == k))
  }

  predicate PutsValue(s: State, s': State, d: RegIndex, k: int) { Puts(s, s', d, false, k) && s'.flags == s.flags }

  /** The bits register d holds, or the stack pointer does. */
  function Shown(s: State, d: RegIndex, toSp: bool): Bits { if toSp then s.sp else if d == 31 then [] else s.x[d] }

  lemma CommitPuts(s: State, w: Write)
    requires |w.value| <= 64
    ensures Puts(s, Commit(s, w), w.d, w.toSp, UInt(w.value))
    ensures Commit(s, w).flags == if w.flags.Some? then w.flags.value else s.flags
    ensures w.toSp || w.d != 31 ==> Shown(Commit(s, w), w.d, w.toSp) == ZeroExtend(w.value, 64)
  {
    UIntZeroExtend(w.value, 64);
  }

  // ----- sums -----

  /** The exact sum x + y + carry, or the exact difference x - y - borrow. */
  function Total(x: int, y: int, sub: bool, carry: bool): int {
    if sub then x - y - BoolInt(!carry) else x + y + BoolInt(carry)
  }

  /** The flags report an unsigned total u and a signed total v at width n: zero and sign of the low bits,
      carry-out (for a difference: no borrow), signed overflow. */
  predicate FlagsOfTotals(n: nat, u: int, v: int, sub: bool, f: Flags)
    requires n > 0
  {
    && (f.z <==> u % Pow2(n) == 0)
    && (f.n <==> u % Pow2(n) >= Pow2(n - 1))
    && (f.c <==> if sub then u >= 0 else u >= Pow2(n))
    && (f.v <==> !InSignedRange(n, v))
  }

  predicate SumFlags(x: Bits, y: Bits, sub: bool, carry: bool, f: Flags)
    requires |x| == |y| > 0
  {
    FlagsOfTotals(|x|, Total(UInt(x), UInt(y), sub, carry), Total(SInt(x), SInt(y), sub, carry), sub, f)
  }

  lemma CarrySum(x: Bits, y: Bits, sub: bool, carry: bool)
    requires |x| == |y| > 0
    ensures var (r, f) := AddWithCarry(x, InvertIf(sub, y), carry);
            UInt(r) == Total(UInt(x), UInt(y), sub, carry) % Pow2(|x|) && SumFlags(x, y, sub, carry, f)
  {
    var y' := InvertIf(sub, y);
    AddWithCarryMeaning(x, y', carry);
    if sub { SubtractMeaning(x, y, carry); }
    var (r, f) := AddWithCarry(x, y', carry);
    TotalsReported(r, f, UnsignedSum(x, y', carry), SignedSum(x, y', carry),
                   Total(UInt(x), UInt(y), sub, carry), sub);
  }

  lemma TotalsReported(r: Bits, f: Flags, sum: int, v: int, u: int, sub: bool)
    requires |r| > 0 && Reports(r, f, sum, v) && sum == if sub then u + Pow2(|r|) else u
    ensures UInt(r) == u % Pow2(|r|) && FlagsOfTotals(|r|, u, v, sub, f)
  {
    UIntRange(r);
    TopHalf(r);
    ResidueOf(u, UInt(r), Pow2(|r|), if f.c then 1 else 0, sub);
  }

  lemma ResidueOf(u: int, r: int, m: int, c: int, sub: bool)
    requires 0 <= r < m && 0 <= c <= 1 && r + c * m == if sub then u + m else u
    ensures u % m == r
  {
    ModShift(r, if sub then c - 1 else c, m);
    SmallMod(r, m);
    if sub { Distribute(m, c, 1); }
  }

  lemma TopHalf(r: Bits)
    requires |r| > 0
    ensures SInt(r) < 0 <==> UInt(r) >= Pow2(|r| - 1)
  {
    SIntRange(r);
    UIntRange(r);
  }

  /** The total to a register or the stack pointer, its flags on request. */
  predicate SumEffect(s: State, s': State, d: RegIndex, spAllowed: bool, setflags: bool, x: Bits, y: Bits,
                      sub: bool, carry: bool)
    requires |x| == |y| > 0
  {
    && Puts(s, s', d, spAllowed && d == 31 && !setflags, Total(UInt(x), UInt(y), sub, carry) % Pow2(|x|))
    && if setflags then SumFlags(x, y, sub, carry, s'.flags) else s'.flags == s.flags
  }

  lemma SumHolds(s: State, d: RegIndex, spAllowed: bool, setflags: bool, x: Bits, y: Bits, sub: bool, carry: bool)
    requires 0 < |x| == |y| <= 64
    ensures var sum := AddWithCarry(x, InvertIf(sub, y), carry);
            SumEffect(s, Commit(s, SumWrite(d, spAllowed, setflags, sum)), d, spAllowed, setflags, x, y, sub, carry)
  {
    CarrySum(x, y, sub, carry);
    CommitPuts(s, SumWrite(d, spAllowed, setflags, AddWithCarry(x, InvertIf(sub, y), carry)));
  }

  // ----- operands -----

  /** The low 8, 16, 32 or 64 bits of a register, read unsigned or signed, times 2^shift. */
  function Extended(x: Bits, etype: ExtendType, shift: nat): Bits {
    ToBits(|x|, ExtendedNumber(UInt(x), etype) * Pow2(shift))
  }

  /** y is x multiplied, divided or turned. */
  predicate ShiftedBy(x: Bits, stype: ShiftType, amount: nat, y: Bits) {
    |y| == |x| > 0
    && match stype
       case ShiftLSL => UInt(y) == UInt(x) * Pow2(amount) % Pow2(|x|)
       case ShiftLSR => UInt(y) == UInt(x) / Pow2(amount)
       case ShiftASR => SInt(y) == SInt(x) / Pow2(amount)
       case ShiftROR => Turned(x, amount, y)
  }

  lemma ShiftHolds(x: Bits, stype: ShiftType, amount: nat)
    requires |x| > 0
    ensures ShiftedBy(x, stype, amount, ShiftReg(x, stype, amount))
  {
    match stype
    case ShiftLSL => LslMeaning(x, amount);
    case ShiftLSR => LsrMeaning(x, amount);
    case ShiftASR => AsrMeaning(x, amount);
    case ShiftROR => RorMeaning(x, amount);
  }

  /** What ShiftedBy says determines y. */
  lemma ShiftUnique(x: Bits, stype: ShiftType, amount: nat, y: Bits)
    requires ShiftedBy(x, stype, amount, y)
    ensures y == ShiftReg(x, stype, amount)
  {
    var z := ShiftReg(x, stype, amount);
    ShiftHolds(x, stype, amount);
    if stype == ShiftASR {
      SIntRange(y);
      SIntRange(z);
      UIntRange(y);
      UIntRange(z);
      UIntInjective(y, z);
    } else if stype != ShiftROR {
      UIntInjective(y, z);
    }
  }

  // ----- logic, moves and selections -----

  /** The bits shown are those of an n-bit value, zero above. */
  ghost predicate ShowsBits(s': State, d: RegIndex, toSp: bool, n: nat, bit: nat -> bool) {
    toSp || d != 31 ==> forall j: nat :: j < 64 ==> Shown(s', d, toSp)[j] == (j < n && bit(j))
  }

  ghost predicate LogicalEffect(s: State, s': State, d: RegIndex, spAllowed: bool, setflags: bool, op: BitOp,
                                x: Bits, y: Bits)
    requires |x| == |y| > 0
  {
    var toSp, top := spAllowed && d == 31 && !setflags, |x| - 1;
    && Kept(s, s') && (toSp || s'.sp == s.sp)
    && (forall j: GeneralIndex :: toSp || j != d ==> s'.x[j] == s.x[j])
    && ShowsBits(s', d, toSp, |x|, (j: nat) => j < |x| && Apply(op, x[j], y[j]))
    && if !setflags then s'.flags == s.flags
       else s'.flags == Flags(Apply(op, x[top], y[top]), forall j :: 0 <= j < |x| ==> !Apply(op, x[j], y[j]),
                              false, false)
  }

  lemma LogicalHolds(s: State, d: RegIndex, spAllowed: bool, setflags: bool, op: BitOp, x: Bits, y: Bits)
    requires 0 < |x| == |y| <= 64
    ensures LogicalEffect(s, Commit(s, LogicalWrite(d, spAllowed, setflags, BitsOp(op, x, y))), d, spAllowed,
                          setflags, op, x, y)
  {
    CommitPuts(s, LogicalWrite(d, spAllowed, setflags, BitsOp(op, x, y)));
  }

  ghost predicate BitsEffect(s: State, s': State, d: RegIndex, n: nat, bit: nat -> bool) {
    && Kept(s, s') && s'.sp == s.sp && s'.flags == s.flags
    && (forall j: GeneralIndex :: j != d ==> s'.x[j] == s.x[j])
    && ShowsBits(s', d, false, n, bit)
  }

  lemma BitsHold(s: State, d: RegIndex, v: Bits, bit: nat -> bool)
    requires |v| <= 64 && forall j: nat :: j < |v| ==> v[j] == bit(j)
    ensures BitsEffect(s, Commit(s, ValueWrite(d, v)), d, |v|, bit)
  {
    CommitPuts(s, ValueWrite(d, v));
  }

  lemma ValuePut(s: State, d: RegIndex, v: Bits, k: int)
    requires |v| <= 64 && UInt(v) == k
    ensures PutsValue(s, Commit(s, ValueWrite(d, v)), d, k)
  {
    CommitPuts(s, ValueWrite(d, v));
  }

  /** A quarter is placed, the rest is the old value (MOVK), zeros (MOVZ), and all of it inverted for MOVN. */
  predicate MovedWide(x: Bits, imm: Bits, pos: nat, opcode: MoveWideOp, j: nat)
    requires |imm| == 16 && pos + 16 <= |x| && j < |x|
  {
    if pos <= j < pos + 16 then imm[j - pos] != (opcode == MoveN) else if opcode == MoveK then x[j] else opcode == MoveN
  }

  /** The number an extract leaves: the pair of registers shifted right. */
  function ExtractNumber(hi: Bits, lo: Bits, lsb: nat): int { PairValue(hi, lo) / Pow2(lsb) % Pow2(|lo|) }

  /** The number a conditional select leaves. */
  function SelectNumber(holds: bool, x: Bits, y: Bits, inv: bool, inc: bool): int {
    if holds then UInt(x) else Adjusted(UInt(y), Pow2(|y|), inv, inc)
  }

  /** The flags after a conditional compare. */
  predicate CompareEffect(s: State, s': State, holds: bool, x: Bits, y: Bits, sub: bool, otherwise: Flags)
    requires |x| == |y| > 0
  {
    && s'.(flags := s.flags) == s
    && if holds then SumFlags(x, y, sub, sub, s'.flags) else s'.flags == otherwise
  }

  lemma CompareHolds(s: State, holds: bool, x: Bits, y: Bits, sub: bool, otherwise: Flags)
    requires |x| == |y| > 0
    ensures CompareEffect(s, Commit(s, FlagsWrite(CompareFlags(holds, x, y, sub, otherwise))), holds, x, y, sub,
                          otherwise)
  {
    CarrySum(x, y, sub, sub);
  }

  // ----- scans, quotients, products -----

  /** k is the number of topmost bits equal to b. */
  predicate RunLength(x: Bits, b: bool, k: int) {
    && 0 <= k <= |x|
    && (forall j :: |x| - k <= j < |x| ==> x[j] == b)
    && (k < |x| ==> x[|x| - 1 - k] != b)
  }

  /** CLZ counts leading zeros; CLS the bits below the sign that equal it. */
  predicate Counts(x: Bits, op: CountOp, k: int)
    requires |x| > 0
  {
    match op
    case CLZ => RunLength(x, false, k)
    case CLS => RunLength(x, x[|x| - 1], k + 1)
  }

  lemma CountHolds(x: Bits, op: CountOp)
    requires Width(|x|)
    ensures Counts(x, op, CountLeadingValue(x, op))
    ensures UInt(ToBits(|x|, CountLeadingValue(x, op))) == CountLeadingValue(x, op)
  {
    var k := CountLeadingValue(x, op);
    LeadingRunMeaning(x, false);
    LeadingRunMeaning(x, x[|x| - 1]);
    BelowPower(|x|);
    UIntToBits(|x|, k);
    SmallMod(k, Pow2(|x|));
  }

  lemma {:induction false} BelowPower(n: nat)
    ensures n < Pow2(n)
  {
    if n > 0 { BelowPower(n - 1); }
  }

  /** q is a / b rounded towards zero: what is left is smaller than b and has the sign of a. */
  predicate TruncatedQuotient(a: int, b: int, q: int) {
    var rem := a - q * b;
    b != 0 && Abs(rem) < Abs(b) && (rem == 0 || (rem < 0) == (a < 0))
  }

  ghost predicate DivisionEffect(s: State, s': State, d: RegIndex, x: Bits, y: Bits, unsigned: bool) {
    if IsZero(y) then PutsValue(s, s', d, 0)
    else exists q ::
           TruncatedQuotient(Reading(x, unsigned), Reading(y, unsigned), q) && PutsValue(s, s', d, q % Pow2(|x|))
  }

  lemma DivisionHolds(s: State, d: RegIndex, x: Bits, y: Bits, unsigned: bool)
    requires 0 < |x| <= 64
    ensures DivisionEffect(s, Commit(s, ValueWrite(d, ToBits(|x|, Quotient(x, y, unsigned)))), d, x, y, unsigned)
  {
    var q := Quotient(x, y, unsigned);
    UIntToBits(|x|, q);
    ValuePut(s, d, ToBits(|x|, q), q % Pow2(|x|));
    if IsZero(y) { SmallMod(0, Pow2(|x|)); } else { QuotientMeaning(x, y, unsigned); }
  }

  /** c + x y or c - x y. */
  function Accumulated(c: int, x: int, y: int, sub: bool): int { if sub then c - x * y else c + x * y }

  lemma AccumulatedHolds(n: nat, c: Bits, x: Bits, y: Bits, sub: bool, unsigned: bool)
    ensures UInt(ProductSum(n, c, x, y, sub, unsigned))
         == Accumulated(Reading(c, unsigned), Reading(x, unsigned), Reading(y, unsigned), sub) % Pow2(n)
  {
    UIntToBits(n, Accumulated(Reading(c, unsigned), Reading(x, unsigned), Reading(y, unsigned), sub));
  }

  /** The upper half of a 128-bit product. */
  function HighNumber(x: int, y: int): int { x * y / Pow2(64) }

  lemma HighHolds(x: Bits, y: Bits, unsigned: bool)
    ensures UInt(HighProduct(x, y, unsigned)) == HighNumber(Reading(x, unsigned), Reading(y, unsigned)) % Pow2(64)
  {
    UpperHalf(64, Reading(x, unsigned) * Reading(y, unsigned));
    UIntToBits(64, HighNumber(Reading(x, unsigned), Reading(y, unsigned)));
  }

  /** The address a PC-relative form names. */
  function PcRelative(pc: Word, page: bool, offset: Word): int { (PcBase(pc, page) + UInt(offset)) % Pow2(64) }

  function PcBase(pc: Word, page: bool): int { UInt(pc) - if page then UInt(pc) % Pow2(12) else 0 }

  lemma PcRelativeHolds(pc: Word, page: bool, offset: Word)
    ensures UInt(Plus(if page then PageBase(pc) else pc, offset)) == PcRelative(pc, page, offset)
  {
    BaseIs(pc, page);
    PlusModulo(if page then PageBase(pc) else pc, offset);
  }

  lemma BaseIs(pc: Word, page: bool)
    ensures UInt(if page then PageBase(pc) else pc) == PcBase(pc, page)
  {
    PageBaseMeaning(pc);
  }

  lemma PlusModulo(base: Word, offset: Word)
    ensures UInt(Plus(base, offset)) == (UInt(base) + UInt(offset)) % Pow2(64)
  {
    UIntToBits(64, UInt(base) + UInt(offset));
  }

  /** r is the CRC of a value appended to acc: bit-reversed, the remainder of their combination by x^32 + poly. */
  ghost predicate CrcOf(acc: Bits, val: Bits, poly: Bits, r: Bits)
    requires |acc| == |poly|
  {
    exists q :: Divides(Dividend(Reversed(acc), Reversed(val)), poly, q, Reversed(r))
  }

  lemma CrcStepHolds(acc: Bits, val: Bits, poly: Bits)
    requires |acc| == |poly|
    ensures CrcOf(acc, val, poly, CrcStep(acc, val, poly))
  {
    var data := Dividend(Reversed(acc), Reversed(val));
    DivisionExists(data, poly);
    ReversedTwice(PolyRem(data, poly));
  }

  // ----- reversals and bitfields -----

  /** The bits of x in the order a reversal puts them: backwards, or bytewise backwards in every container. */
  ghost function ReversedForm(x: Bits, op: RevOp): (r: Bits)
    requires Width(|x|) && (op == REV64 ==> |x| == 64)
    ensures |r| == |x|
  {
    if op == RBIT then Reversed(x)
    else Programs.RevReversesBytes(x, op); ContainersReversed(x, Pow2(Programs.ContainerLog(op)))
  }

  lemma ReverseHolds(x: Bits, op: RevOp)
    requires Width(|x|) && (op == REV64 ==> |x| == 64)
    ensures ReversedBy(x, op) == ReversedForm(x, op)
  {
    if op == RBIT { Programs.RbitReversesBits(x); } else { Programs.RevReversesBytes(x, op); }
  }

  /** Bit j of a bitfield move: from the turned source inside both masks, from the destination inside tmask
      only, sign or destination outside tmask. */
  predicate MaskedBit(dst: Bits, src: Bits, extend: bool, R: nat, S: nat, m: Masks, j: nat)
    requires |dst| == |src| == |m.wmask| == |m.tmask| && S < |src| && j < |src|
  {
    if !m.tmask[j] then (if extend then src[S] else dst[j])
    else if m.wmask[j] then src[Turn(j, R, |src|)] else dst[j]
  }

  // ----- every instruction -----

  /** Additions and comparisons. */
  ghost predicate SumOpEffect(i: DataOp, s: State, s': State)
    requires WellFormedData(i)
  {
    match i
    case AddSubImmediate(d, n, N, sub, setflags, imm) =>
      SumEffect(s, s', d, true, setflags, RXorSP(s, n, N), imm, sub, sub)
    case AddSubExtendRegister(d, n, m, N, sub, setflags, etype, shift) =>
      SumEffect(s, s', d, true, setflags, RXorSP(s, n, N), Extended(RX(s, m, N), etype, shift), sub, sub)
    case AddSubShiftedRegister(d, n, m, N, sub, setflags, stype, amount) =>
      exists y :: ShiftedBy(RX(s, m, N), stype, amount, y)
        && SumEffect(s, s', d, false, setflags, RX(s, n, N), y, sub, sub)
    case AddSubCarry(d, n, m, N, sub, setflags) =>
      SumEffect(s, s', d, false, setflags, RX(s, n, N), RX(s, m, N), sub, s.flags.c)
    case ConditionalCompareImmediate(n, N, sub, condition, flags, imm) =>
      CompareEffect(s, s', ConditionHolds(condition, s.flags), RX(s, n, N), imm, sub, flags)
    case ConditionalCompareRegister(n, m, N, sub, condition, flags) =>
      CompareEffect(s, s', ConditionHolds(condition, s.flags), RX(s, n, N), RX(s, m, N), sub, flags)
    case _ => true
  }

  /** Bitwise operations and moves. */
  ghost predicate BitOpEffect(i: DataOp, s: State, s': State)
    requires WellFormedData(i)
  {
    match i
    case LogicalImmediate(d, n, N, setflags, op, imm) =>
      LogicalEffect(s, s', d, true, setflags, op, RX(s, n, N), imm)
    case LogicalShiftedRegister(d, n, m, N, setflags, op, stype, amount, invert) =>
      exists y :: ShiftedBy(RX(s, m, N), stype, amount, y)
        && LogicalEffect(s, s', d, false, setflags, op, RX(s, n, N), InvertIf(invert, y))
    case BitfieldMove(d, n, N, inzero, extend, R, S, masks) =>
      var dst := if inzero then Zeros(N) else RX(s, d, N);
      BitsEffect(s, s', d, N, (j: nat) => j < N && MaskedBit(dst, RX(s, n, N), extend, R, S, masks, j))
    case MoveWide(d, N, imm, pos, opcode) =>
      BitsEffect(s, s', d, N, (j: nat) => j < N && MovedWide(RX(s, d, N), imm, pos, opcode, j))
    case _ => true
  }

  /** Numbers: extracts, addresses, selections, shifts, scans, reversals. */
  ghost predicate NumberEffect(i: DataOp, s: State, s': State)
    requires WellFormedData(i)
  {
    match i
    case ExtractRegister(d, n, m, N, lsb) =>
      PutsValue(s, s', d, ExtractNumber(RX(s, n, N), RX(s, m, N), lsb))
    case Address(d, page, offset) => PutsValue(s, s', d, PcRelative(s.pc, page, offset))
    case ConditionalSelect(d, n, m, N, condition, inv, inc) =>
      PutsValue(s, s', d, SelectNumber(ConditionHolds(condition, s.flags), RX(s, n, N), RX(s, m, N), inv, inc))
    case Shift(d, n, m, N, stype) =>
      exists y :: ShiftedBy(RX(s, n, N), stype, UInt(RX(s, m, N)) % N, y) && PutsValue(s, s', d, UInt(y))
    case CountLeading(d, n, N, op) => exists k :: Counts(RX(s, n, N), op, k) && PutsValue(s, s', d, k)
    case Reverse(d, n, N, op) => PutsValue(s, s', d, UInt(ReversedForm(RX(s, n, N), op)))
    case _ => true
  }

  /** Multiplication, division and CRC. */
  ghost predicate ArithmeticEffect(i: DataOp, s: State, s': State)
    requires WellFormedData(i)
  {
    match i
    case Division(d, n, m, N, unsigned) => DivisionEffect(s, s', d, RX(s, n, N), RX(s, m, N), unsigned)
    case MultiplyAddSub(d, n, m, a, w, N, sub) =>
      PutsValue(s, s', d, Accumulated(UInt(RX(s, a, w)), UInt(RX(s, n, N)), UInt(RX(s, m, N)), sub) % Pow2(w))
    case MultiplyAddSubLong(d, n, m, a, w, N, sub, unsigned) =>
      PutsValue(s, s', d, Accumulated(Reading(RX(s, a, w), unsigned), Reading(RX(s, n, N), unsigned),
                                      Reading(RX(s, m, N), unsigned), sub) % Pow2(64))
    case MultiplyHigh(d, n, m, _, N, _, unsigned) =>
      PutsValue(s, s', d, HighNumber(Reading(RX(s, n, N), unsigned), Reading(RX(s, m, N), unsigned)) % Pow2(64))
    case CRC(d, n, m, size, crc32c) =>
      exists r :: CrcOf(RX(s, n, 32), RX(s, m, size), Polynomial(CrcTerms(crc32c)), r) && PutsValue(s, s', d, UInt(r))
    case _ => true
  }

  predicate IsSumOp(i: DataOp) {
    || i.AddSubImmediate? || i.AddSubExtendRegister? || i.AddSubShiftedRegister? || i.AddSubCarry?
    || i.ConditionalCompareImmediate? || i.ConditionalCompareRegister?
  }

  predicate IsBitOp(i: DataOp) { i.LogicalImmediate? || i.LogicalShiftedRegister? || i.BitfieldMove? || i.MoveWide? }

  predicate IsArithmetic(i: DataOp) {
    i.Division? || i.MultiplyAddSub? || i.MultiplyAddSubLong? || i.MultiplyHigh? || i.CRC?
  }

  /** What instruction i makes of state s. */
  ghost predicate Effect(i: DataOp, s: State, s': State)
    requires WellFormedData(i)
  {
    if IsSumOp(i) then SumOpEffect(i, s, s')
    else if IsBitOp(i) then BitOpEffect(i, s, s')
    else if IsArithmetic(i) then ArithmeticEffect(i, s, s')
    else NumberEffect(i, s, s')
  }

  // What an instruction writes, taken by itself.

  lemma MultiplyLongWrite(i: DataOp, s: State, r: Bits)
    requires i.MultiplyAddSubLong? && WellFormedData(i)
    requires r == ProductSum(64, RX(s, i.a, i.destsize), RX(s, i.n, i.datasize), RX(s, i.m, i.datasize), i.subOp,
                             i.unsigned)
    ensures After(i, s) == WX(s, i.d, r)
  {
  }

  lemma BitfieldWrite(i: DataOp, s: State)
    requires i.BitfieldMove? && WellFormedData(i)
    ensures var dst := if i.inzero then Zeros(i.datasize) else RX(s, i.d, i.datasize);
            After(i, s) == WX(s, i.d, MaskedMove(dst, RX(s, i.n, i.datasize), i.extend, i.R, i.S, i.masks))
  {
  }

  lemma SumOpHolds(i: DataOp, s: State)
    requires WellFormedData(i) && IsSumOp(i)
    ensures SumOpEffect(i, s, After(i, s))
  {
    if i.AddSubImmediate? { AddSubImmediateHolds(i, s); }
    else if i.AddSubExtendRegister? { AddSubExtendRegisterHolds(i, s); }
    else if i.AddSubShiftedRegister? { AddSubShiftedRegisterHolds(i, s); }
    else if i.AddSubCarry? { AddSubCarryHolds(i, s); }
    else if i.ConditionalCompareImmediate? { ConditionalCompareImmediateHolds(i, s); }
    else { ConditionalCompareRegisterHolds(i, s); }
  }

  lemma AddSubImmediateHolds(i: DataOp, s: State)
    requires i.AddSubImmediate? && WellFormedData(i)
    ensures SumOpEffect(i, s, After(i, s))
  {
    SumHolds(s, i.d, true, i.setflags, RXorSP(s, i.n, i.datasize), i.imm, i.subOp, i.subOp);
  }

  lemma AddSubCarryHolds(i: DataOp, s: State)
    requires i.AddSubCarry? && WellFormedData(i)
    ensures SumOpEffect(i, s, After(i, s))
  {
    CarryWrite(i, s);
    SumHolds(s, i.d, false, i.setflags, RX(s, i.n, i.datasize), RX(s, i.m, i.datasize), i.subOp, s.flags.c);
  }

  lemma CarryWrite(i: DataOp, s: State)
    requires i.AddSubCarry? && WellFormedData(i)
    ensures DataWrite(i, s) == SumWrite(i.d, false, i.setflags,
      AddWithCarry(RX(s, i.n, i.datasize), InvertIf(i.subOp, RX(s, i.m, i.datasize)), s.flags.c))
  {
  }

  lemma ConditionalCompareImmediateHolds(i: DataOp, s: State)
    requires i.ConditionalCompareImmediate? && WellFormedData(i)
    ensures SumOpEffect(i, s, After(i, s))
  {
    CompareHolds(s, ConditionHolds(i.condition, s.flags), RX(s, i.n, i.datasize), i.imm, i.subOp, i.flags);
  }

  lemma ConditionalCompareRegisterHolds(i: DataOp, s: State)
    requires i.ConditionalCompareRegister? && WellFormedData(i)
    ensures SumOpEffect(i, s, After(i, s))
  {
    CompareHolds(s, ConditionHolds(i.condition, s.flags), RX(s, i.n, i.datasize), RX(s, i.m, i.datasize), i.subOp,
                 i.flags);
  }

  lemma AddSubExtendRegisterHolds(i: DataOp, s: State)
    requires i.AddSubExtendRegister? && WellFormedData(i)
    ensures SumOpEffect(i, s, After(i, s))
  {
    var x, y := RXorSP(s, i.n, i.datasize), RX(s, i.m, i.datasize);
    ExtendRegNumber(y, i.extendType, i.shift);
    SumHolds(s, i.d, true, i.setflags, x, Extended(y, i.extendType, i.shift), i.subOp, i.subOp);
  }

  lemma AddSubShiftedRegisterHolds(i: DataOp, s: State)
    requires i.AddSubShiftedRegister? && WellFormedData(i)
    ensures SumOpEffect(i, s, After(i, s))
  {
    var x, y := RX(s, i.n, i.datasize), RX(s, i.m, i.datasize);
    ShiftHolds(y, i.shiftType, i.amount);
    SumHolds(s, i.d, false, i.setflags, x, ShiftReg(y, i.shiftType, i.amount), i.subOp, i.subOp);
  }

  lemma BitOpHolds(i: DataOp, s: State)
    requires WellFormedData(i) && IsBitOp(i)
    ensures BitOpEffect(i, s, After(i, s))
  {
    if i.LogicalImmediate? { LogicalImmediateHolds(i, s); }
    else if i.LogicalShiftedRegister? { ShiftedLogicalHolds(i, s); }
    else if i.BitfieldMove? { BitfieldHolds(i, s); }
    else { MoveWideHolds(i, s); }
  }

  lemma LogicalImmediateHolds(i: DataOp, s: State)
    requires i.LogicalImmediate? && WellFormedData(i)
    ensures BitOpEffect(i, s, After(i, s))
  {
    LogicalHolds(s, i.d, true, i.setflags, i.bitOp, RX(s, i.n, i.datasize), i.imm);
  }

  lemma ShiftedLogicalHolds(i: DataOp, s: State)
    requires i.LogicalShiftedRegister? && WellFormedData(i)
    ensures BitOpEffect(i, s, After(i, s))
  {
    var y := ShiftReg(RX(s, i.m, i.datasize), i.shiftType, i.amount);
    ShiftHolds(RX(s, i.m, i.datasize), i.shiftType, i.amount);
    LogicalHolds(s, i.d, false, i.setflags, i.bitOp, RX(s, i.n, i.datasize), InvertIf(i.invert, y));
  }

  lemma BitfieldHolds(i: DataOp, s: State)
    requires i.BitfieldMove? && WellFormedData(i)
    ensures BitOpEffect(i, s, After(i, s))
  {
    var N := i.datasize;
    var dst, src := if i.inzero then Zeros(N) else RX(s, i.d, N), RX(s, i.n, N);
    MaskedMoveBits(dst, src, i.extend, i.R, i.S, i.masks);
    BitsHold(s, i.d, MaskedMove(dst, src, i.extend, i.R, i.S, i.masks),
             (j: nat) => j < N && MaskedBit(dst, src, i.extend, i.R, i.S, i.masks, j));
  }

  lemma MaskedMoveBits(dst: Bits, src: Bits, extend: bool, R: nat, S: nat, m: Masks)
    requires |dst| == |src| == |m.wmask| == |m.tmask| && S < |src|
    ensures forall j: nat :: j < |src| ==>
              MaskedMove(dst, src, extend, R, S, m)[j] == MaskedBit(dst, src, extend, R, S, m, j)
  {
    var v := MaskedMove(dst, src, extend, R, S, m);
    forall j: nat | j < |src| ensures v[j] == MaskedBit(dst, src, extend, R, S, m, j) {
      MaskedMoveAt(dst, src, extend, R, S, m, j);
    }
  }

  lemma MoveWideHolds(i: DataOp, s: State)
    requires i.MoveWide? && WellFormedData(i)
    ensures BitOpEffect(i, s, After(i, s))
  {
    var x := RX(s, i.d, i.datasize);
    var v := MoveWideValue(if i.opcode == MoveK then x else Zeros(i.datasize), i.imm, i.pos, i.opcode == MoveN);
    BitsHold(s, i.d, v, (j: nat) => j < i.datasize && MovedWide(x, i.imm, i.pos, i.opcode, j));
  }

  lemma NumberHolds(i: DataOp, s: State)
    requires WellFormedData(i) && !IsSumOp(i) && !IsBitOp(i) && !IsArithmetic(i)
    ensures NumberEffect(i, s, After(i, s))
  {
    if i.ExtractRegister? { ExtractHolds(i, s); }
    else if i.Address? { AddressHolds(i, s); }
    else if i.ConditionalSelect? { SelectHolds(i, s); }
    else if i.Shift? { ShiftOpHolds(i, s); }
    else if i.CountLeading? { CountOpHolds(i, s); }
    else { ReverseOpHolds(i, s); }
  }

  lemma ExtractHolds(i: DataOp, s: State)
    requires i.ExtractRegister? && WellFormedData(i)
    ensures NumberEffect(i, s, After(i, s))
  {
    var hi, lo := RX(s, i.n, i.datasize), RX(s, i.m, i.datasize);
    ExtractPut(s, i.d, hi, lo, i.lsb);
  }

  lemma ExtractPut(s: State, d: RegIndex, hi: Bits, lo: Bits, lsb: nat)
    requires |hi| == |lo| <= 64 && lsb < |lo|
    ensures PutsValue(s, Commit(s, ValueWrite(d, Concat(hi, lo)[lsb..lsb + |lo|])), d, ExtractNumber(hi, lo, lsb))
  {
    ExtractMeaning(hi, lo, lsb);
    ValuePut(s, d, Concat(hi, lo)[lsb..lsb + |lo|], ExtractNumber(hi, lo, lsb));
  }

  lemma AddressHolds(i: DataOp, s: State)
    requires i.Address? && WellFormedData(i)
    ensures NumberEffect(i, s, After(i, s))
  {
    PcRelativeHolds(s.pc, i.page, i.offset);
    CommitPuts(s, DataWrite(i, s));
  }

  lemma SelectHolds(i: DataOp, s: State)
    requires i.ConditionalSelect? && WellFormedData(i)
    ensures NumberEffect(i, s, After(i, s))
  {
    var x, y := RX(s, i.n, i.datasize), RX(s, i.m, i.datasize);
    var holds := ConditionHolds(i.condition, s.flags);
    SelectedNumber(holds, x, y, i.elseInv, i.elseInc);
    ValuePut(s, i.d, Selected(holds, x, y, i.elseInv, i.elseInc), SelectNumber(holds, x, y, i.elseInv, i.elseInc));
  }

  lemma SelectedNumber(holds: bool, x: Bits, y: Bits, inv: bool, inc: bool)
    requires |x| == |y|
    ensures UInt(Selected(holds, x, y, inv, inc)) == SelectNumber(holds, x, y, inv, inc)
  {
    SelectMeaning(x, y, inv, inc);
  }

  lemma ShiftOpHolds(i: DataOp, s: State)
    requires i.Shift? && WellFormedData(i)
    ensures NumberEffect(i, s, After(i, s))
  {
    ShiftHolds(RX(s, i.n, i.datasize), i.shiftType, UInt(RX(s, i.m, i.datasize)) % i.datasize);
    CommitPuts(s, DataWrite(i, s));
  }

  lemma CountOpHolds(i: DataOp, s: State)
    requires i.CountLeading? && WellFormedData(i)
    ensures NumberEffect(i, s, After(i, s))
  {
    CountHolds(RX(s, i.n, i.datasize), i.countOp);
    CommitPuts(s, DataWrite(i, s));
  }

  lemma ReverseOpHolds(i: DataOp, s: State)
    requires i.Reverse? && WellFormedData(i)
    ensures NumberEffect(i, s, After(i, s))
  {
    ReverseHolds(RX(s, i.n, i.datasize), i.revOp);
    CommitPuts(s, DataWrite(i, s));
  }

  lemma ArithmeticHolds(i: DataOp, s: State)
    requires WellFormedData(i) && IsArithmetic(i)
    ensures ArithmeticEffect(i, s, After(i, s))
  {
    if i.Division? { DivisionOpHolds(i, s); }
    else if i.MultiplyAddSub? { MultiplyAddSubHolds(i, s); }
    else if i.MultiplyAddSubLong? { MultiplyAddSubLongHolds(i, s); }
    else if i.MultiplyHigh? { MultiplyHighHolds(i, s); }
    else { CRCHolds(i, s); }
  }

  lemma DivisionOpHolds(i: DataOp, s: State)
    requires i.Division? && WellFormedData(i)
    ensures ArithmeticEffect(i, s, After(i, s))
  {
    DivisionHolds(s, i.d, RX(s, i.n, i.datasize), RX(s, i.m, i.datasize), i.unsigned);
  }

  lemma MultiplyAddSubHolds(i: DataOp, s: State)
    requires i.MultiplyAddSub? && WellFormedData(i)
    ensures ArithmeticEffect(i, s, After(i, s))
  {
    var x, y, c := RX(s, i.n, i.datasize), RX(s, i.m, i.datasize), RX(s, i.a, i.destsize);
    var v := ProductSum(i.destsize, c, x, y, i.subOp, true);
    AccumulatedHolds(i.destsize, c, x, y, i.subOp, true);
    ValuePut(s, i.d, v, UInt(v));
  }

  lemma MultiplyAddSubLongHolds(i: DataOp, s: State)
    requires i.MultiplyAddSubLong? && WellFormedData(i)
    ensures ArithmeticEffect(i, s, After(i, s))
  {
    var x, y, c := RX(s, i.n, i.datasize), RX(s, i.m, i.datasize), RX(s, i.a, i.destsize);
    var v := ProductSum(64, c, x, y, i.subOp, i.unsigned);
    AccumulatedHolds(64, c, x, y, i.subOp, i.unsigned);
    ValuePut(s, i.d, v, UInt(v));
  }

  lemma MultiplyHighHolds(i: DataOp, s: State)
    requires i.MultiplyHigh? && WellFormedData(i)
    ensures ArithmeticEffect(i, s, After(i, s))
  {
    var x, y := RX(s, i.n, i.destsize), RX(s, i.m, i.destsize);
    var v := HighProduct(x, y, i.unsigned);
    HighHolds(x, y, i.unsigned);
    ValuePut(s, i.d, v, UInt(v));
  }

  lemma CRCHolds(i: DataOp, s: State)
    requires i.CRC? && WellFormedData(i)
    ensures ArithmeticEffect(i, s, After(i, s))
  {
    CrcPolyIs(i.crc32c);
    var acc, val, poly := RX(s, i.n, 32), RX(s, i.m, i.size), CrcPoly(i.crc32c);
    var v := CrcStep(acc, val, poly);
    CrcStepHolds(acc, val, poly);
    ValuePut(s, i.d, v, UInt(v));
  }

  /** Every data-processing instruction has its effect. */
  lemma EffectHolds(i: DataOp, s: State)
    requires WellFormedData(i)
    ensures Effect(i, s, After(i, s))
  {
    if IsSumOp(i) { SumOpHolds(i, s); }
    else if IsBitOp(i) { BitOpHolds(i, s); }
    else if IsArithmetic(i) { ArithmeticHolds(i, s); }
    else { NumberHolds(i, s); }
  }

  // ----- the effects leave nothing open -----

  lemma PutsUnique(s: State, s1: State, s2: State, d: RegIndex, toSp: bool, k: int)
    requires Puts(s, s1, d, toSp, k) && Puts(s, s2, d, toSp, k) && s1.flags == s2.flags
    ensures s1 == s2
  {
    if toSp { UIntInjective(s1.sp, s2.sp); } else if d != 31 { UIntInjective(s1.x[d], s2.x[d]); }
    assert s1.x == s2.x;
  }

  lemma SumUnique(s: State, s1: State, s2: State, d: RegIndex, spAllowed: bool, setflags: bool, x: Bits, y: Bits,
                  sub: bool, carry: bool)
    requires |x| == |y| > 0
    requires SumEffect(s, s1, d, spAllowed, setflags, x, y, sub, carry)
    requires SumEffect(s, s2, d, spAllowed, setflags, x, y, sub, carry)
    ensures s1 == s2
  {
    PutsUnique(s, s1, s2, d, spAllowed && d == 31 && !setflags, Total(UInt(x), UInt(y), sub, carry) % Pow2(|x|));
  }

  lemma SumOpUnique(i: DataOp, s: State, s1: State, s2: State)
    requires WellFormedData(i) && IsSumOp(i) && SumOpEffect(i, s, s1) && SumOpEffect(i, s, s2)
    ensures s1 == s2
  {
    if i.AddSubImmediate? { AddSubImmediateUnique(i, s, s1, s2); }
    else if i.AddSubExtendRegister? { AddSubExtendRegisterUnique(i, s, s1, s2); }
    else if i.AddSubShiftedRegister? { AddSubShiftedRegisterUnique(i, s, s1, s2); }
    else if i.AddSubCarry? { AddSubCarryUnique(i, s, s1, s2); }
    else if i.ConditionalCompareImmediate? { ConditionalCompareImmediateUnique(i, s, s1, s2); }
    else { ConditionalCompareRegisterUnique(i, s, s1, s2); }
  }

  lemma AddSubImmediateUnique(i: DataOp, s: State, s1: State, s2: State)
    requires i.AddSubImmediate? && WellFormedData(i) && SumOpEffect(i, s, s1) && SumOpEffect(i, s, s2)
    ensures s1 == s2
  {
    SumUnique(s, s1, s2, i.d, true, i.setflags, RXorSP(s, i.n, i.datasize), i.imm, i.subOp, i.subOp);
  }

  lemma AddSubExtendRegisterUnique(i: DataOp, s: State, s1: State, s2: State)
    requires i.AddSubExtendRegister? && WellFormedData(i) && SumOpEffect(i, s, s1) && SumOpEffect(i, s, s2)
    ensures s1 == s2
  {
    SumUnique(s, s1, s2, i.d, true, i.setflags, RXorSP(s, i.n, i.datasize),
              Extended(RX(s, i.m, i.datasize), i.extendType, i.shift), i.subOp, i.subOp);
  }

  lemma AddSubCarryUnique(i: DataOp, s: State, s1: State, s2: State)
    requires i.AddSubCarry? && WellFormedData(i) && SumOpEffect(i, s, s1) && SumOpEffect(i, s, s2)
    ensures s1 == s2
  {
    SumUnique(s, s1, s2, i.d, false, i.setflags, RX(s, i.n, i.datasize), RX(s, i.m, i.datasize), i.subOp, s.flags.c);
  }

  lemma ConditionalCompareImmediateUnique(i: DataOp, s: State, s1: State, s2: State)
    requires i.ConditionalCompareImmediate? && WellFormedData(i) && SumOpEffect(i, s, s1) && SumOpEffect(i, s, s2)
    ensures s1 == s2
  {
    CompareUnique(s, s1, s2, ConditionHolds(i.condition, s.flags), RX(s, i.n, i.datasize), i.imm, i.subOp, i.flags);
  }

  lemma ConditionalCompareRegisterUnique(i: DataOp, s: State, s1: State, s2: State)
    requires i.ConditionalCompareRegister? && WellFormedData(i) && SumOpEffect(i, s, s1) && SumOpEffect(i, s, s2)
    ensures s1 == s2
  {
    CompareUnique(s, s1, s2, ConditionHolds(i.condition, s.flags), RX(s, i.n, i.datasize), RX(s, i.m, i.datasize),
                  i.subOp, i.flags);
  }

  lemma CompareUnique(s: State, s1: State, s2: State, holds: bool, x: Bits, y: Bits, sub: bool, otherwise: Flags)
    requires |x| == |y| > 0
    requires CompareEffect(s, s1, holds, x, y, sub, otherwise) && CompareEffect(s, s2, holds, x, y, sub, otherwise)
    ensures s1 == s2
  {
    assert s1.flags == s2.flags;
  }

  lemma AddSubShiftedRegisterUnique(i: DataOp, s: State, s1: State, s2: State)
    requires i.AddSubShiftedRegister? && WellFormedData(i) && SumOpEffect(i, s, s1) && SumOpEffect(i, s, s2)
    ensures s1 == s2
  {
    var x, y := RX(s, i.n, i.datasize), ShiftReg(RX(s, i.m, i.datasize), i.shiftType, i.amount);
    ShiftedOperand(i, s, s1);
    ShiftedOperand(i, s, s2);
    SumUnique(s, s1, s2, i.d, false, i.setflags, x, y, i.subOp, i.subOp);
  }

  lemma ShiftedOperand(i: DataOp, s: State, s1: State)
    requires i.AddSubShiftedRegister? && WellFormedData(i) && SumOpEffect(i, s, s1)
    ensures SumEffect(s, s1, i.d, false, i.setflags, RX(s, i.n, i.datasize),
                      ShiftReg(RX(s, i.m, i.datasize), i.shiftType, i.amount), i.subOp, i.subOp)
  {
    var x, z := RX(s, i.n, i.datasize), RX(s, i.m, i.datasize);
    var y :| ShiftedBy(z, i.shiftType, i.amount, y) && SumEffect(s, s1, i.d, false, i.setflags, x, y, i.subOp, i.subOp);
    ShiftUnique(z, i.shiftType, i.amount, y);
  }

  lemma BitsUnique(s: State, s1: State, s2: State, d: RegIndex, n: nat, bit: nat -> bool)
    requires BitsEffect(s, s1, d, n, bit) && BitsEffect(s, s2, d, n, bit)
    ensures s1 == s2
  {
    if d != 31 { assert Shown(s1, d, false) == Shown(s2, d, false); }
    assert s1.x == s2.x;
  }

  lemma LogicalUnique(s: State, s1: State, s2: State, d: RegIndex, spAllowed: bool, setflags: bool, op: BitOp,
                      x: Bits, y: Bits)
    requires |x| == |y| > 0
    requires LogicalEffect(s, s1, d, spAllowed, setflags, op, x, y)
    requires LogicalEffect(s, s2, d, spAllowed, setflags, op, x, y)
    ensures s1 == s2
  {
    var toSp := spAllowed && d == 31 && !setflags;
    if toSp || d != 31 {
      forall j: nat | j < 64 ensures Shown(s1, d, toSp)[j] == Shown(s2, d, toSp)[j] { }
      assert Shown(s1, d, toSp) == Shown(s2, d, toSp);
    }
    assert s1.x == s2.x;
  }

  lemma BitOpUnique(i: DataOp, s: State, s1: State, s2: State)
    requires WellFormedData(i) && IsBitOp(i) && BitOpEffect(i, s, s1) && BitOpEffect(i, s, s2)
    ensures s1 == s2
  {
    if i.LogicalImmediate? { LogicalImmediateUnique(i, s, s1, s2); }
    else if i.LogicalShiftedRegister? { ShiftedLogicalUnique(i, s, s1, s2); }
    else if i.BitfieldMove? { BitfieldUnique(i, s, s1, s2); }
    else { MoveWideUnique(i, s, s1, s2); }
  }

  lemma LogicalImmediateUnique(i: DataOp, s: State, s1: State, s2: State)
    requires i.LogicalImmediate? && WellFormedData(i) && BitOpEffect(i, s, s1) && BitOpEffect(i, s, s2)
    ensures s1 == s2
  {
    LogicalUnique(s, s1, s2, i.d, true, i.setflags, i.bitOp, RX(s, i.n, i.datasize), i.imm);
  }

  lemma BitfieldUnique(i: DataOp, s: State, s1: State, s2: State)
    requires i.BitfieldMove? && WellFormedData(i) && BitOpEffect(i, s, s1) && BitOpEffect(i, s, s2)
    ensures s1 == s2
  {
    var N := i.datasize;
    var dst, src := if i.inzero then Zeros(N) else RX(s, i.d, N), RX(s, i.n, N);
    BitsUnique(s, s1, s2, i.d, N, (j: nat) => j < N && MaskedBit(dst, src, i.extend, i.R, i.S, i.masks, j));
  }

  lemma MoveWideUnique(i: DataOp, s: State, s1: State, s2: State)
    requires i.MoveWide? && WellFormedData(i) && BitOpEffect(i, s, s1) && BitOpEffect(i, s, s2)
    ensures s1 == s2
  {
    var x := RX(s, i.d, i.datasize);
    BitsUnique(s, s1, s2, i.d, i.datasize, (j: nat) => j < i.datasize && MovedWide(x, i.imm, i.pos, i.opcode, j));
  }

  lemma ShiftedLogicalUnique(i: DataOp, s: State, s1: State, s2: State)
    requires i.LogicalShiftedRegister? && WellFormedData(i) && BitOpEffect(i, s, s1) && BitOpEffect(i, s, s2)
    ensures s1 == s2
  {
    var x, z := RX(s, i.n, i.datasize), RX(s, i.m, i.datasize);
    var y1 :| ShiftedBy(z, i.shiftType, i.amount, y1)
      && LogicalEffect(s, s1, i.d, false, i.setflags, i.bitOp, x, InvertIf(i.invert, y1));
    var y2 :| ShiftedBy(z, i.shiftType, i.amount, y2)
      && LogicalEffect(s, s2, i.d, false, i.setflags, i.bitOp, x, InvertIf(i.invert, y2));
    ShiftUnique(z, i.shiftType, i.amount, y1);
    ShiftUnique(z, i.shiftType, i.amount, y2);
    LogicalUnique(s, s1, s2, i.d, false, i.setflags, i.bitOp, x, InvertIf(i.invert, y1));
  }

  lemma CountUnique(x: Bits, op: CountOp, k: int, l: int)
    requires |x| > 0 && Counts(x, op, k) && Counts(x, op, l)
    ensures k == l
  {
    RunUnique(x, op == CLS && x[|x| - 1], if op == CLS then k + 1 else k, if op == CLS then l + 1 else l);
  }

  lemma RunUnique(x: Bits, b: bool, k: int, l: int)
    requires RunLength(x, b, k) && RunLength(x, b, l)
    ensures k == l
  {
  }

  lemma NumberUnique(i: DataOp, s: State, s1: State, s2: State)
    requires WellFormedData(i) && !IsSumOp(i) && !IsBitOp(i) && !IsArithmetic(i)
    requires NumberEffect(i, s, s1) && NumberEffect(i, s, s2)
    ensures s1 == s2
  {
    if i.ExtractRegister? { ExtractUnique(i, s, s1, s2); }
    else if i.Address? { AddressUnique(i, s, s1, s2); }
    else if i.ConditionalSelect? { SelectUnique(i, s, s1, s2); }
    else if i.Shift? { ShiftOpUnique(i, s, s1, s2); }
    else if i.CountLeading? { CountOpUnique(i, s, s1, s2); }
    else { ReverseUnique(i, s, s1, s2); }
  }

  lemma ExtractUnique(i: DataOp, s: State, s1: State, s2: State)
    requires i.ExtractRegister? && WellFormedData(i) && NumberEffect(i, s, s1) && NumberEffect(i, s, s2)
    ensures s1 == s2
  {
    PutsUnique(s, s1, s2, i.d, false, ExtractNumber(RX(s, i.n, i.datasize), RX(s, i.m, i.datasize), i.lsb));
  }

  lemma AddressUnique(i: DataOp, s: State, s1: State, s2: State)
    requires i.Address? && WellFormedData(i) && NumberEffect(i, s, s1) && NumberEffect(i, s, s2)
    ensures s1 == s2
  {
    PutsUnique(s, s1, s2, i.d, false, PcRelative(s.pc, i.page, i.offset));
  }

  lemma SelectUnique(i: DataOp, s: State, s1: State, s2: State)
    requires i.ConditionalSelect? && WellFormedData(i) && NumberEffect(i, s, s1) && NumberEffect(i, s, s2)
    ensures s1 == s2
  {
    PutsUnique(s, s1, s2, i.d, false, SelectNumber(ConditionHolds(i.condition, s.flags), RX(s, i.n, i.datasize),
                                                   RX(s, i.m, i.datasize), i.elseInv, i.elseInc));
  }

  lemma ShiftOpUnique(i: DataOp, s: State, s1: State, s2: State)
    requires i.Shift? && WellFormedData(i) && NumberEffect(i, s, s1) && NumberEffect(i, s, s2)
    ensures s1 == s2
  {
    var x, k := RX(s, i.n, i.datasize), UInt(RX(s, i.m, i.datasize)) % i.datasize;
    var y1 :| ShiftedBy(x, i.shiftType, k, y1) && PutsValue(s, s1, i.d, UInt(y1));
    var y2 :| ShiftedBy(x, i.shiftType, k, y2) && PutsValue(s, s2, i.d, UInt(y2));
    ShiftUnique(x, i.shiftType, k, y1);
    ShiftUnique(x, i.shiftType, k, y2);
    PutsUnique(s, s1, s2, i.d, false, UInt(y1));
  }

  lemma CountOpUnique(i: DataOp, s: State, s1: State, s2: State)
    requires i.CountLeading? && WellFormedData(i) && NumberEffect(i, s, s1) && NumberEffect(i, s, s2)
    ensures s1 == s2
  {
    var k :| Counts(RX(s, i.n, i.datasize), i.countOp, k) && PutsValue(s, s1, i.d, k);
    var l :| Counts(RX(s, i.n, i.datasize), i.countOp, l) && PutsValue(s, s2, i.d, l);
    CountUnique(RX(s, i.n, i.datasize), i.countOp, k, l);
    PutsUnique(s, s1, s2, i.d, false, k);
  }

  lemma ReverseUnique(i: DataOp, s: State, s1: State, s2: State)
    requires i.Reverse? && WellFormedData(i) && NumberEffect(i, s, s1) && NumberEffect(i, s, s2)
    ensures s1 == s2
  {
    PutsUnique(s, s1, s2, i.d, false, UInt(ReversedForm(RX(s, i.n, i.datasize), i.revOp)));
  }

  lemma QuotientUnique(a: int, b: int, q: int, p: int)
    requires TruncatedQuotient(a, b, q) && TruncatedQuotient(a, b, p)
    ensures q == p
  {
    MultipleBelow(q - p, b, a - q * b, a - p * b);
  }

  lemma MultipleBelow(k: int, b: int, r: int, t: int)
    requires b != 0 && k * b == t - r && Abs(r) < Abs(b) && Abs(t) < Abs(b)
    requires r == 0 || t == 0 || (r < 0) == (t < 0)
    ensures k == 0
  {
    if k >= 1 { MulMono(1, k, Abs(b)); SignedMultiple(k, b); }
    if k <= -1 { MulMono(k, -1, Abs(b)); SignedMultiple(k, b); }
  }

  lemma DivisionUnique(s: State, s1: State, s2: State, d: RegIndex, x: Bits, y: Bits, unsigned: bool)
    requires DivisionEffect(s, s1, d, x, y, unsigned) && DivisionEffect(s, s2, d, x, y, unsigned)
    ensures s1 == s2
  {
    if IsZero(y) {
      PutsUnique(s, s1, s2, d, false, 0);
    } else {
      var a, b := Reading(x, unsigned), Reading(y, unsigned);
      var q :| TruncatedQuotient(a, b, q) && PutsValue(s, s1, d, q % Pow2(|x|));
      var p :| TruncatedQuotient(a, b, p) && PutsValue(s, s2, d, p % Pow2(|x|));
      QuotientUnique(a, b, q, p);
      PutsUnique(s, s1, s2, d, false, q % Pow2(|x|));
    }
  }

  lemma CrcOfUnique(acc: Bits, val: Bits, poly: Bits, r: Bits, t: Bits)
    requires |acc| == |poly| && CrcOf(acc, val, poly, r) && CrcOf(acc, val, poly, t)
    ensures r == t
  {
    var data := Dividend(Reversed(acc), Reversed(val));
    RemainderCharacterised(data, poly, Reversed(r));
    RemainderCharacterised(data, poly, Reversed(t));
    ReversedTwice(r);
    ReversedTwice(t);
  }

  lemma ArithmeticUnique(i: DataOp, s: State, s1: State, s2: State)
    requires WellFormedData(i) && IsArithmetic(i) && ArithmeticEffect(i, s, s1) && ArithmeticEffect(i, s, s2)
    ensures s1 == s2
  {
    if i.Division? { DivisionOpUnique(i, s, s1, s2); }
    else if i.MultiplyAddSub? { MultiplyAddSubUnique(i, s, s1, s2); }
    else if i.MultiplyAddSubLong? { MultiplyAddSubLongUnique(i, s, s1, s2); }
    else if i.MultiplyHigh? { MultiplyHighUnique(i, s, s1, s2); }
    else { CRCUnique(i, s, s1, s2); }
  }

  lemma DivisionOpUnique(i: DataOp, s: State, s1: State, s2: State)
    requires i.Division? && WellFormedData(i) && ArithmeticEffect(i, s, s1) && ArithmeticEffect(i, s, s2)
    ensures s1 == s2
  {
    DivisionUnique(s, s1, s2, i.d, RX(s, i.n, i.datasize), RX(s, i.m, i.datasize), i.unsigned);
  }

  lemma MultiplyAddSubUnique(i: DataOp, s: State, s1: State, s2: State)
    requires i.MultiplyAddSub? && WellFormedData(i) && ArithmeticEffect(i, s, s1) && ArithmeticEffect(i, s, s2)
    ensures s1 == s2
  {
    var x, y, c := RX(s, i.n, i.datasize), RX(s, i.m, i.datasize), RX(s, i.a, i.destsize);
    PutsUnique(s, s1, s2, i.d, false, Accumulated(UInt(c), UInt(x), UInt(y), i.subOp) % Pow2(i.destsize));
  }

  lemma MultiplyAddSubLongUnique(i: DataOp, s: State, s1: State, s2: State)
    requires i.MultiplyAddSubLong? && WellFormedData(i) && ArithmeticEffect(i, s, s1) && ArithmeticEffect(i, s, s2)
    ensures s1 == s2
  {
    var x, y, c := RX(s, i.n, i.datasize), RX(s, i.m, i.datasize), RX(s, i.a, i.destsize);
    PutsUnique(s, s1, s2, i.d, false,
               Accumulated(Reading(c, i.unsigned), Reading(x, i.unsigned), Reading(y, i.unsigned), i.subOp) % Pow2(64));
  }

  lemma MultiplyHighUnique(i: DataOp, s: State, s1: State, s2: State)
    requires i.MultiplyHigh? && WellFormedData(i) && ArithmeticEffect(i, s, s1) && ArithmeticEffect(i, s, s2)
    ensures s1 == s2
  {
    var x, y := RX(s, i.n, i.destsize), RX(s, i.m, i.destsize);
    PutsUnique(s, s1, s2, i.d, false, HighNumber(Reading(x, i.unsigned), Reading(y, i.unsigned)) % Pow2(64));
  }

  lemma CRCUnique(i: DataOp, s: State, s1: State, s2: State)
    requires i.CRC? && WellFormedData(i) && ArithmeticEffect(i, s, s1) && ArithmeticEffect(i, s, s2)
    ensures s1 == s2
  {
    var acc, val, poly := RX(s, i.n, 32), RX(s, i.m, i.size), Polynomial(CrcTerms(i.crc32c));
    var r :| CrcOf(acc, val, poly, r) && PutsValue(s, s1, i.d, UInt(r));
    var t :| CrcOf(acc, val, poly, t) && PutsValue(s, s2, i.d, UInt(t));
    CrcOfUnique(acc, val, poly, r, t);
    PutsUnique(s, s1, s2, i.d, false, UInt(r));
  }

  /** A state has the effect of an instruction exactly when it is the state the instruction leaves: the effects
      are a complete description. */
  lemma EffectExact(i: DataOp, s: State, s': State)
    requires WellFormedData(i)
    ensures Effect(i, s, s') <==> s' == After(i, s)
  {
    EffectHolds(i, s);
    if Effect(i, s, s') {
      if IsSumOp(i) { SumOpUnique(i, s, s', After(i, s)); }
      else if IsBitOp(i) { BitOpUnique(i, s, s', After(i, s)); }
      else if IsArithmetic(i) { ArithmeticUnique(i, s, s', After(i, s)); }
      else { NumberUnique(i, s, s', After(i, s)); }
    }
  }
}
