/** What single instructions mean to a programmer, apart from how their clauses compute it: products,
    quotients, extracts, constants built in parts, register transfers, calls, pushes and pops. */
module Meanings {
  import opened Wrappers
  import opened Ints
  import opened BitVectors
  import opened CommonLib
  import opened Shifts
  import opened A64Lib
  import opened MemAccess
  import opened Instructions
  import opened Semantics
  import StoreLoad

  // ----- products -----

  /** The upper half of a 2w-bit truncation is the w-bit truncation of the quotient. */
  lemma UpperHalf(w: nat, p: int)
    ensures ToBits(2 * w, p)[w..] == ToBits(w, p / Pow2(w))
  {
    var u, v := ToBits(2 * w, p)[w..], ToBits(w, p / Pow2(w));
    forall i: nat | i < w ensures u[i] == v[i] {
      ToBitsAt(2 * w, p, w + i);
      ToBitsAt(w, p / Pow2(w), i);
      BitShr(p, w, i);
    }
  }

  lemma ProductBounds(a: int, b: int, h: int)
    requires h > 0 && -h <= a < h && -h <= b < h
    ensures -(h * h) <= a * b <= h * h
  {
    if b >= 0 { ScaledBounds(a, b, h); } else { ScaledBounds(a, -b, h); SignedMultiple(a, b); }
  }

  lemma ScaledBounds(a: int, d: int, h: int)
    requires -h <= a <= h && 0 <= d <= h
    ensures -(h * h) <= a * d <= h * h
  {
    MulMono(a, h, d);
    MulMono(-h, a, d);
    MulMono(d, h, h);
    SignedMultiple(h, d);
  }

  /** UMULH and SMULH: the product divided by 2^64, rounding down. */
  lemma HighProductMeaning(x: Bits, y: Bits)
    requires |x| == |y| == 64
    ensures UInt(HighProduct(x, y, true)) == UInt(x) * UInt(y) / Pow2(64)
    ensures SInt(HighProduct(x, y, false)) == SInt(x) * SInt(y) / Pow2(64)
  {
    UpperHalf(64, UInt(x) * UInt(y));
    UpperHalf(64, SInt(x) * SInt(y));
    HighUnsigned(x, y, 64);
    HighSigned(x, y, 64);
  }

  lemma HighUnsigned(x: Bits, y: Bits, w: nat)
    requires |x| == |y| == w
    ensures UInt(ToBits(w, UInt(x) * UInt(y) / Pow2(w))) == UInt(x) * UInt(y) / Pow2(w)
  {
    UIntRange(x);
    UIntRange(y);
    var p, m := UInt(x) * UInt(y), Pow2(w);
    HighBound(UInt(x), UInt(y), m);
    UIntToBits(w, p / m);
    SmallMod(p / m, m);
  }

  lemma HighBound(a: nat, b: nat, m: int)
    requires a < m && b < m
    ensures 0 <= a * b / m < m
  {
    MulMono(a, m - 1, b);
    MulMono(b, m - 1, m - 1);
    MulMono(0, a, b);
    DivModForm(a * b, m);
    QuotientBelow(a * b, m, m);
  }

  lemma QuotientBelow(p: int, m: int, k: int)
    requires m > 0 && 0 <= p < m * k
    ensures 0 <= p / m < k
  {
    DivModForm(p, m);
    if p / m >= k { MulMono(k, p / m, m); }
  }

  lemma HighSigned(x: Bits, y: Bits, w: nat)
    requires |x| == |y| == w > 0
    ensures SInt(ToBits(w, SInt(x) * SInt(y) / Pow2(w))) == SInt(x) * SInt(y) / Pow2(w)
  {
    SIntRange(x);
    SIntRange(y);
    ProductBounds(SInt(x), SInt(y), Pow2(w - 1));
    SignedQuotient(SInt(x) * SInt(y), Pow2(w - 1));
    SIntToBits(w, SInt(x) * SInt(y) / Pow2(w));
  }

  lemma SignedQuotient(p: int, h: int)
    requires h > 0 && -(h * h) <= p <= h * h
    ensures -h <= p / (2 * h) < h
  {
    DivModForm(p, 2 * h);
    var q := p / (2 * h);
    assert q * (2 * h) == 2 * (q * h);
    if q >= h { MulMono(h, q, h); }
    if q < -h { MulMono(q, -h - 1, h); }
  }

  /** MADD and MSUB need no signed form: the low bits do not depend on the reading of the operands. */
  lemma ProductIgnoresSign(c: Bits, x: Bits, y: Bits, sub: bool)
    requires |c| == |x| == |y|
    ensures ProductSum(|x|, c, x, y, sub, true) == ProductSum(|x|, c, x, y, sub, false)
  {
    var m := Pow2(|x|);
    var kc, kx, ky := SignWeight(c), SignWeight(x), SignWeight(y);
    CongruentSums(UInt(c), UInt(x), UInt(y), kc, kx, ky, m, sub);
    ToBitsMod(|x|, Total(UInt(c), UInt(x), UInt(y), sub), Total(SInt(c), SInt(x), SInt(y), sub));
  }

  function SignWeight(b: Bits): int { if |b| > 0 && b[|b| - 1] then 1 else 0 }

  function Total(c: int, x: int, y: int, sub: bool): int { c + (if sub then -(x * y) else x * y) }

  lemma CongruentSums(c: int, x: int, y: int, kc: int, kx: int, ky: int, m: int, sub: bool)
    requires m > 0
    ensures Total(c, x, y, sub) % m == Total(c - kc * m, x - kx * m, y - ky * m, sub) % m
  {
    ShiftedProduct(x, y, kx, ky, m);
    var k := x * ky + kx * y - kx * ky * m;
    var p := (x - kx * m) * (y - ky * m);
    assert p == x * y - k * m;
    if sub {
      assert c - kc * m - p == (c - x * y) + (k - kc) * m by { Distribute(m, k, kc); }
      ModShift(c - x * y, k - kc, m);
    } else {
      assert c - kc * m + p == (c + x * y) + (-kc - k) * m by { Distribute(m, -kc, k); }
      ModShift(c + x * y, -kc - k, m);
    }
  }

  lemma ShiftedProduct(x: int, y: int, kx: int, ky: int, m: int)
    ensures (x - kx * m) * (y - ky * m) == x * y - (x * ky + kx * y - kx * ky * m) * m
  {
  }

  // ----- quotients -----

  /** Truncated division: the remainder is smaller than the divisor and has the sign of the dividend. */
  lemma QuotientMeaning(x: Bits, y: Bits, unsigned: bool)
    requires !IsZero(y)
    ensures var a, b := Reading(x, unsigned), Reading(y, unsigned);
            var rem := a - Quotient(x, y, unsigned) * b;
            b != 0 && Abs(rem) < Abs(b) && (rem == 0 || (rem < 0) == (a < 0))
  {
    ReadingNonzero(y, unsigned);
    TruncDivMeaning(Reading(x, unsigned), Reading(y, unsigned));
  }

  lemma TruncDivMeaning(a: int, b: int)
    requires b != 0
    ensures var rem := a - TruncDiv(a, b) * b; Abs(rem) < Abs(b) && (rem == 0 || (rem < 0) == (a < 0))
  {
    DivModForm(Abs(a), Abs(b));
    SignedMultiple(Abs(a) / Abs(b), b);
  }

  lemma SignedMultiple(q: int, b: int)
    ensures (-q) * b == -(q * b) && q * (-b) == -(q * b)
  {
  }

  /** UDIV is exact; SDIV is exact but for the most negative value divided by minus one. */
  lemma DivisionFits(x: Bits, y: Bits)
    requires |x| == |y| > 0 && !IsZero(y)
    ensures UInt(ToBits(|x|, Quotient(x, y, true))) == Quotient(x, y, true)
    ensures SInt(ToBits(|x|, Quotient(x, y, false))) == Quotient(x, y, false)
       <==> !(SInt(x) == -Pow2(|x| - 1) && SInt(y) == -1)
  {
    var n := |x|;
    UIntRange(x);
    SIntRange(x);
    ReadingNonzero(y, true);
    ReadingNonzero(y, false);
    FloorDivBounds(UInt(x), UInt(y));
    UIntToBits(n, Quotient(x, y, true));
    SmallMod(Quotient(x, y, true), Pow2(n));
    SignedQuotientRange(SInt(x), SInt(y), Pow2(n - 1));
    SignedResult(n, Quotient(x, y, false));
  }

  lemma SignedQuotientRange(a: int, b: int, h: int)
    requires h > 0 && -h <= a < h && b != 0
    ensures -h <= TruncDiv(a, b) < h <==> !(a == -h && b == -1)
  {
    var q := Abs(a) / Abs(b);
    FloorDivBounds(Abs(a), Abs(b));
    DivModForm(Abs(a), Abs(b));
    if Abs(b) >= 2 { MulMono(2, Abs(b), q); }
  }

  // ----- extracts, selects, page addresses -----

  lemma SliceValue(x: Bits, lo: nat, n: nat, v: int)
    requires lo + n <= |x| && v == UInt(x)
    ensures UInt(x[lo..lo + n]) == v / Pow2(lo) % Pow2(n)
  {
    SliceBits(x, lo, n, v, v / Pow2(lo));
    UIntToBits(n, v / Pow2(lo));
  }

  lemma SliceBits(x: Bits, lo: nat, n: nat, v: int, w: int)
    requires lo + n <= |x| && v == UInt(x) && w == v / Pow2(lo)
    ensures x[lo..lo + n] == ToBits(n, w)
  {
    var r, q := x[lo..lo + n], ToBits(n, w);
    forall i: nat | i < n ensures r[i] == q[i] {
      ToBitsAt(n, w, i);
      BitShr(v, lo, i);
      UIntBit(x, i + lo);
    }
  }

  /** The number a pair of registers holds. */
  function PairValue(hi: Bits, lo: Bits): nat { UInt(lo) + UInt(hi) * Pow2(|lo|) }

  /** EXTR shifts the pair of registers right. */
  lemma ExtractMeaning(hi: Bits, lo: Bits, lsb: nat)
    requires |hi| == |lo| && lsb < |lo|
    ensures UInt(Concat(hi, lo)[lsb..lsb + |lo|]) == PairValue(hi, lo) / Pow2(lsb) % Pow2(|lo|)
  {
    UIntAppend(lo, hi);
    SliceValue(Concat(hi, lo), lsb, |lo|, PairValue(hi, lo));
  }

  /** EXTR of a register with itself is a rotation. */
  lemma ExtractRotates(x: Bits, lsb: nat)
    requires lsb < |x|
    ensures Concat(x, x)[lsb..lsb + |x|] == ROR(x, lsb)
  {
    var r, q := Concat(x, x)[lsb..lsb + |x|], ROR(x, lsb);
    forall i: nat | i < |x| ensures r[i] == q[i] { RotatedBit(x, lsb, i); }
  }

  lemma RotatedBit(x: Bits, lsb: nat, i: nat)
    requires lsb < |x| && i < |x|
    ensures ROR(x, lsb)[i] == x[if i + lsb < |x| then i + lsb else i + lsb - |x|]
  {
    RorTurns(x, lsb, i);
    SmallTurn(i, lsb, |x|);
  }

  lemma SmallTurn(i: nat, lsb: nat, n: nat)
    requires i < n && lsb < n
    ensures Turn(i, lsb, n) == if i + lsb < n then i + lsb else i + lsb - n
  {
    TurnWraps(i, lsb, n);
    SmallMod(lsb, n);
  }

  /** What CSEL, CSINC, CSINV and CSNEG make of a number below m: itself, its successor, complement, negative. */
  function Adjusted(v: int, m: int, inv: bool, inc: bool): int
    requires m > 0
  {
    if inv && inc then (0 - v) % m else if inv then m - 1 - v else if inc then (v + 1) % m else v
  }

  /** From u, the number or its complement. */
  lemma AdjustedFrom(v: int, u: int, m: int, inv: bool, inc: bool)
    requires 0 <= v < m && u == if inv then m - 1 - v else v
    ensures Adjusted(v, m, inv, inc) == (u + BoolInt(inc)) % m
  {
    if inv && inc { ModLess(m - v, m); } else if !inc { SmallMod(u, m); }
  }

  lemma SelectMeaning(x: Bits, y: Bits, inv: bool, inc: bool)
    requires |x| == |y|
    ensures UInt(Selected(false, x, y, inv, inc)) == Adjusted(UInt(y), Pow2(|y|), inv, inc)
  {
    UIntRange(y);
    InvertedValue(inv, y);
    SelectedValue(x, y, inv, inc);
    AdjustedFrom(UInt(y), UInt(InvertIf(inv, y)), Pow2(|y|), inv, inc);
  }

  lemma InvertedValue(inv: bool, y: Bits)
    ensures UInt(InvertIf(inv, y)) == if inv then Pow2(|y|) - 1 - UInt(y) else UInt(y)
  {
    UIntNot(y);
  }

  lemma SelectedValue(x: Bits, y: Bits, inv: bool, inc: bool)
    requires |x| == |y|
    ensures UInt(Selected(false, x, y, inv, inc)) == (UInt(InvertIf(inv, y)) + BoolInt(inc)) % Pow2(|y|)
  {
    UIntToBits(|y|, UInt(InvertIf(inv, y)) + BoolInt(inc));
  }

  /** ADRP starts from the PC rounded down to its 4096-byte page. */
  lemma PageBaseMeaning(pc: Word)
    ensures UInt(PageBase(pc)) == UInt(pc) - UInt(pc) % Pow2(12)
  {
    PageBaseAt(pc, 12);
  }

  lemma PageBaseAt(pc: Word, k: nat)
    requires k <= 64
    ensures UInt(Zeros(k) + pc[k..]) == UInt(pc) - UInt(pc) % Pow2(k)
  {
    var low := pc[..k];
    assert pc == low + pc[k..];
    UIntAppend(low, pc[k..]);
    UIntAppend(Zeros(k), pc[k..]);
    UIntZeros(k);
    UIntRange(low);
    DivModUnique(UInt(pc), Pow2(k), UInt(pc[k..]), UInt(low));
  }

  // ----- constants in parts -----

  ghost function Moved(s: State, d: RegIndex, imm: Bits, pos: nat, opcode: MoveWideOp): State
    requires |imm| == 16 && pos + 16 <= 64
  {
    After(MoveWide(d, 64, imm, pos, opcode), s)
  }

  lemma MovedPart(s: State, d: RegIndex, imm: Bits, pos: nat, opcode: MoveWideOp)
    requires |imm| == 16 && pos + 16 <= 64 && d != 31
    ensures var kept := if opcode == MoveK then RX(s, d, 64) else Zeros(64);
            RX(Moved(s, d, imm, pos, opcode), d, 64) == MoveWideValue(kept, imm, pos, opcode == MoveN)
  {
    var kept := if opcode == MoveK then RX(s, d, 64) else Zeros(64);
    WrittenReads(s, d, MoveWideValue(kept, imm, pos, opcode == MoveN), 64);
  }

  /** MOVZ and three MOVKs build any 64-bit constant from its quarters. */
  lemma ConstantBuilt(s: State, d: RegIndex, q0: Bits, q1: Bits, q2: Bits, q3: Bits)
    requires |q0| == |q1| == |q2| == |q3| == 16 && d != 31
    ensures var s1 := Moved(s, d, q0, 0, MoveZ);
            var s2 := Moved(s1, d, q1, 16, MoveK);
            var s3 := Moved(s2, d, q2, 32, MoveK);
            RX(Moved(s3, d, q3, 48, MoveK), d, 64) == q0 + q1 + q2 + q3
  {
    var s1 := Moved(s, d, q0, 0, MoveZ);
    var s2 := Moved(s1, d, q1, 16, MoveK);
    var s3 := Moved(s2, d, q2, 32, MoveK);
    MovedPart(s, d, q0, 0, MoveZ);
    MovedPart(s1, d, q1, 16, MoveK);
    MovedPart(s2, d, q2, 32, MoveK);
    MovedPart(s3, d, q3, 48, MoveK);
    assert MoveWideValue(Zeros(64), q0, 0, false) == q0 + Zeros(48);
    assert MoveWideValue(q0 + Zeros(48), q1, 16, false) == q0 + q1 + Zeros(32);
    assert MoveWideValue(q0 + q1 + Zeros(32), q2, 32, false) == q0 + q1 + q2 + Zeros(16);
    assert MoveWideValue(q0 + q1 + q2 + Zeros(16), q3, 48, false) == q0 + q1 + q2 + q3;
  }

  // ----- system registers and transactions -----

  /** MSR then MRS: NZCV and DAIF return the low 32 bits written, TPIDR_EL0 all of them. */
  lemma SystemPutGet(s: State, r: SysReg, v: Word)
    ensures SystemGet(SystemPut(s, r, v), r) == if r == SysTpidr then v else v[..32] + Zeros(32)
  {
  }

  /** MRS then MSR changes nothing. */
  lemma SystemGetPut(s: State, r: SysReg)
    ensures SystemPut(s, r, SystemGet(s, r)) == s
  {
    match r
    case SysNzcv => assert SystemGet(s, r)[..28] == s.nzcvRest;
    case SysDaif => assert SystemGet(s, r)[..6] + SystemGet(s, r)[10..32] == s.daifRest;
    case SysTpidr =>
  }

  /** A transaction started and committed leaves the nesting as it was, and the commit event appears exactly
      for the outermost one. */
  lemma StartThenCommit(c: Config, t: RegIndex, s: State)
    requires CanStart(s)
    ensures var s1 := ExecTMStart(c, t, s).state;
            var o := ExecTMCommit(s1);
            o.Done? && o.state == WX(s, t, StartStatus(c, s.txNesting))
            && o.events == if UInt(s.txNesting) == 0 then [TxCommitted] else []
  {
    NestingCounts(s.txNesting, s.txDepth, 8);
  }

  lemma NestingCounts(nesting: Bits, depth: Bits, w: nat)
    requires |nesting| == |depth| == w && UInt(nesting) < UInt(depth)
    ensures UInt(ToBits(w, UInt(nesting) + 1)) == UInt(nesting) + 1
    ensures ToBits(w, UInt(nesting) + 1 - 1) == nesting
  {
    UIntRange(depth);
    UIntToBits(w, UInt(nesting) + 1);
    SmallMod(UInt(nesting) + 1, Pow2(w));
    ToBitsUInt(nesting);
  }

  /** MRS then MSR of the same register, t not the zero register: as if neither had run, but for t. */
  lemma ReadBack(s: State, r: SysReg, t: RegIndex)
    ensures var s' := WX(s, t, SystemGet(s, r)); t != 31 ==> SystemPut(s', r, s'.x[t]) == s'
  {
    if t != 31 {
      var v := SystemGet(s, r);
      WholeWritten(s, t, v);
      SystemGetPut(s, r);
      PutThenWrite(s, r, t, v, v);
    }
  }

  lemma WholeWritten(s: State, t: RegIndex, v: Word)
    requires t != 31
    ensures WX(s, t, v).x[t] == v
  {
  }

  lemma PutThenWrite(s: State, r: SysReg, t: RegIndex, v: Word, w: Word)
    ensures SystemPut(WX(s, t, v), r, w) == WX(SystemPut(s, r, w), t, v)
  {
  }

  /** What TSTART shows: one level deeper, with the status of the start in t, or refused at full depth, with a
      status whose only one is bit 10. */
  ghost predicate StartEffect(c: Config, t: RegIndex, s: State, before: seq<Event>, s': State, events: seq<Event>) {
    if CanStart(s) then
      && UInt(s'.txNesting) == UInt(s.txNesting) + 1 && events == before
      && (t != 31 ==> s'.x[t] == if UInt(s.txNesting) == 0 then c.startEffect else Zeros(64))
      && (forall j: GeneralIndex :: j != t ==> s'.x[j] == s.x[j])
      && s'.(x := s.x, txNesting := s.txNesting) == s
    else
      s' == s && exists st: Word :: events == before + [TxAborted(st)] && forall k :: 0 <= k < 64 ==> st[k] == (k == 10)
  }

  lemma StartHolds(c: Config, t: RegIndex, s: State, before: seq<Event>)
    ensures var o := ExecTMStart(c, t, s); StartEffect(c, t, s, before, o.state, before + o.events)
  {
    if CanStart(s) {
      NestingCounts(s.txNesting, s.txDepth, 8);
      assert before + [] == before;
    } else {
      assert forall k :: 0 <= k < 64 ==> NEST_STATUS[k] == (k == 10);
    }
  }

  // ----- calls -----

  /** BL (or BLR) then RET: control is at the instruction after the call, its tag byte stripped, and only the
      link register and the PC have changed. */
  lemma CallThenReturn(c: Config, call: BranchOp, s: State)
    requires (call.BranchImmediate? || call.BranchRegister?) && call.branchType == Call
    ensures var s1 := ExecBranch(c, call, s).state;
            var s2 := ExecBranch(c, BranchRegister(30, Ret), s1).state;
            var next := Plus(s.pc, ToBits(64, 4));
            s2 == WX(s, 30, next).(pc := StripTag(c, next))
  {
    var next := Plus(s.pc, ToBits(64, 4));
    CallEffect(c, call, s);
    LinkReads(s, next);
    ReturnEffect(c, Jump(c, WX(s, 30, next), Target(call, s)));
  }

  lemma CallEffect(c: Config, call: BranchOp, s: State)
    requires (call.BranchImmediate? || call.BranchRegister?) && call.branchType == Call
    ensures ExecBranch(c, call, s).state == Jump(c, WX(s, 30, Plus(s.pc, ToBits(64, 4))), Target(call, s))
  {
  }

  lemma ReturnEffect(c: Config, s: State)
    ensures ExecBranch(c, BranchRegister(30, Ret), s).state == Jump(c, s, RX(s, 30, 64))
  {
  }

  lemma LinkReads(s: State, next: Word)
    ensures RX(WX(s, 30, next), 30, 64) == next
  {
    WrittenReads(s, 30, next, 64);
  }

  // ----- push and pop -----

  lemma PlusMinus(a: Word, b: Word, m: Word)
    requires Plus(b, m) == Zeros(64)
    ensures Plus(Plus(a, b), m) == a
  {
    CancelAt(a, b, m, 64);
  }

  lemma CancelAt(a: Bits, b: Bits, m: Bits, w: nat)
    requires |a| == |b| == |m| == w && ToBits(w, UInt(b) + UInt(m)) == Zeros(w)
    ensures ToBits(w, UInt(ToBits(w, UInt(a) + UInt(b))) + UInt(m)) == a
  {
    UIntToBits(w, UInt(b) + UInt(m));
    UIntZeros(w);
    UIntToBits(w, UInt(a) + UInt(b));
    var v := UInt(ToBits(w, UInt(a) + UInt(b))) + UInt(m);
    CancelValues(UInt(a), UInt(b), UInt(m), Pow2(w));
    ToBitsMod(w, v, UInt(a));
    ToBitsUInt(a);
  }

  lemma CancelValues(a: int, b: int, m: int, p: int)
    requires p > 0 && (b + m) % p == 0
    ensures ((a + b) % p + m) % p == a % p
  {
    DivModForm(a + b, p);
    DivModForm(b + m, p);
    var q, k := (a + b) / p, (b + m) / p;
    CancelStep(a, b, m, p, q, k, (a + b) % p);
    ModShift(a, k - q, p);
  }

  lemma CancelStep(a: int, b: int, m: int, p: int, q: int, k: int, u: int)
    requires a + b == q * p + u && b + m == k * p
    ensures u + m == a + (k - q) * p
  {
    Distribute(p, k, q);
  }

  function PushOp(n: RegIndex, t: RegIndex, down: Word): MemoryOp {
    LoadImmediate(n, t, Normal, Store, false, true, false, down, 64, 64)
  }

  function PopOp(n: RegIndex, r: RegIndex, up: Word): MemoryOp {
    LoadImmediate(n, r, Normal, Load, false, true, true, up, 64, 64)
  }

  /** A push to an aligned stack pointer may leave it unaligned, where the pop's own check faults. */
  predicate PopFaults(c: Config, s: State, n: RegIndex, down: Word) {
    n == 31 && c.checkStack && UInt(Plus(s.sp, down)) % 16 != 0
  }

  /** A push (STR with pre-index writeback) of register t at base n that gets through, and the matching pop (LDR
      with post-index writeback) of register r: the pop gets through unless the stack check stops it, and then
      the base is restored and r holds what t held. */
  lemma PushThenPop(c: Config, s: State, n: RegIndex, t: RegIndex, r: RegIndex, down: Word, up: Word)
    requires Plus(down, up) == Zeros(64) && r != 31 && r != n && t != n
    requires ExecMemory(c, PushOp(n, t, down), s).Done?
    ensures var o := ExecMemory(c, PopOp(n, r, up), ExecMemory(c, PushOp(n, t, down), s).state);
            && (o.Done? <==> !PopFaults(c, s, n, down))
            && (o.Done? ==> RX(o.state, r, 64) == RX(s, t, 64) && RXorSP(o.state, n, 64) == RXorSP(s, n, 64))
  {
    var base := BaseAddress(c, s, n, true).value;
    var address := Plus(base, down);
    var s0 := WriteBack(s, true, n, address);
    var s1 := ExecMemory(c, PushOp(n, t, down), s).state;
    PushEffect(c, s, n, t, down, base);
    BaseWritten(c, s, n, base, address);
    StoreLoad.ValueStored(c, s0, s1, address, 64, RX(s0, t, 64), Normal, Normal);
    PushedBase(c, s, s1, n, down, base);
    if !PopFaults(c, s, n, down) {
      PopEffect(c, s1, n, r, up, address);
      PlusMinus(base, down, up);
      PoppedReads(c, s1, n, r, Plus(address, up), address, RX(s0, t, 64));
    }
  }

  lemma PushEffect(c: Config, s: State, n: RegIndex, t: RegIndex, down: Word, base: Word)
    requires BaseAddress(c, s, n, true) == Some(base)
    requires ExecMemory(c, PushOp(n, t, down), s).Done?
    ensures var o := ExecMemory(c, PushOp(n, t, down), s);
            var s0 := WriteBack(s, true, n, Plus(base, down));
            StoreOne(c.checkAlignment, c.bigEndian, s0.mem, AddressOf(Plus(base, down)), 8, Normal, RX(s0, t, 64),
                     false)
              == Some(o.state.mem)
            && o.state == s0.(mem := o.state.mem)
  {
  }

  lemma PushedBase(c: Config, s: State, s1: State, n: RegIndex, down: Word, base: Word)
    requires BaseAddress(c, s, n, true) == Some(base)
    requires s1 == WriteBack(s, true, n, Plus(base, down)).(mem := s1.mem)
    ensures BaseAddress(c, s1, n, true) == if PopFaults(c, s, n, down) then None else Some(Plus(base, down))
  {
    BaseWritten(c, s, n, base, Plus(base, down));
    assert BaseAddress(c, s1, n, true) == BaseAddress(c, WriteBack(s, true, n, Plus(base, down)), n, true);
  }

  lemma PopEffect(c: Config, s: State, n: RegIndex, r: RegIndex, up: Word, address: Word)
    requires BaseAddress(c, s, n, true) == Some(address) && r != n
    requires LoadBits(c, s, address, 64, Normal, false).Some?
    ensures ExecMemory(c, PopOp(n, r, up), s).Done?
    ensures var load := LoadBits(c, s, address, 64, Normal, false);
            ExecMemory(c, PopOp(n, r, up), s).state
            == WX(WriteBack(s, true, n, Plus(address, up)), r, ExtendTo(load.value.1, 64, false))
  {
  }

  lemma PoppedReads(c: Config, s: State, n: RegIndex, r: RegIndex, base: Word, address: Word, v: Word)
    requires BaseAddress(c, s, n, true) == Some(address) && r != n && r != 31
    ensures var s' := WX(WriteBack(s, true, n, base), r, ExtendTo(v, 64, false));
            RX(s', r, 64) == v && RXorSP(s', n, 64) == base
  {
    BaseWritten(c, s, n, address, base);
    StoreLoad.ExtendedReads(WriteBack(s, true, n, base), r, v, 64, false);
    StoreLoad.SameWidth(v);
  }

  /** Writeback makes the new base what the next access starts from. */
  lemma BaseWritten(c: Config, s: State, n: RegIndex, base: Word, next: Word)
    requires BaseAddress(c, s, n, true) == Some(base)
    ensures RXorSP(s, n, 64) == base
    ensures RXorSP(WriteBack(s, true, n, next), n, 64) == next
    ensures BaseAddress(c, WriteBack(s, true, n, next), n, true)
         == if n == 31 && c.checkStack && UInt(next) % 16 != 0 then None else Some(next)
  {
    assert s.sp[..64] == s.sp && next[..64] == next;
    assert ZeroExtend(next, 64) == next;
    if n != 31 { assert s.x[n][..64] == s.x[n]; }
  }

  // ----- tests -----

  /** ANDS then B.EQ: taken exactly when the operands have no one in common; B.MI: when both top bits are set. */
  lemma TestMeaning(x: Bits, y: Bits)
    requires |x| == |y| > 0
    ensures var f := LogicalFlags(AndBits(x, y));
            && (ConditionHolds(0, f) <==> forall i :: 0 <= i < |x| ==> !(x[i] && y[i]))
            && (ConditionHolds(4, f) <==> x[|x| - 1] && y[|x| - 1])
  {
  }
}
