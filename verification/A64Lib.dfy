/** Operand decoding of the A64 model (aarch64_small/armV8_A64_lib.sail): replicated bit masks,
    extended and shifted registers; and what the masks make of a bitfield move. */
module A64Lib {
  import opened Wrappers
  import opened Ints
  import opened BitVectors
  import opened Shifts

  // ----- DecodeBitMasks -----

  /** Position i lies in the run of S + 1 ones of an element of width e, turned right by R. */
  predicate InRun(i: nat, e: nat, R: nat, S: nat)
    requires e > 0
  {
    Turn(i, R, e) <= S
  }

  /** The mask of width M in which every element of width e has its ones where InRun says. */
  function RunMask(M: nat, e: nat, R: nat, S: nat): (m: Bits)
    requires e > 0
    ensures |m| == M && forall i :: 0 <= i < M ==> m[i] == InRun(i, e, R, S)
  {
    seq(M, i requires 0 <= i < M => InRun(i, e, R, S))
  }

  datatype Masks = Masks(wmask: Bits, tmask: Bits)

  /** log2 of the element size, or -1 or 0 for the two reserved patterns: N says 64 bits, otherwise
      the ones that lead imms shorten the element. */
  function ElementLog(immN: bool, imms: Bits): (len: int)
    requires |imms| == 6
    ensures -1 <= len <= 6
  {
    if immN then 6 else 5 - LeadingRun(imms, true)
  }

  /** S - R in an element of width e, with borrow. */
  function Diff(S: nat, R: nat, e: nat): (d: nat)
    requires e > 0
    ensures d < e
  {
    (S - R) % e
  }

  /** What the encoding (N, imms, immr) denotes: None for reserved encodings. */
  function BitMasks(M: nat, immN: bool, imms: Bits, immr: Bits, immediate: bool): (r: Option<Masks>)
    requires |imms| == 6 && |immr| == 6
    ensures r.Some? ==> |r.value.wmask| == M && |r.value.tmask| == M
  {
    var len := ElementLog(immN, imms);
    if len < 1 || M < Pow2(len) || Residue(M, Pow2(len)) != 0 then None
    else
      var e := Pow2(len);
      var S, R := Residue(UInt(imms), e), Residue(UInt(immr), e);
      if immediate && S == e - 1 then None
      else Some(Masks(RunMask(M, e, R, S), RunMask(M, e, 0, Diff(S, R, e))))
  }

  method DecodeBitMasks(M: nat, immN: bool, imms: Bits, immr: Bits, immediate: bool) returns (r: Option<Masks>)
    requires |imms| == 6 && |immr| == 6
    ensures r == BitMasks(M, immN, imms, immr, immediate)
  {
    var h := HighestSetBit(Concat([immN], Not(imms)));
    ElementLogIsHighest(immN, imms, h);
    if h.None? { return None; }
    var len := h.value;
    if len < 1 { return None; }
    if M < Pow2(len) { return None; }

    var levels := ZeroExtend(Ones(len), 6);
    LevelMask(imms, len);
    LevelMask(immr, len);
    if immediate && AndBits(imms, levels) == levels { return None; }
    r := ElementMasks(M, len, AndBits(imms, levels), AndBits(immr, levels));
  }

  /** The masks for elements of width 2^len, from S and R reduced to that width. */
  method ElementMasks(M: nat, len: nat, S: Bits, R: Bits) returns (r: Option<Masks>)
    requires |S| == |R| && len <= |S| && UInt(S) < Pow2(len) && UInt(R) < Pow2(len)
    ensures var e := Pow2(len);
            r == if Residue(M, e) != 0 then None
                 else Some(Masks(RunMask(M, e, UInt(R), UInt(S)), RunMask(M, e, 0, Diff(UInt(S), UInt(R), e))))
  {
    var diff := ToBits(|S|, UInt(S) - UInt(R));
    var esize := Pow2(len);
    var d := diff[..len];
    LowDifference(|S|, UInt(S), UInt(R), len);
    var wmask := Wmask(M, esize, UInt(S), UInt(R));
    var tmask := Tmask(M, esize, UInt(d));
    if wmask.None? || tmask.None? { return None; }
    r := Some(Masks(wmask.value, tmask.value));
  }

  method Wmask(M: nat, esize: nat, S: nat, R: nat) returns (r: Option<Bits>)
    requires S < esize && R < esize
    ensures r == if Residue(M, esize) != 0 then None else Some(RunMask(M, esize, R, S))
  {
    var welem := ZeroExtend(Ones(S + 1), esize);
    if Residue(M, esize) == 0 { RunReplicated(M, esize, R, S); }
    r := Replicate(ROR(welem, R), M);
  }

  method Tmask(M: nat, esize: nat, d: nat) returns (r: Option<Bits>)
    requires d < esize
    ensures r == if Residue(M, esize) != 0 then None else Some(RunMask(M, esize, 0, d))
  {
    var telem := ZeroExtend(Ones(d + 1), esize);
    if Residue(M, esize) == 0 { RunReplicated(M, esize, 0, d); }
    r := Replicate(telem, M);
  }

  lemma ElementLogIsHighest(immN: bool, imms: Bits, h: Option<nat>)
    requires |imms| == 6 && IsHighestSetBit(Concat([immN], Not(imms)), h)
    ensures h == if ElementLog(immN, imms) < 0 then None else Some(ElementLog(immN, imms))
  {
    LeadingRunMeaning(imms, true);
    var x, len := Concat([immN], Not(imms)), ElementLog(immN, imms);
    assert x == Not(imms) + [immN];
    if len >= 0 { assert x[len]; }
  }

  /** Masking with len ones is reduction modulo 2^len; the value is all ones exactly when it equals the mask. */
  lemma LevelMask(imm: Bits, len: nat)
    requires len <= |imm|
    ensures var levels := ZeroExtend(Ones(len), |imm|);
            var m := AndBits(imm, levels);
            UInt(m) == Residue(UInt(imm), Pow2(len)) && (m == levels <==> UInt(m) == Pow2(len) - 1)
  {
    var levels := ZeroExtend(Ones(len), |imm|);
    var m := AndBits(imm, levels);
    assert m == ZeroExtend(imm[..len], |imm|);
    UIntZeroExtend(imm[..len], |imm|);
    LowBits(imm, len);
    UIntZeroExtend(Ones(len), |imm|);
    UIntOnes(len);
    if UInt(m) == UInt(levels) { UIntInjective(m, levels); }
  }

  lemma LowBits(x: Bits, len: nat)
    requires len <= |x|
    ensures UInt(x[..len]) == Residue(UInt(x), Pow2(len))
  {
    var low, b := x[..len], ToBits(len, UInt(x));
    forall i: nat | i < len ensures low[i] == b[i] { UIntBit(x, i); ToBitsAt(len, UInt(x), i); }
    assert low == b;
    UIntToBits(len, UInt(x));
  }

  /** The low len bits of a difference truncated to w bits. */
  lemma LowDifference(w: nat, S: nat, R: nat, len: nat)
    requires len <= w
    ensures UInt(ToBits(w, S - R)[..len]) == Diff(S, R, Pow2(len))
  {
    assert ToBits(w, S - R)[..len] == ToBits(len, S - R);
    UIntToBits(len, S - R);
  }

  lemma RunReplicated(M: nat, e: nat, R: nat, S: nat)
    requires S < e && R < e && Residue(M, e) == 0
    ensures Repeat(ROR(ZeroExtend(Ones(S + 1), e), R), M) == RunMask(M, e, R, S)
    ensures R == 0 ==> ROR(ZeroExtend(Ones(S + 1), e), R) == ZeroExtend(Ones(S + 1), e)
  {
    var elem := ZeroExtend(Ones(S + 1), e);
    var a, b := Repeat(ROR(elem, R), M), RunMask(M, e, R, S);
    forall i: nat | i < M ensures a[i] == b[i] {
      RunBit(elem, S, R, i);
    }
  }

  lemma RunBit(elem: Bits, S: nat, R: nat, i: nat)
    requires S < |elem| && elem == ZeroExtend(Ones(S + 1), |elem|)
    ensures ROR(elem, R)[i % |elem|] == InRun(i, |elem|, R, S)
  {
    RorTurns(elem, R, i % |elem|);
    TurnRemainder(i, R, |elem|);
  }

  lemma TurnRemainder(i: nat, R: nat, e: nat)
    requires e > 0
    ensures Turn(i % e, R, e) == Turn(i, R, e)
  {
    DivModForm(i, e);
    ModShift(i % e + R, i / e, e);
  }

  /** A logical immediate is neither all zeros nor all ones. */
  lemma LogicalImmediateMixed(M: nat, immN: bool, imms: Bits, immr: Bits)
    requires |imms| == 6 && |immr| == 6 && M > 0 && BitMasks(M, immN, imms, immr, true).Some?
    ensures var w := BitMasks(M, immN, imms, immr, true).value.wmask; w != Zeros(M) && w != Ones(M)
  {
    var e := Pow2(ElementLog(immN, imms));
    var S, R := Residue(UInt(imms), e), Residue(UInt(immr), e);
    var w := BitMasks(M, immN, imms, immr, true).value.wmask;
    TurnTo(0, R, e);
    TurnTo(e - 1, R, e);
    assert w[Diff(0, R, e)] == InRun(Diff(0, R, e), e, R, S);
    assert w[Diff(e - 1, R, e)] == InRun(Diff(e - 1, R, e), e, R, S);
  }

  lemma TurnTo(j: nat, R: nat, e: nat)
    requires j < e && R < e
    ensures Turn(Diff(j, R, e), R, e) == j
  {
    if j >= R {
      SmallMod(j - R, e);
      SmallMod(j, e);
    } else {
      ModShift(j - R, 1, e);
      SmallMod(j - R + e, e);
      ModLess(j + e, e);
      SmallMod(j, e);
    }
  }

  // ----- extended and shifted registers -----

  datatype ExtendType = SXTB | SXTH | SXTW | SXTX | UXTB | UXTH | UXTW | UXTX
  {
    predicate Unsigned() { this in {UXTB, UXTH, UXTW, UXTX} }

    function Width(): nat {
      match this
      case SXTB | UXTB => 8
      case SXTH | UXTH => 16
      case SXTW | UXTW => 32
      case SXTX | UXTX => 64
    }
  }

  function Min(a: int, b: int): int { if a <= b then a else b }

  function Extend(x: Bits, n: nat, unsigned: bool): (b: Bits)
    requires 0 < |x| <= n
    ensures |b| == n
  {
    if unsigned then ZeroExtend(x, n) else SignExtend(x, n)
  }

  /** `ExtendReg` on the register's value. */
  function ExtendReg(val: Bits, etype: ExtendType, shift: nat): (r: Bits)
    requires shift < |val|
    ensures |r| == |val|
  {
    var len := Min(etype.Width(), |val| - shift);
    Extend(Concat(val[..len], Zeros(shift)), |val|, etype.Unsigned())
  }

  function Reading(b: Bits, unsigned: bool): int { if unsigned then UInt(b) else SInt(b) }

  /** ExtendReg is the low part, read unsigned or signed, times 2^shift, whatever is cut off at the top. */
  lemma ExtendRegMeaning(val: Bits, etype: ExtendType, shift: nat)
    requires shift < |val|
    ensures var part := val[..Min(etype.Width(), |val|)];
            ExtendReg(val, etype, shift) == ToBits(|val|, Reading(part, etype.Unsigned()) * Pow2(shift))
  {
    var part := val[..Min(etype.Width(), |val|)];
    ExtendedIsProduct(val, etype, shift, part, Reading(part, etype.Unsigned()));
  }

  /** What each extension type keeps of a register, as a number: the low 8, 16, 32 or 64 bits, read unsigned or
      signed. */
  function ExtendedNumber(v: int, etype: ExtendType): int {
    match etype
    case UXTB => v % 0x100
    case UXTH => v % 0x1_0000
    case UXTW => v % 0x1_0000_0000
    case UXTX => v % WORD
    case SXTB => Centred(v, 0x100)
    case SXTH => Centred(v, 0x1_0000)
    case SXTW => Centred(v, 0x1_0000_0000)
    case SXTX => Centred(v, WORD)
  }

  /** ExtendReg of a 32-bit or 64-bit register is that number times 2^shift. */
  lemma ExtendRegNumber(val: Bits, etype: ExtendType, shift: nat)
    requires shift < |val| && |val| in {32, 64}
    ensures ExtendReg(val, etype, shift) == ToBits(|val|, ExtendedNumber(UInt(val), etype) * Pow2(shift))
  {
    if etype.Width() <= |val| { NarrowNumber(val, etype, shift); } else { WideNumber(val, etype, shift); }
  }

  lemma NarrowNumber(val: Bits, etype: ExtendType, shift: nat)
    requires shift < |val| && etype.Width() <= |val|
    ensures ExtendReg(val, etype, shift) == ToBits(|val|, ExtendedNumber(UInt(val), etype) * Pow2(shift))
  {
    var w := etype.Width();
    PartNumber(val, etype, w);
    ExtendedIsProduct(val, etype, shift, val[..w], ExtendedNumber(UInt(val), etype));
  }

  lemma WideNumber(val: Bits, etype: ExtendType, shift: nat)
    requires shift < |val| == 32 && etype.Width() == 64
    ensures ExtendReg(val, etype, shift) == ToBits(|val|, ExtendedNumber(UInt(val), etype) * Pow2(shift))
  {
    assert val[..Min(etype.Width(), |val|)] == val;
    ExtendedIsProduct(val, etype, shift, val, Reading(val, etype.Unsigned()));
    WholeNumber(val, etype, shift);
  }

  lemma ExtendModulus(v: int, etype: ExtendType, w: nat)
    requires w == etype.Width()
    ensures ExtendedNumber(v, etype) == if etype.Unsigned() then v % Pow2(w) else Centred(v, Pow2(w))
  {
    WordIsPow2();
    SmallWords();
  }

  lemma SmallWords()
    ensures Pow2(8) == 0x100 && Pow2(16) == 0x1_0000 && Pow2(32) == 0x1_0000_0000
  {
    assert Pow2(4) == 16;
    Pow2Square(4, 16);
    Pow2Square(8, 0x100);
    Pow2Square(16, 0x1_0000);
  }

  lemma PartNumber(val: Bits, etype: ExtendType, w: nat)
    requires w == etype.Width() <= |val|
    ensures Reading(val[..w], etype.Unsigned()) == ExtendedNumber(UInt(val), etype)
  {
    ExtendModulus(UInt(val), etype, w);
    LowBits(val, w);
    if !etype.Unsigned() {
      SIntCentred(val[..w]);
      ModRange(UInt(val), w);
      SmallMod(UInt(val) % Pow2(w), Pow2(w));
    }
  }

  /** An extension wider than the register keeps all of it; how it is read makes no difference. */
  lemma WholeNumber(val: Bits, etype: ExtendType, shift: nat)
    requires |val| == 32 && etype.Width() == 64
    ensures ToBits(32, Reading(val, etype.Unsigned()) * Pow2(shift))
         == ToBits(32, ExtendedNumber(UInt(val), etype) * Pow2(shift))
  {
    UIntRange(val);
    SmallWords();
    SmallMod(UInt(val), WORD);
    if !etype.Unsigned() {
      SIntRange(val);
      if SInt(val) != UInt(val) { ScaledCongruent(32, UInt(val), Pow2(shift)); }
    }
  }

  lemma ScaledCongruent(n: nat, v: int, q: int)
    ensures ToBits(n, (v - Pow2(n)) * q) == ToBits(n, v * q)
  {
    assert (v - Pow2(n)) * q == v * q + (-q) * Pow2(n);
    ModShift(v * q, -q, Pow2(n));
    ToBitsMod(n, (v - Pow2(n)) * q, v * q);
  }

  lemma ExtendedIsProduct(val: Bits, etype: ExtendType, shift: nat, part: Bits, v: int)
    requires shift < |val| && part == val[..Min(etype.Width(), |val|)] && v == Reading(part, etype.Unsigned())
    ensures ExtendReg(val, etype, shift) == ToBits(|val|, v * Pow2(shift))
  {
    var r, q := ExtendReg(val, etype, shift), ToBits(|val|, v * Pow2(shift));
    forall i: nat | i < |val| ensures r[i] == q[i] {
      ExtendedBit(val, etype, shift, part, v, i);
      ToBitsAt(|val|, v * Pow2(shift), i);
      ScaledBit(v, shift, i);
    }
  }

  lemma ScaledBit(v: int, shift: nat, i: nat)
    ensures Bit(v * Pow2(shift), i) == (i >= shift && Bit(v, i - shift))
  {
    BitJoin(v, 0, shift, i);
    BitZero(i);
  }

  lemma ExtendedBit(val: Bits, etype: ExtendType, shift: nat, part: Bits, v: int, i: nat)
    requires shift < |val| && part == val[..Min(etype.Width(), |val|)] && v == Reading(part, etype.Unsigned())
    requires i < |val|
    ensures ExtendReg(val, etype, shift)[i] == (i >= shift && Bit(v, i - shift))
  {
    if i >= shift {
      if etype.Unsigned() { UIntBit(part, i - shift); } else { SIntBit(part, i - shift); }
    }
  }

  datatype ShiftType = ShiftLSL | ShiftLSR | ShiftASR | ShiftROR

  /** `ShiftReg` on the register's value. */
  function ShiftReg(val: Bits, stype: ShiftType, amount: nat): (r: Bits)
    requires |val| > 0
    ensures |r| == |val|
  {
    match stype
    case ShiftLSL => LSL(val, amount)
    case ShiftLSR => LSR(val, amount)
    case ShiftASR => ASR(val, amount)
    case ShiftROR => ROR(val, amount)
  }

  // ----- bitfield move -----

  /** The value BitfieldMove writes, from its masks as the source combines them. */
  function MaskedMove(dst: Bits, src: Bits, extend: bool, R: nat, S: nat, m: Masks): (r: Bits)
    requires |dst| == |src| == |m.wmask| == |m.tmask| && S < |src|
    ensures |r| == |src|
  {
    var bot := OrBits(AndBits(dst, Not(m.wmask)), AndBits(ROR(src, R), m.wmask));
    var top := if extend then Repeat([src[S]], |src|) else dst;
    OrBits(AndBits(top, Not(m.tmask)), AndBits(bot, m.tmask))
  }

  /** Where the moved field starts and how long it is: bits S..R to the bottom, or bits S..0 to n - R. */
  function FieldStart(n: nat, R: nat, S: nat): int { if S >= R then 0 else n - R }
  function FieldLength(R: nat, S: nat): int { if S >= R then S - R + 1 else S + 1 }
  function FieldSource(R: nat, S: nat): nat { if S >= R then R else 0 }

  /** Bit i of a bitfield move: below the field the old destination, then the field, then on top the sign of
      the field or the old destination. */
  predicate MovedBit(dst: Bits, src: Bits, extend: bool, R: nat, S: nat, i: nat)
    requires |dst| == |src| && i < |src| && S < |src| && R < |src|
  {
    var start := FieldStart(|src|, R, S);
    if i < start then dst[i]
    else if i < start + FieldLength(R, S) then src[i - start + FieldSource(R, S)]
    else if extend then src[S]
    else dst[i]
  }

  /** The masks DecodeBitMasks makes when an element is the whole register. */
  function FieldMasks(n: nat, R: nat, S: nat): (m: Masks)
    requires n > 0
    ensures |m.wmask| == |m.tmask| == n
  {
    Masks(RunMask(n, n, R, S), RunMask(n, n, 0, Diff(S, R, n)))
  }

  /** With those masks a bitfield move moves exactly its field, for all register values. */
  lemma MaskedMoveMeaning(dst: Bits, src: Bits, extend: bool, R: nat, S: nat)
    requires |dst| == |src| && S < |src| && R < |src|
    ensures var r := MaskedMove(dst, src, extend, R, S, FieldMasks(|src|, R, S));
            forall i: nat :: i < |src| ==> r[i] == MovedBit(dst, src, extend, R, S, i)
  {
    var r := MaskedMove(dst, src, extend, R, S, FieldMasks(|src|, R, S));
    forall i: nat | i < |src| ensures r[i] == MovedBit(dst, src, extend, R, S, i) {
      MovedAt(dst, src, extend, R, S, i);
    }
  }

  lemma MovedAt(dst: Bits, src: Bits, extend: bool, R: nat, S: nat, i: nat)
    requires |dst| == |src| && S < |src| && R < |src| && i < |src|
    ensures MaskedMove(dst, src, extend, R, S, FieldMasks(|src|, R, S))[i] == MovedBit(dst, src, extend, R, S, i)
  {
    FieldMaskBits(|src|, R, S, i);
    MaskedMoveAt(dst, src, extend, R, S, FieldMasks(|src|, R, S), i);
    FieldCases(dst, src, extend, R, S, i);
  }

  lemma FieldMaskBits(n: nat, R: nat, S: nat, i: nat)
    requires i < n && R < n && S < n
    ensures FieldMasks(n, R, S).wmask[i] == (Wrapped(i + R, n) <= S)
    ensures FieldMasks(n, R, S).tmask[i] == (i <= if S >= R then S - R else S - R + n)
    ensures Turn(i, R, n) == Wrapped(i + R, n)
  {
    RunPosition(i, R, S, n);
  }

  function Wrapped(k: nat, n: nat): (j: nat)
    requires k < 2 * n
    ensures j < n
  {
    if k < n then k else k - n
  }

  lemma FieldCases(dst: Bits, src: Bits, extend: bool, R: nat, S: nat, i: nat)
    requires |dst| == |src| && S < |src| && R < |src| && i < |src|
    ensures MovedBit(dst, src, extend, R, S, i)
         == if i > (if S >= R then S - R else S - R + |src|) then (if extend then src[S] else dst[i])
            else if Wrapped(i + R, |src|) <= S then src[Wrapped(i + R, |src|)] else dst[i]
  {
  }

  lemma MaskedMoveAt(dst: Bits, src: Bits, extend: bool, R: nat, S: nat, m: Masks, i: nat)
    requires |dst| == |src| == |m.wmask| == |m.tmask| && S < |src| && i < |src|
    ensures MaskedMove(dst, src, extend, R, S, m)[i]
         == if !m.tmask[i] then (if extend then src[S] else dst[i])
            else if m.wmask[i] then src[Turn(i, R, |src|)] else dst[i]
  {
    RorTurns(src, R, i);
  }

  /** Whether position i is in the turned run and at most S - R, without remainders. */
  lemma RunPosition(i: nat, R: nat, S: nat, n: nat)
    requires i < n && R < n && S < n
    ensures Turn(i, R, n) == if i + R < n then i + R else i + R - n
    ensures InRun(i, n, 0, Diff(S, R, n)) == (i <= if S >= R then S - R else S - R + n)
  {
    TurnWraps(i, R, n);
    SmallMod(R, n);
    NoTurn(i, n);
    if S >= R { SmallMod(S - R, n); } else { ModShift(S - R, 1, n); SmallMod(S - R + n, n); }
  }
}
