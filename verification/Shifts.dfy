/** Shifts with carry, rotation, replication and leading-bit counts of the ARMv8 model
    (aarch64_small/armV8_common_lib.sail). */
module Shifts {
  import opened Wrappers
  import opened Ints
  import opened BitVectors

  // ----- shifts -----

  function SignExtend(x: Bits, n: nat): (b: Bits)
    requires 0 < |x| <= n
    ensures |b| == n
  {
    x + (if x[|x| - 1] then Ones(n - |x|) else Zeros(n - |x|))
  }

  function LslC(x: Bits, shift: nat): (r: (Bits, bool))
    requires shift > 0
    ensures |r.0| == |x|
  {
    var extended := Concat(x, Zeros(shift));
    (Mask(extended, |x|), extended[|x|])
  }

  function LsrC(x: Bits, shift: nat): (r: (Bits, bool))
    requires shift > 0
    ensures |r.0| == |x|
  {
    var extended := ZeroExtend(x, shift + |x|);
    (extended[shift..shift + |x|], extended[shift - 1])
  }

  function AsrC(x: Bits, shift: nat): (r: (Bits, bool))
    requires |x| > 0 && shift > 0
    ensures |r.0| == |x|
  {
    var extended := SignExtend(x, shift + |x|);
    (extended[shift..shift + |x|], extended[shift - 1])
  }

  function Residue(a: nat, n: nat): (m: nat)
    requires n > 0
    ensures m < n
  {
    a % n
  }

  function RorC(x: Bits, shift: nat): (r: (Bits, bool))
    requires |x| > 0 && shift > 0
    ensures |r.0| == |x|
  {
    var m := Residue(shift, |x|);
    var result := OrBits(LSR(x, m), LSL(x, |x| - m));
    (result, result[|x| - 1])
  }

  function LSL(x: Bits, shift: nat): (r: Bits) ensures |r| == |x| { if shift == 0 then x else LslC(x, shift).0 }
  function LSR(x: Bits, shift: nat): (r: Bits) ensures |r| == |x| { if shift == 0 then x else LsrC(x, shift).0 }

  function ASR(x: Bits, shift: nat): (r: Bits)
    requires |x| > 0
    ensures |r| == |x|
  {
    if shift == 0 then x else AsrC(x, shift).0
  }

  function ROR(x: Bits, shift: nat): (r: Bits)
    requires |x| > 0
    ensures |r| == |x|
  {
    if shift == 0 then x else RorC(x, shift).0
  }

  /** A left shift multiplies by a power of two; the carry is the last bit shifted out. */
  lemma LslMeaning(x: Bits, shift: nat)
    ensures UInt(LSL(x, shift)) == UInt(x) * Pow2(shift) % Pow2(|x|)
    ensures 0 < shift ==> LslC(x, shift).1 == (shift <= |x| && Bit(UInt(x), |x| - shift))
  {
    var n, v := |x|, UInt(x) * Pow2(shift);
    LslIsProduct(x, shift, v);
    UIntToBits(n, v);
    if 0 < shift <= n { UIntBit(x, n - shift); }
  }

  lemma LslIsProduct(x: Bits, s: nat, v: int)
    requires v == UInt(x) * Pow2(s)
    ensures LSL(x, s) == ToBits(|x|, v)
  {
    var r, q := LSL(x, s), ToBits(|x|, v);
    forall i: nat | i < |x| ensures r[i] == q[i] {
      LslBit(x, s, v, i);
      ToBitsAt(|x|, v, i);
    }
  }

  lemma LslBit(x: Bits, s: nat, v: int, i: nat)
    requires i < |x| && v == UInt(x) * Pow2(s)
    ensures LSL(x, s)[i] == Bit(v, i)
  {
    LslAt(x, s, i);
    BitJoin(UInt(x), 0, s, i);
    BitZero(i);
    if i >= s { UIntBit(x, i - s); }
  }

  /** A right shift divides, dropping the remainder; the carry is the last bit dropped. */
  lemma LsrMeaning(x: Bits, shift: nat)
    ensures UInt(LSR(x, shift)) == UInt(x) / Pow2(shift)
    ensures 0 < shift ==> LsrC(x, shift).1 == Bit(UInt(x), shift - 1)
  {
    var n, v := |x|, UInt(x) / Pow2(shift);
    UIntRange(x);
    FloorDivBounds(UInt(x), Pow2(shift));
    LsrIsDivision(x, shift, v);
    UIntToBits(n, v);
    SmallMod(v, Pow2(n));
    if shift > 0 { UIntBit(x, shift - 1); }
  }

  lemma LsrIsDivision(x: Bits, s: nat, v: int)
    requires v == UInt(x) / Pow2(s)
    ensures LSR(x, s) == ToBits(|x|, v)
  {
    var r, q := LSR(x, s), ToBits(|x|, v);
    forall i: nat | i < |x| ensures r[i] == q[i] {
      LsrBit(x, s, i);
      ToBitsAt(|x|, v, i);
    }
  }

  lemma LsrBit(x: Bits, s: nat, i: nat)
    requires i < |x|
    ensures LSR(x, s)[i] == Bit(UInt(x) / Pow2(s), i)
  {
    LsrAt(x, s, i);
    BitShr(UInt(x), s, i);
    UIntBit(x, i + s);
  }

  /** An arithmetic right shift divides the signed value, rounding towards minus infinity. */
  lemma AsrMeaning(x: Bits, shift: nat)
    requires |x| > 0
    ensures SInt(ASR(x, shift)) == SInt(x) / Pow2(shift)
    ensures 0 < shift ==> AsrC(x, shift).1 == Bit(SInt(x), shift - 1)
  {
    var n, v := |x|, SInt(x) / Pow2(shift);
    SIntRange(x);
    FloorDivBounds(SInt(x), Pow2(shift));
    AsrIsDivision(x, shift, v);
    SIntToBits(n, v);
    if shift > 0 { SIntBit(x, shift - 1); }
  }

  lemma AsrIsDivision(x: Bits, s: nat, v: int)
    requires |x| > 0 && v == SInt(x) / Pow2(s)
    ensures ASR(x, s) == ToBits(|x|, v)
  {
    var r, q := ASR(x, s), ToBits(|x|, v);
    forall i: nat | i < |x| ensures r[i] == q[i] {
      AsrBit(x, s, i);
      ToBitsAt(|x|, v, i);
    }
  }

  lemma AsrBit(x: Bits, s: nat, i: nat)
    requires i < |x|
    ensures ASR(x, s)[i] == Bit(SInt(x) / Pow2(s), i)
  {
    AsrAt(x, s, i);
    BitShr(SInt(x), s, i);
    SIntBit(x, i + s);
  }

  lemma AsrAt(x: Bits, s: nat, i: nat)
    requires i < |x|
    ensures ASR(x, s)[i] == x[if i + s < |x| then i + s else |x| - 1]
  {
  }

  /** Index i after a turn by shift positions round a ring of n. */
  function Turn(i: nat, shift: nat, n: nat): (j: nat)
    requires n > 0
    ensures j < n
  {
    Residue(i + shift, n)
  }

  lemma TurnWraps(i: nat, shift: nat, n: nat)
    requires i < n
    ensures var m := Residue(shift, n); Turn(i, shift, n) == if i + m < n then i + m else i + m - n
  {
    var m := shift % n;
    DivModForm(shift, n);
    ModShift(i + m, shift / n, n);
    if i + m < n { SmallMod(i + m, n); } else { ModLess(i + m, n); SmallMod(i + m - n, n); }
  }

  lemma TurnTurn(i: nat, a: nat, b: nat, n: nat)
    requires n > 0
    ensures Turn(Turn(i, b, n), a, n) == Turn(i, a + b, n)
  {
    DivModForm(i + b, n);
    ModShift((i + b) % n + a, (i + b) / n, n);
  }

  lemma FullTurn(i: nat, n: nat)
    requires i < n
    ensures Turn(i, n, n) == i
  {
    ModLess(i + n, n);
    SmallMod(i, n);
  }

  /** Bit i of r is bit (i + shift) mod n of x. */
  predicate Turned(x: Bits, shift: nat, r: Bits) {
    |r| == |x| > 0 && forall i: nat {:trigger r[i]} :: i < |x| ==> r[i] == x[Turn(i, shift, |x|)]
  }

  /** Rotation turns the bits round, by any amount. The carry-out of a turn by one or more is the top bit of the
      result, and that is bit (shift - 1) mod n of x, which went round last. */
  lemma RorMeaning(x: Bits, shift: nat)
    requires |x| > 0
    ensures Turned(x, shift, ROR(x, shift))
    ensures shift > 0 ==> Turn(|x| - 1, shift, |x|) == Residue(shift - 1, |x|)
    ensures shift > 0 ==> RorC(x, shift) == (ROR(x, shift), ROR(x, shift)[|x| - 1])
  {
    AllTurned(x, shift, ROR(x, shift));
    if shift > 0 {
      TopTurns(shift, |x|);
      CarryIsTop(x, shift);
    }
  }

  lemma AllTurned(x: Bits, shift: nat, r: Bits)
    requires |x| > 0 && r == ROR(x, shift)
    ensures Turned(x, shift, r)
  {
    forall i: nat | i < |x| ensures r[i] == x[Turn(i, shift, |x|)] { RorTurns(x, shift, i); }
  }

  lemma CarryIsTop(x: Bits, shift: nat)
    requires |x| > 0 && shift > 0
    ensures RorC(x, shift) == (ROR(x, shift), ROR(x, shift)[|x| - 1])
  {
  }

  lemma TopTurns(shift: nat, n: nat)
    requires n > 0 && shift > 0
    ensures Turn(n - 1, shift, n) == Residue(shift - 1, n)
  {
    ModLess(n - 1 + shift, n);
  }

  lemma RorTurns(x: Bits, shift: nat, i: nat)
    requires i < |x|
    ensures ROR(x, shift)[i] == x[Turn(i, shift, |x|)]
  {
    if shift == 0 {
      NoTurn(i, |x|);
    } else {
      TurnWraps(i, shift, |x|);
      RorBit(x, shift, Residue(shift, |x|), i, Turn(i, shift, |x|));
    }
  }

  lemma NoTurn(i: nat, n: nat)
    requires i < n
    ensures Turn(i, 0, n) == i
  {
    SmallMod(i, n);
  }

  lemma RorBody(x: Bits, shift: nat)
    requires |x| > 0 && shift > 0
    ensures ROR(x, shift) == OrBits(LSR(x, Residue(shift, |x|)), LSL(x, |x| - Residue(shift, |x|)))
  {
  }

  lemma RorBit(x: Bits, shift: nat, m: nat, i: nat, j: nat)
    requires i < |x| && shift > 0 && m == Residue(shift, |x|) && j == if i + m < |x| then i + m else i + m - |x|
    ensures ROR(x, shift)[i] == x[j]
  {
    RorBody(x, shift);
    RorAt(x, m, i);
  }

  lemma RorAt(x: Bits, m: nat, i: nat)
    requires m < |x| && i < |x|
    ensures OrBits(LSR(x, m), LSL(x, |x| - m))[i] == x[if i + m < |x| then i + m else i + m - |x|]
  {
    LsrAt(x, m, i);
    LslAt(x, |x| - m, i);
  }

  lemma LsrAt(x: Bits, s: nat, i: nat)
    requires i < |x|
    ensures LSR(x, s)[i] == (i + s < |x| && x[i + s])
  {
  }

  lemma LslAt(x: Bits, s: nat, i: nat)
    requires i < |x|
    ensures LSL(x, s)[i] == (i >= s && x[i - s])
  {
  }

  /** Rotations add up, and a full turn is the identity. */
  lemma RorComposes(x: Bits, a: nat, b: nat)
    requires |x| > 0
    ensures ROR(ROR(x, a), b) == ROR(x, a + b)
  {
    var r, q := ROR(ROR(x, a), b), ROR(x, a + b);
    forall i: nat | i < |x| ensures r[i] == q[i] { RorTwice(x, a, b, i); }
  }

  lemma RorFullTurn(x: Bits)
    requires |x| > 0
    ensures ROR(x, |x|) == x
  {
    var r := ROR(x, |x|);
    forall i: nat | i < |x| ensures r[i] == x[i] {
      RorTurns(x, |x|, i);
      FullTurn(i, |x|);
    }
  }

  lemma RorTwice(x: Bits, a: nat, b: nat, i: nat)
    requires i < |x|
    ensures ROR(ROR(x, a), b)[i] == ROR(x, a + b)[i]
  {
    var j := Turn(i, b, |x|);
    RorTurns(ROR(x, a), b, i);
    RorTurns(x, a, j);
    RorTurns(x, a + b, i);
    TurnTurn(i, a, b, |x|);
  }

  // ----- replication -----

  /** The n low bits of the endless repetition of x. */
  function Repeat(x: Bits, n: nat): (r: Bits)
    requires |x| > 0
    ensures |r| == n && forall i :: 0 <= i < n ==> r[i] == x[i % |x|]
  {
    seq(n, i requires 0 <= i < n => x[i % |x|])
  }

  /** `Replicate`: fails unless the length of x divides n; otherwise shift-and-or, one copy a round. */
  method Replicate(x: Bits, n: nat) returns (r: Option<Bits>)
    requires |x| > 0
    ensures r == if Residue(n, |x|) == 0 then Some(Repeat(x, n)) else None
  {
    var M := |x|;
    if Residue(n, M) != 0 { return None; }
    DivModForm(n, M);
    var result := Zeros(n);
    var i := M;
    ghost var k := 0;
    while i <= n
      invariant 0 <= k <= n / M && i == k * M + M && |result| == n
      invariant CopiesBelow(x, result, k * M)
      decreases n + M - i
    {
      Copies(k, n / M, M);
      NextCopy(x, result, k * M);
      result := OrBits(LSL(result, M), ZeroExtend(x, n));
      i, k := i + M, k + 1;
    }
    Copies(k, n / M, M);
    assert result == Repeat(x, n);
    r := Some(result);
  }

  /** The bits of r below t repeat x; the others are still zero. */
  ghost predicate CopiesBelow(x: Bits, r: Bits, t: nat)
    requires |x| > 0
  {
    forall j :: 0 <= j < |r| ==> r[j] == (j < t && x[j % |x|])
  }

  lemma NextCopy(x: Bits, r: Bits, t: nat)
    requires 0 < |x| <= |r| && CopiesBelow(x, r, t)
    ensures CopiesBelow(x, OrBits(LSL(r, |x|), ZeroExtend(x, |r|)), t + |x|)
  {
    var M, r' := |x|, OrBits(LSL(r, |x|), ZeroExtend(x, |r|));
    forall j: nat | j < |r| ensures r'[j] == (j < t + M && x[j % M]) {
      LslAt(r, M, j);
      if j < M { SmallMod(j, M); } else { ModLess(j, M); }
    }
  }

  lemma Copies(k: nat, q: nat, m: nat)
    requires m > 0 && k <= q
    ensures (k + 1) * m == k * m + m
    ensures k < q <==> k * m + m <= q * m
    ensures k == q ==> k * m == q * m
  {
    if k < q { MulMono(k + 1, q, m); }
  }

  // ----- leading bits -----

  /** The position of the most significant one, if any. */
  ghost predicate IsHighestSetBit(x: Bits, r: Option<nat>) {
    match r
    case None => IsZero(x)
    case Some(c) => c < |x| && x[c] && forall j :: c < j < |x| ==> !x[j]
  }

  method HighestSetBit(x: Bits) returns (r: Option<nat>)
    ensures IsHighestSetBit(x, r)
  {
    var result: nat, broke := 0, false;
    for i := |x| downto 0
      invariant !broke ==> forall j :: i <= j < |x| ==> !x[j]
      invariant broke ==> i <= result && IsHighestSetBit(x, Some(result))
    {
      if !broke && x[i] {
        result, broke := i, true;
      }
    }
    r := if broke then Some(result) else None;
  }

  /** How many of the topmost bits equal b. */
  function LeadingRun(x: Bits, b: bool): (k: nat)
    ensures k <= |x|
  {
    if x == [] || x[|x| - 1] != b then 0 else 1 + LeadingRun(x[..|x| - 1], b)
  }

  lemma {:induction false} LeadingRunMeaning(x: Bits, b: bool)
    ensures var k := LeadingRun(x, b);
            (forall j :: |x| - k <= j < |x| ==> x[j] == b) && (k < |x| ==> x[|x| - 1 - k] != b)
  {
    if x != [] && x[|x| - 1] == b { LeadingRunMeaning(x[..|x| - 1], b); }
  }

  method CountLeadingZeroBits(x: Bits) returns (k: nat)
    ensures k == LeadingRun(x, false)
  {
    LeadingRunMeaning(x, false);
    var h := HighestSetBit(x);
    k := match h case None => |x| case Some(n) => |x| - 1 - n;
  }

  /** Leading sign bits not counting the sign itself: the zeros on top of x xor (x shifted by one). */
  method CountLeadingSignBits(x: Bits) returns (k: nat)
    requires |x| > 0
    ensures k + 1 == LeadingRun(x, x[|x| - 1])
  {
    var n := |x|;
    var changes := XorBits(x[1..], x[..n - 1]);
    k := CountLeadingZeroBits(changes);
    LeadingRunMeaning(changes, false);
    LeadingSigns(x, k);
  }

  lemma LeadingSigns(x: Bits, k: nat)
    requires k < |x|
    requires forall j :: |x| - 1 - k <= j < |x| - 1 ==> x[j + 1] == x[j]
    requires k < |x| - 1 ==> x[|x| - 1 - k] != x[|x| - 2 - k]
    ensures LeadingRun(x, x[|x| - 1]) == k + 1
  {
    SameDownTo(x, |x| - 1 - k);
    LeadingRunMeaning(x, x[|x| - 1]);
  }

  lemma {:induction false} SameDownTo(x: Bits, lo: nat)
    requires lo < |x| && forall j :: lo <= j < |x| - 1 ==> x[j + 1] == x[j]
    ensures forall j :: lo <= j < |x| ==> x[j] == x[|x| - 1]
    decreases |x| - lo
  {
    if lo < |x| - 1 {
      SameDownTo(x, lo + 1);
      assert x[lo + 1] == x[lo];
    }
  }

  /** The count of leading zeros tells how many bits the value needs. */
  lemma LeadingZerosValue(x: Bits)
    ensures var k := LeadingRun(x, false);
            UInt(x) < Pow2(|x| - k) && (k < |x| ==> Pow2(|x| - k - 1) <= UInt(x))
  {
    LeadingRunMeaning(x, false);
    ZeroTop(x, |x| - LeadingRun(x, false));
  }

  lemma ZeroTop(x: Bits, m: nat)
    requires m <= |x| && (forall j :: m <= j < |x| ==> !x[j]) && (m > 0 ==> x[m - 1])
    ensures UInt(x) < Pow2(m) && (m > 0 ==> Pow2(m - 1) <= UInt(x))
  {
    assert x == ZeroExtend(x[..m], |x|);
    UIntZeroExtend(x[..m], |x|);
    UIntRange(x[..m]);
    if m > 0 {
      UIntBit(x, m - 1);
      BitLowerBound(UInt(x), m - 1);
    }
  }
}
