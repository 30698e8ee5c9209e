/** Polynomial division over GF(2) and the CRC32 step built on it
    (aarch64_small/armV8_common_lib.sail and the CRC clause of aarch64_small/armV8.sail).
    A bit vector stands for a polynomial: bit k is the coefficient of x^k. */
module Gf2 {
  import opened Ints
  import opened BitVectors

  // ----- reference definition: what it means to be the remainder -----

  /** The coefficient of x^i in the product q * p. */
  predicate MulCoef(q: Bits, p: Bits, i: int)
    decreases |q|
  {
    q != [] && ((q[0] && 0 <= i < |p| && p[i]) != MulCoef(q[1..], p, i - 1))
  }

  /** x^w + poly, where w is the width of `poly`. */
  function Divisor(poly: Bits): (p: Bits)
    ensures |p| == |poly| + 1
  {
    poly + [true]
  }

  /** data == q * (x^w + poly) xor r, coefficient by coefficient, with r of degree below w. */
  ghost predicate Divides(data: Bits, poly: Bits, q: Bits, r: Bits)
    requires |data| >= |poly|
  {
    && |q| == |data| - |poly|
    && |r| == |poly|
    && forall i: nat :: i < |data| ==> data[i] == (MulCoef(q, Divisor(poly), i) != (i < |poly| && r[i]))
  }

  // ----- long division -----

  /** `poly` added into the top |poly| coefficients of `d`. */
  function XorTop(d: Bits, poly: Bits): (r: Bits)
    requires |d| >= |poly|
    ensures |r| == |d|
  {
    XorBits(d, Zeros(|d| - |poly|) + poly)
  }

  /** One elimination step: drop the top coefficient, adding `poly` below it when it is set. */
  function Reduce(data: Bits, poly: Bits): (r: Bits)
    requires |data| > |poly|
    ensures |r| == |data| - 1
  {
    var n := |data| - 1;
    if data[n] then XorTop(data[..n], poly) else data[..n]
  }

  function PolyRem(data: Bits, poly: Bits): (r: Bits)
    requires |data| >= |poly|
    ensures |r| == |poly|
    decreases |data|
  {
    if |data| == |poly| then data else PolyRem(Reduce(data, poly), poly)
  }

  function PolyQuot(data: Bits, poly: Bits): (q: Bits)
    requires |data| >= |poly|
    ensures |q| == |data| - |poly|
    decreases |data|
  {
    if |data| == |poly| then [] else PolyQuot(Reduce(data, poly), poly) + [data[|data| - 1]]
  }

  /** Appending a leading quotient coefficient adds one shifted copy of the divisor. */
  lemma {:induction false} MulSnoc(q: Bits, t: bool, p: Bits, i: int)
    ensures MulCoef(q + [t], p, i) == (MulCoef(q, p, i) != (t && 0 <= i - |q| < |p| && p[i - |q|]))
    decreases |q|
  {
    if q == [] {
      assert (q + [t])[1..] == [];
    } else {
      assert (q + [t])[1..] == q[1..] + [t];
      MulSnoc(q[1..], t, p, i - 1);
    }
  }

  /** Products have no coefficients at or above |q| + |p| - 1. */
  lemma {:induction false} MulDegree(q: Bits, p: Bits, i: int)
    requires |p| > 0 && i >= |q| + |p| - 1
    ensures !MulCoef(q, p, i)
    decreases |q|
  {
    if q != [] { MulDegree(q[1..], p, i - 1); }
  }

  lemma ReduceAt(data: Bits, poly: Bits, i: nat)
    requires |data| > |poly| && i < |data| - 1
    ensures var k := |data| - 1 - |poly|;
            Reduce(data, poly)[i] == (data[i] != (data[|data| - 1] && i >= k && poly[i - k]))
  {
  }

  /** One more leading coefficient in the quotient, one more in the dividend. */
  lemma DivisionStep(data: Bits, poly: Bits, q: Bits, r: Bits)
    requires |data| > |poly| && |q| == |data| - 1 - |poly| && |r| == |poly|
    ensures Divides(data, poly, q + [data[|data| - 1]], r) <==> Divides(Reduce(data, poly), poly, q, r)
  {
    var P, d, t := Divisor(poly), Reduce(data, poly), data[|data| - 1];
    forall i: nat | i < |data| ensures
      && MulCoef(q + [t], P, i) == (MulCoef(q, P, i) != (t && 0 <= i - |q| < |P| && P[i - |q|]))
      && (i < |d| ==> d[i] == (data[i] != (t && i >= |q| && P[i - |q|])))
      && (i == |d| ==> !MulCoef(q, P, i))
    {
      MulSnoc(q, t, P, i);
      if i < |d| { ReduceAt(data, poly, i); } else { MulDegree(q, P, i); }
    }
  }

  /** Long division satisfies the division equation. */
  lemma {:induction false} DivisionExists(data: Bits, poly: Bits)
    requires |data| >= |poly|
    ensures Divides(data, poly, PolyQuot(data, poly), PolyRem(data, poly))
    decreases |data|
  {
    if |data| > |poly| {
      var d := Reduce(data, poly);
      DivisionExists(d, poly);
      DivisionStep(data, poly, PolyQuot(d, poly), PolyRem(d, poly));
    }
  }

  /** Quotient and remainder are determined by the division equation. */
  lemma {:induction false} DivisionUnique(data: Bits, poly: Bits, q: Bits, r: Bits)
    requires |data| >= |poly| && Divides(data, poly, q, r)
    ensures q == PolyQuot(data, poly) && r == PolyRem(data, poly)
    decreases |data|
  {
    if |data| == |poly| {
      assert forall i: nat :: i < |data| ==> data[i] == (MulCoef(q, Divisor(poly), i) != (i < |poly| && r[i]));
    } else {
      var n, P := |q| - 1, Divisor(poly);
      var q', t := q[..n], q[n];
      assert q == q' + [t];
      MulSnoc(q', t, P, |data| - 1);
      MulDegree(q', P, |data| - 1);
      assert data[|data| - 1] == t;
      DivisionStep(data, poly, q', r);
      DivisionUnique(Reduce(data, poly), poly, q', r);
    }
  }

  /** The result of long division is the one and only remainder. */
  lemma RemainderCharacterised(data: Bits, poly: Bits, r: Bits)
    requires |data| >= |poly|
    ensures r == PolyRem(data, poly) <==> exists q :: Divides(data, poly, q, r)
  {
    DivisionExists(data, poly);
    forall q | Divides(data, poly, q, r) ensures r == PolyRem(data, poly) { DivisionUnique(data, poly, q, r); }
  }

  // ----- algebra of remainders -----

  lemma {:induction false} RemLinear(a: Bits, b: Bits, poly: Bits)
    requires |a| == |b| >= |poly|
    ensures PolyRem(XorBits(a, b), poly) == XorBits(PolyRem(a, poly), PolyRem(b, poly))
    decreases |a|
  {
    if |a| > |poly| {
      assert Reduce(XorBits(a, b), poly) == XorBits(Reduce(a, poly), Reduce(b, poly));
      RemLinear(Reduce(a, poly), Reduce(b, poly), poly);
    }
  }

  lemma {:induction false} RemLeadingZeros(d: Bits, k: nat, poly: Bits)
    requires |d| >= |poly|
    ensures PolyRem(d + Zeros(k), poly) == PolyRem(d, poly)
    decreases k
  {
    if k == 0 {
      assert d + Zeros(0) == d;
    } else {
      assert Reduce(d + Zeros(k), poly) == d + Zeros(k - 1);
      RemLeadingZeros(d, k - 1, poly);
    }
  }

  /** The upper part of a polynomial may be reduced first: rem(lo + y x^k) == rem(lo + rem(y) x^k). */
  lemma {:induction false} RemUpperFirst(lo: Bits, y: Bits, poly: Bits)
    requires |y| >= |poly|
    ensures PolyRem(lo + y, poly) == PolyRem(lo + PolyRem(y, poly), poly)
    decreases |y|
  {
    if |y| > |poly| {
      ReduceUpper(lo, y, poly);
      RemUpperFirst(lo, Reduce(y, poly), poly);
    }
  }

  lemma ReduceUpper(lo: Bits, y: Bits, poly: Bits)
    requires |y| > |poly|
    ensures Reduce(lo + y, poly) == lo + Reduce(y, poly)
  {
  }

  /** `Poly32Mod2`: the in-place loop of the source, for any data longer than 32 bits. */
  method Poly32Mod2(data: Bits, poly: Bits) returns (result: Bits)
    requires |data| > 32 && |poly| == 32
    ensures |result| == 32
    ensures exists q :: Divides(data, poly, q, result)
    ensures result == PolyRem(data, poly)
  {
    var N := |data|;
    var data' := data;
    var zeros := Zeros(N - 32);
    var i := N - 1;
    assert data'[..i + 1] == data;
    while i >= 32
      invariant 31 <= i <= N - 1
      invariant |data'| == N
      invariant PolyRem(data'[..i + 1], poly) == PolyRem(data, poly)
    {
      ghost var before := data'[..i + 1];
      if data'[i] {
        data' := XorBits(data'[..i], zeros[..i - 32] + poly) + data'[i..];
      }
      assert data'[..i] == Reduce(before, poly);
      i := i - 1;
    }
    result := data'[..32];
    RemainderCharacterised(data, poly, result);
  }

  // ----- the CRC32 instructions -----

  function Reversed(b: Bits): (r: Bits)
    ensures |r| == |b| && forall i :: 0 <= i < |b| ==> r[i] == b[|b| - 1 - i]
  {
    seq(|b|, i requires 0 <= i < |b| => b[|b| - 1 - i])
  }

  /** `BitReverse`: the loop of the source. */
  method BitReverse(data: Bits) returns (result: Bits)
    ensures result == Reversed(data)
  {
    var N := |data|;
    result := Zeros(N);
    for i := 0 to N
      invariant |result| == N
      invariant forall j :: 0 <= j < i ==> result[N - 1 - j] == data[j]
    {
      result := result[N - i - 1 := data[i]];
    }
    forall k | 0 <= k < N ensures result[k] == data[N - 1 - k] {
      assert result[N - 1 - (N - 1 - k)] == data[N - 1 - k];
    }
  }

  function CrcPoly(crc32c: bool): (p: Bits)
    ensures |p| == 32
  {
    if crc32c then ToBits(32, 0x1EDC6F41) else ToBits(32, 0x04C11DB7)
  }

  /** The exponents below 32 of the CRC-32 and CRC-32C generator polynomials. */
  function CrcTerms(crc32c: bool): set<nat> {
    if crc32c then {0, 6, 8, 9, 10, 11, 13, 14, 18, 19, 20, 22, 23, 25, 26, 27, 28}
    else {0, 1, 2, 4, 5, 7, 8, 10, 11, 12, 16, 22, 23, 26}
  }

  /** The polynomial of degree below 32 with these terms. */
  function Polynomial(terms: set<nat>): (p: Bits)
    ensures |p| == 32
  {
    seq(32, k requires 0 <= k < 32 => k in terms)
  }

  lemma CrcPolyIs(crc32c: bool)
    ensures CrcPoly(crc32c) == Polynomial(CrcTerms(crc32c))
  {
    forall k: nat | k < 32 ensures CrcPoly(crc32c)[k] == Polynomial(CrcTerms(crc32c))[k] { CrcPolyTerms(crc32c, k); }
  }

  /** The constants of the source stand for these polynomials. */
  lemma CrcPolyTerms(crc32c: bool, k: nat)
    requires k < 32
    ensures CrcPoly(crc32c)[k] <==> k in CrcTerms(crc32c)
  {
    if crc32c { CastagnoliTerms(k); } else { EthernetTerms(k); }
  }

  /** The bits of a number, one hexadecimal digit at a time. */
  lemma NibbleBits(x: int, i: nat)
    ensures Bit(x, i) == if i == 0 then x % 2 == 1 else if i == 1 then x / 2 % 2 == 1
                         else if i == 2 then x / 4 % 2 == 1 else if i == 3 then x / 8 % 2 == 1 else Bit(x / 16, i - 4)
  {
    if i >= 2 {
      assert Bit(x, i) == Bit(x / 2, i - 1) == Bit(x / 4, i - 2);
      if i >= 4 { assert Bit(x / 4, i - 2) == Bit(x / 8, i - 3) == Bit(x / 16, i - 4); }
    }
  }

  lemma EthernetTerms(k: nat)
    requires k < 32
    ensures Bit(0x04C11DB7, k) <==> k in CrcTerms(false)
  {
    NibbleBits(0x4C11DB7, k);
    if k >= 4 { NibbleBits(0x4C11DB, k - 4); }
    if k >= 8 { NibbleBits(0x4C11D, k - 8); }
    if k >= 12 { NibbleBits(0x4C11, k - 12); }
    if k >= 16 { EthernetHigh(k - 16); }
  }

  lemma EthernetHigh(k: nat)
    requires k < 16
    ensures Bit(0x4C1, k) <==> k + 16 in CrcTerms(false)
  {
    NibbleBits(0x4C1, k);
    if k >= 4 { NibbleBits(0x4C, k - 4); }
    if k >= 8 { NibbleBits(0x4, k - 8); }
    if k >= 12 { NibbleBits(0x0, k - 12); }
  }

  lemma CastagnoliTerms(k: nat)
    requires k < 32
    ensures Bit(0x1EDC6F41, k) <==> k in CrcTerms(true)
  {
    NibbleBits(0x1EDC6F41, k);
    if k >= 4 { NibbleBits(0x1EDC6F4, k - 4); }
    if k >= 8 { NibbleBits(0x1EDC6F, k - 8); }
    if k >= 12 { NibbleBits(0x1EDC6, k - 12); }
    if k >= 16 { CastagnoliHigh(k - 16); }
  }

  lemma CastagnoliHigh(k: nat)
    requires k < 16
    ensures Bit(0x1EDC, k) <==> k + 16 in CrcTerms(true)
  {
    NibbleBits(0x1EDC, k);
    if k >= 4 { NibbleBits(0x1ED, k - 4); }
    if k >= 8 { NibbleBits(0x1E, k - 8); }
    if k >= 12 { NibbleBits(0x1, k - 12); }
  }

  /** a x^|v| + v x^|a|: accumulator and value, both already bit-reversed. */
  function Dividend(a: Bits, v: Bits): (d: Bits)
    ensures |d| == |a| + |v|
  {
    XorBits(Concat(a, Zeros(|v|)), Concat(v, Zeros(|a|)))
  }

  /** One CRC step: the bit-reversed remainder of (reversed acc) x^d xor (reversed val) x^32. */
  function CrcStep(acc: Bits, val: Bits, poly: Bits): (r: Bits)
    requires |acc| == |poly|
    ensures |r| == |poly|
  {
    Reversed(PolyRem(Dividend(Reversed(acc), Reversed(val)), poly))
  }

  /** Splitting the input: a step over `lo` followed by a step over `hi` is a step over both,
      for any accumulator, any polynomial and any lengths. */
  lemma CrcComposes(acc: Bits, lo: Bits, hi: Bits, poly: Bits)
    requires |acc| == |poly|
    ensures CrcStep(acc, Concat(hi, lo), poly) == CrcStep(CrcStep(acc, lo, poly), hi, poly)
  {
    var a, l, h := Reversed(acc), Reversed(lo), Reversed(hi);
    ReversedConcat(hi, lo);
    RemainderComposes(a, l, h, poly);
    ReversedTwice(PolyRem(Dividend(a, l), poly));
  }

  lemma RemainderComposes(a: Bits, l: Bits, h: Bits, poly: Bits)
    requires |a| == |poly|
    ensures PolyRem(Dividend(a, h + l), poly) == PolyRem(Dividend(PolyRem(Dividend(a, l), poly), h), poly)
  {
    var first := Dividend(a, l);
    var r := PolyRem(first, poly);
    DividendSplits(a, l, h);
    RemLinear(Zeros(|h|) + first, (Zeros(|a|) + h) + Zeros(|l|), poly);
    RemUpperFirst(Zeros(|h|), first, poly);
    RemLeadingZeros(Zeros(|a|) + h, |l|, poly);
    RemLinear(Zeros(|h|) + r, Zeros(|a|) + h, poly);
  }

  /** The dividend of the joint step is that of the first step, moved up past `h`, plus `h` itself. */
  lemma DividendSplits(a: Bits, l: Bits, h: Bits)
    ensures Dividend(a, h + l) == XorBits(Zeros(|h|) + Dividend(a, l), (Zeros(|a|) + h) + Zeros(|l|))
  {
  }

  lemma ReversedConcat(hi: Bits, lo: Bits)
    ensures Reversed(Concat(hi, lo)) == Reversed(hi) + Reversed(lo)
  {
  }

  lemma ReversedTwice(b: Bits)
    ensures Reversed(Reversed(b)) == b
  {
  }

  function CrcFold(acc: Bits, chunks: seq<Bits>, poly: Bits): (r: Bits)
    requires |acc| == |poly|
    ensures |r| == |poly|
    decreases |chunks|
  {
    if chunks == [] then acc else CrcFold(CrcStep(acc, chunks[0], poly), chunks[1..], poly)
  }

  /** The little-endian value made of `chunks`, first chunk lowest. */
  function Joined(chunks: seq<Bits>): Bits {
    if chunks == [] then [] else Concat(Joined(chunks[1..]), chunks[0])
  }

  lemma CrcEmpty(acc: Bits, poly: Bits)
    requires |acc| == |poly|
    ensures CrcStep(acc, [], poly) == acc
  {
    assert Dividend(Reversed(acc), Reversed([])) == Reversed(acc);
    ReversedTwice(acc);
  }

  /** CRC32H, CRC32W and CRC32X are folds of CRC32B over their bytes, lowest byte first;
      likewise for any number of chunks of any sizes. */
  lemma {:induction false} CrcFoldsChunks(acc: Bits, chunks: seq<Bits>, poly: Bits)
    requires |acc| == |poly|
    ensures CrcStep(acc, Joined(chunks), poly) == CrcFold(acc, chunks, poly)
    decreases |chunks|
  {
    if chunks == [] {
      CrcEmpty(acc, poly);
    } else {
      CrcComposes(acc, chunks[0], Joined(chunks[1..]), poly);
      CrcFoldsChunks(CrcStep(acc, chunks[0], poly), chunks[1..], poly);
    }
  }

  /** A CRC step is linear over GF(2) in the pair (accumulator, value). */
  lemma CrcLinear(acc1: Bits, acc2: Bits, val1: Bits, val2: Bits, poly: Bits)
    requires |acc1| == |acc2| == |poly| && |val1| == |val2|
    ensures CrcStep(XorBits(acc1, acc2), XorBits(val1, val2), poly)
         == XorBits(CrcStep(acc1, val1, poly), CrcStep(acc2, val2, poly))
  {
    var a1, a2, v1, v2 := Reversed(acc1), Reversed(acc2), Reversed(val1), Reversed(val2);
    ReversedXor(acc1, acc2);
    ReversedXor(val1, val2);
    DividendLinear(a1, a2, v1, v2);
    RemLinear(Dividend(a1, v1), Dividend(a2, v2), poly);
    ReversedXor(PolyRem(Dividend(a1, v1), poly), PolyRem(Dividend(a2, v2), poly));
  }

  lemma DividendLinear(a1: Bits, a2: Bits, v1: Bits, v2: Bits)
    requires |a1| == |a2| && |v1| == |v2|
    ensures Dividend(XorBits(a1, a2), XorBits(v1, v2)) == XorBits(Dividend(a1, v1), Dividend(a2, v2))
  {
  }

  lemma ReversedXor(a: Bits, b: Bits)
    requires |a| == |b|
    ensures Reversed(XorBits(a, b)) == XorBits(Reversed(a), Reversed(b))
  {
  }

  // ----- what the steps tell apart -----

  lemma XorSelf(a: Bits, b: Bits)
    requires |a| == |b|
    ensures XorBits(a, b) == Zeros(|a|) <==> a == b
  {
    if XorBits(a, b) == Zeros(|a|) {
      forall i | 0 <= i < |a| ensures a[i] == b[i] { assert XorBits(a, b)[i] == Zeros(|a|)[i]; }
    }
  }

  /** With the empty accumulator, a value whose only one is its top bit leaves the polynomial, bit-reversed. */
  lemma CrcTopBit(w: nat, poly: Bits)
    requires w > 0
    ensures CrcStep(Zeros(|poly|), Zeros(w - 1) + [true], poly) == Reversed(poly)
  {
    var n := |poly|;
    var data := Zeros(n) + [true];
    assert Reversed(Zeros(n)) == Zeros(n) && Reversed(Zeros(w - 1) + [true]) == [true] + Zeros(w - 1);
    assert Dividend(Zeros(n), [true] + Zeros(w - 1)) == data + Zeros(w - 1);
    RemLeadingZeros(data, w - 1, poly);
    assert Reduce(data, poly) == poly;
  }

  /** Moved up any number of places, a nonzero remainder stays nonzero: x does not divide the divisor. */
  lemma {:induction false} MovedNonzero(k: nat, r: Bits, poly: Bits)
    requires |r| == |poly| > 0 && poly[0] && PolyRem(Zeros(k) + r, poly) == Zeros(|poly|)
    ensures r == Zeros(|poly|)
    decreases k
  {
    if k == 0 {
      assert Zeros(0) + r == r;
    } else {
      var y := [false] + r;
      assert Zeros(k) + r == Zeros(k - 1) + y;
      RemUpperFirst(Zeros(k - 1), y, poly);
      MovedNonzero(k - 1, PolyRem(y, poly), poly);
      MovedOnce(r, poly);
    }
  }

  lemma MovedOnce(r: Bits, poly: Bits)
    requires |r| == |poly| > 0 && poly[0] && PolyRem([false] + r, poly) == Zeros(|poly|)
    ensures r == Zeros(|poly|)
  {
    var n, y := |poly|, [false] + r;
    var d := Reduce(y, poly);
    assert d == Zeros(n);
    ReduceAt(y, poly, 0);
    forall i: nat | i < n ensures !r[i] {
      if i < n - 1 { ReduceAt(y, poly, i + 1); }
    }
  }

  /** No two accumulators are confused by a step over the same value. */
  lemma CrcKeepsAccumulators(acc1: Bits, acc2: Bits, val: Bits, poly: Bits)
    requires |acc1| == |acc2| == |poly| > 0 && poly[0]
    ensures CrcStep(acc1, val, poly) == CrcStep(acc2, val, poly) <==> acc1 == acc2
  {
    if CrcStep(acc1, val, poly) == CrcStep(acc2, val, poly) {
      var a := XorBits(acc1, acc2);
      CrcLinear(acc1, acc2, val, val, poly);
      XorSelf(val, val);
      XorSelf(CrcStep(acc1, val, poly), CrcStep(acc2, val, poly));
      ZeroFromZeros(a, |val|, poly);
      XorSelf(acc1, acc2);
    }
  }

  lemma ZeroFromZeros(a: Bits, k: nat, poly: Bits)
    requires |a| == |poly| > 0 && poly[0] && CrcStep(a, Zeros(k), poly) == Zeros(|poly|)
    ensures a == Zeros(|poly|)
  {
    ZerosDividend(a, k, poly);
    ReversedZeros(|poly|);
    ReversedTwice(PolyRem(Zeros(k) + Reversed(a), poly));
    MovedNonzero(k, Reversed(a), poly);
    ReversedTwice(a);
  }

  lemma ZerosDividend(a: Bits, k: nat, poly: Bits)
    requires |a| == |poly|
    ensures CrcStep(a, Zeros(k), poly) == Reversed(PolyRem(Zeros(k) + Reversed(a), poly))
  {
    ReversedZeros(k);
    assert Dividend(Reversed(a), Zeros(k)) == Zeros(k) + Reversed(a);
  }

  /** Nor are two values no longer than the polynomial, from the same accumulator. */
  lemma CrcKeepsValues(acc: Bits, val1: Bits, val2: Bits, poly: Bits)
    requires |acc| == |poly| > 0 && poly[0] && |val1| == |val2| <= |poly|
    ensures CrcStep(acc, val1, poly) == CrcStep(acc, val2, poly) <==> val1 == val2
  {
    if CrcStep(acc, val1, poly) == CrcStep(acc, val2, poly) {
      CrcLinear(acc, acc, val1, val2, poly);
      XorSelf(acc, acc);
      XorSelf(CrcStep(acc, val1, poly), CrcStep(acc, val2, poly));
      ZeroFromValue(XorBits(val1, val2), poly);
      XorSelf(val1, val2);
    }
  }

  lemma ZeroFromValue(v: Bits, poly: Bits)
    requires |v| <= |poly| && |poly| > 0 && poly[0] && CrcStep(Zeros(|poly|), v, poly) == Zeros(|poly|)
    ensures v == Zeros(|v|)
  {
    var n, r := |poly|, Reversed(v);
    ValueDividend(v, poly);
    ReversedZeros(n);
    ReversedTwice(PolyRem(Zeros(n) + r, poly));
    ZeroRemainder(r, poly);
    ReversedTwice(v);
    ReversedZeros(|v|);
  }

  lemma ValueDividend(v: Bits, poly: Bits)
    ensures CrcStep(Zeros(|poly|), v, poly) == Reversed(PolyRem(Zeros(|poly|) + Reversed(v), poly))
  {
    ReversedZeros(|poly|);
    assert Dividend(Zeros(|poly|), Reversed(v)) == Zeros(|poly|) + Reversed(v);
  }

  lemma ZeroRemainder(r: Bits, poly: Bits)
    requires |r| <= |poly| && |poly| > 0 && poly[0] && PolyRem(Zeros(|poly|) + r, poly) == Zeros(|poly|)
    ensures r == Zeros(|r|)
  {
    PaddedRemainder(r, poly);
    MovedNonzero(|poly|, r + Zeros(|poly| - |r|), poly);
    PrefixZero(r, |poly| - |r|);
  }

  lemma ReversedZeros(n: nat)
    ensures Reversed(Zeros(n)) == Zeros(n)
  {
  }

  lemma PaddedRemainder(r: Bits, poly: Bits)
    requires |r| <= |poly|
    ensures PolyRem(Zeros(|poly|) + (r + Zeros(|poly| - |r|)), poly) == PolyRem(Zeros(|poly|) + r, poly)
  {
    RemLeadingZeros(Zeros(|poly|) + r, |poly| - |r|, poly);
    AppendAssociative(Zeros(|poly|), r, Zeros(|poly| - |r|));
  }

  lemma AppendAssociative(a: Bits, b: Bits, c: Bits)
    ensures (a + b) + c == a + (b + c)
  {
  }

  lemma PrefixZero(r: Bits, k: nat)
    requires r + Zeros(k) == Zeros(|r| + k)
    ensures r == Zeros(|r|)
  {
    assert r == (r + Zeros(k))[..|r|];
  }
}
