/** Bit and byte reversal in the Sail model: the swap network of the Reverse clause
    (aarch64_small/armV8.sail) and the recursive BigEndianReverse
    (aarch64_small/armV8_common_lib.sail). */
module SwapNetwork {
  import opened Ints
  import opened BitVectors
  import opened Gf2

  /** Exclusive or with V maps indices below n to indices below n. */
  ghost predicate Covers(n: nat, V: nat) {
    forall i: nat :: i < n ==> 0 <= Xor(i, V) < n
  }

  lemma PowerCovers(m: nat, V: nat)
    requires V < Pow2(m)
    ensures Covers(Pow2(m), V)
  {
    forall i: nat | i < Pow2(m) ensures 0 <= Xor(i, V) < Pow2(m) { BitwiseRange(XorOp, i, V, m); }
  }

  /** The bits of x, bit i taken from position i xor V. */
  ghost function XorIndexed(x: Bits, V: nat): (r: Bits)
    requires Covers(|x|, V)
    ensures |r| == |x| && forall i: nat :: i < |x| ==> r[i] == x[Xor(i, V)]
  {
    seq(|x|, i requires 0 <= i < |x| => x[Xor(i, V)])
  }

  /** Exclusive or with a power of two moves between the two halves of an aligned block. */
  lemma XorSwapsHalves(c: nat, j: nat, k: nat)
    requires j < Pow2(k)
    ensures Xor(c * (2 * Pow2(k)) + j, Pow2(k)) == c * (2 * Pow2(k)) + Pow2(k) + j
    ensures Xor(c * (2 * Pow2(k)) + Pow2(k) + j, Pow2(k)) == c * (2 * Pow2(k)) + j
  {
    var p := Pow2(k);
    assert c * (2 * p) == (2 * c) * p && (2 * c) * p + p == (2 * c + 1) * p;
    XorFields(2 * c, j, 1, 0, k);
    XorFields(2 * c + 1, j, 1, 0, k);
    XorZero(j);
    XorOne(c);
  }

  lemma XorOne(c: nat)
    ensures Xor(2 * c, 1) == 2 * c + 1 && Xor(2 * c + 1, 1) == 2 * c
  {
    XorStep(2 * c, 1);
    XorStep(2 * c + 1, 1);
    XorZero(c);
  }

  /** A lower control word followed by bit k is the control word with bit k added. */
  lemma XorAddsBit(i: nat, W: nat, k: nat)
    requires W < Pow2(k)
    ensures Xor(i, Pow2(k)) >= 0
    ensures Xor(Xor(i, Pow2(k)), W) == Xor(i, W + Pow2(k))
  {
    XorNat(i, Pow2(k));
    XorAssoc(i, Pow2(k), W);
    XorFields(1, 0, 0, W, k);
    XorZero(1);
    XorZero(W);
  }

  /** Swapping one pair of blocks continues the swapped part. */
  lemma PairSwapped(tmp: Bits, done: Bits, result: Bits, base: nat, v: nat, c: nat, k: nat)
    requires v == Pow2(k) && base == c * (2 * v) && base + 2 * v <= |tmp| == |done|
    requires result == done[..base] + tmp[base + v..base + 2 * v] + tmp[base..base + v] + done[base + 2 * v..]
    ensures |result| == |tmp|
    ensures forall i: nat :: i < base || base + 2 * v <= i < |tmp| ==> result[i] == done[i]
    ensures forall i: nat :: base <= i < base + 2 * v ==> 0 <= Xor(i, v) < base + 2 * v && result[i] == tmp[Xor(i, v)]
  {
    forall i: nat | base <= i < base + 2 * v ensures 0 <= Xor(i, v) < base + 2 * v && result[i] == tmp[Xor(i, v)] {
      if i < base + v { XorSwapsHalves(c, i - base, k); } else { XorSwapsHalves(c, i - base - v, k); }
    }
  }

  /** One stage of the network: swap adjacent blocks of 2^k bits throughout the vector. */
  method SwapStage(tmp: Bits, k: nat, count: nat) returns (result: Bits)
    requires |tmp| == count * (2 * Pow2(k))
    ensures |result| == |tmp|
    ensures forall i: nat :: i < |tmp| ==> 0 <= Xor(i, Pow2(k)) < |tmp| && result[i] == tmp[Xor(i, Pow2(k))]
  {
    var vsize := Pow2(k);
    result := tmp;
    var base := 0;
    ghost var c := 0;
    while base < |tmp|
      invariant 0 <= c <= count && base == c * (2 * vsize)
      invariant base <= |tmp| == |result|
      invariant forall i: nat :: i < base ==> 0 <= Xor(i, vsize) < base && result[i] == tmp[Xor(i, vsize)]
      invariant forall i: nat :: base <= i < |tmp| ==> result[i] == tmp[i]
      decreases |tmp| - base
    {
      BlockFits(c, count, vsize);
      ghost var done := result;
      result := result[..base] + tmp[base + vsize..base + 2 * vsize] + tmp[base..base + vsize]
              + result[base + 2 * vsize..];
      PairSwapped(tmp, done, result, base, vsize, c, k);
      base := base + 2 * vsize;
      c := c + 1;
    }
  }

  lemma BlockFits(c: nat, count: nat, v: nat)
    requires v > 0 && c * (2 * v) < count * (2 * v)
    ensures c < count && (c + 1) * (2 * v) == c * (2 * v) + 2 * v <= count * (2 * v)
  {
    if c >= count { MulMono(count, c, 2 * v); }
    MulMono(c + 1, count, 2 * v);
  }

  lemma ModCovers(m: nat, V: nat, k: nat)
    requires V < Pow2(m)
    ensures Covers(Pow2(m), V % Pow2(k))
  {
    ModBelow(V, Pow2(k));
    PowerCovers(m, V % Pow2(k));
  }

  /** A set control bit k lies below the width, so whole block pairs fill the vector. */
  lemma StageFits(m: nat, V: nat, k: nat)
    requires V < Pow2(m) && Bit(V, k)
    ensures k < m && Pow2(m) / (2 * Pow2(k)) == Pow2(m - 1 - k) && Pow2(m) == Pow2(m - 1 - k) * (2 * Pow2(k))
  {
    BitLowerBound(V, k);
    if k >= m { Pow2Mono(m, k); }
    Pow2Add(m - 1 - k, k + 1);
    DivModUnique(Pow2(m), 2 * Pow2(k), Pow2(m - 1 - k), 0);
  }

  /** The swap network of `Reverse`: for any power-of-two width covering the control word V,
      result bit i is operand bit i xor V. */
  method Network(x: Bits, V: nat, ghost m: nat) returns (result: Bits)
    requires |x| == Pow2(m) && V < |x| && V < 64
    ensures Covers(|x|, V) && result == XorIndexed(x, V)
  {
    result := x;
    ModCovers(m, V, 0);
    forall i: nat | i < |x| ensures Xor(i, 0) == i { XorZero(i); }
    for vbit := 0 to 6
      invariant |result| == |x| && Covers(|x|, V % Pow2(vbit))
      invariant result == XorIndexed(x, V % Pow2(vbit))
    {
      ModCovers(m, V, vbit + 1);
      ModPow2Step(V, vbit);
      if Bit(V, vbit) {
        StageFits(m, V, vbit);
        var tmp := result;
        result := SwapStage(tmp, vbit, |tmp| / (2 * Pow2(vbit)));
        StageExtends(x, tmp, result, V, vbit);
      }
    }
    assert Pow2(6) == 64;
    SmallMod(V, 64);
  }

  lemma StageExtends(x: Bits, tmp: Bits, result: Bits, V: nat, k: nat)
    requires Covers(|x|, V % Pow2(k)) && tmp == XorIndexed(x, V % Pow2(k)) && Bit(V, k)
    requires Covers(|x|, V % Pow2(k + 1)) && |result| == |x|
    requires forall i: nat :: i < |x| ==> 0 <= Xor(i, Pow2(k)) < |x| && result[i] == tmp[Xor(i, Pow2(k))]
    ensures result == XorIndexed(x, V % Pow2(k + 1))
  {
    ModPow2Step(V, k);
    forall i: nat | i < |x| ensures result[i] == x[Xor(i, V % Pow2(k + 1))] { XorAddsBit(i, V % Pow2(k), k); }
  }

  // ----- what the control words mean -----

  /** The position bit i comes from when an n-bit vector has its bytes reversed. */
  function ByteIndex(n: nat, i: nat): (j: nat)
    requires n % 8 == 0 && i < n
    ensures j < n
  {
    n - 8 - 8 * (i / 8) + i % 8
  }

  /** Bytes reversed, bits kept in order inside each byte. */
  function ByteReversed(b: Bits): (r: Bits)
    requires |b| % 8 == 0
    ensures |r| == |b| && forall i: nat :: i < |b| ==> r[i] == b[ByteIndex(|b|, i)]
  {
    seq(|b|, i requires 0 <= i < |b| => b[ByteIndex(|b|, i)])
  }

  /** Reversing the bytes inside each container of c bits. */
  function ContainersReversed(b: Bits, c: nat): (r: Bits)
    requires c > 0 && c % 8 == 0 && |b| % c == 0
    ensures |r| == |b|
    decreases |b|
  {
    if b == [] then [] else (TailAligned(b, c); ByteReversed(b[..c]) + ContainersReversed(b[c..], c))
  }

  lemma TailAligned(b: Bits, c: nat)
    requires c > 0 && |b| % c == 0 && b != []
    ensures |b| >= c && (|b| - c) % c == 0
  {
    if |b| < c { SmallMod(|b|, c); }
    ModLess(|b|, c);
  }

  lemma {:induction false} ContainersReversedAt(b: Bits, c: nat, i: nat)
    requires c > 0 && c % 8 == 0 && |b| % c == 0 && i < |b|
    ensures var j := i - i % c + ByteIndex(c, i % c);
            0 <= j < |b| && ContainersReversed(b, c)[i] == b[j]
    decreases |b|
  {
    TailAligned(b, c);
    if i < c {
      SmallMod(i, c);
    } else {
      ModLess(i, c);
      ContainersReversedAt(b[c..], c, i - c);
    }
  }

  /** i xor (2^c - 8) reverses the byte number inside the container of 2^c bits around i. */
  lemma XorReversesBytes(i: nat, c: nat)
    requires c >= 3
    ensures Pow2(c) % 8 == 0 && Pow2(c) >= 8
    ensures Xor(i, Pow2(c) - 8) == i - i % Pow2(c) + ByteIndex(Pow2(c), i % Pow2(c))
  {
    ContainersFit(c, c);
    PowEighth(c);
    var w := Pow2(c);
    ModRange(i, c);
    XorLowOnly(i, w - 8, c);
    XorReversesOneContainer(i % w, c);
  }

  lemma PowEighth(c: nat)
    requires c >= 3
    ensures Pow2(c) == 8 * Pow2(c - 3)
  {
    assert Pow2(c - 1) == 2 * Pow2(c - 2) && Pow2(c - 2) == 2 * Pow2(c - 3);
  }

  lemma XorReversesOneContainer(l: nat, c: nat)
    requires c >= 3 && l < Pow2(c) && Pow2(c) == 8 * Pow2(c - 3)
    ensures Xor(l, Pow2(c) - 8) == ByteIndex(Pow2(c), l)
  {
    XorSplit8(l, Pow2(c) - 8);
    XorZero(l % 8);
    XorOnes(l / 8, c - 3);
  }

  /** REV16, REV32 and REV64 reverse the bytes inside each container of w == 2^c bits. */
  lemma NetworkReversesContainers(x: Bits, w: nat, c: nat, m: nat)
    requires 3 <= c <= m && |x| == Pow2(m) && w == Pow2(c)
    ensures w % 8 == 0 && w >= 8 && |x| % w == 0 && Covers(|x|, w - 8)
    ensures XorIndexed(x, w - 8) == ContainersReversed(x, w)
  {
    ContainersFit(c, m);
    PowerCovers(m, w - 8);
    forall i: nat | i < |x| ensures x[Xor(i, w - 8)] == ContainersReversed(x, w)[i] {
      NetworkReversesContainersAt(x, w, c, i);
    }
  }

  lemma NetworkReversesContainersAt(x: Bits, w: nat, c: nat, i: nat)
    requires c >= 3 && w == Pow2(c) && w >= 8 && w % 8 == 0 && |x| % w == 0
    requires i < |x| && Covers(|x|, w - 8)
    ensures x[Xor(i, w - 8)] == ContainersReversed(x, w)[i]
  {
    XorReversesBytes(i, c);
    ContainersReversedAt(x, w, i);
  }

  lemma ContainersFit(c: nat, m: nat)
    requires 3 <= c <= m
    ensures Pow2(c) % 8 == 0 && 8 <= Pow2(c) <= Pow2(m) && Pow2(m) % Pow2(c) == 0
  {
    assert Pow2(3) == 8;
    Pow2Add(3, c - 3);
    Pow2Mono(c, m);
    Pow2Add(m - c, c);
    DivModUnique(Pow2(m), Pow2(c), Pow2(m - c), 0);
  }

  /** With a single container the network is whole-vector byte reversal. */
  lemma NetworkReversesBytes(x: Bits, m: nat)
    requires m >= 3 && |x| == Pow2(m)
    ensures |x| % 8 == 0 && |x| >= 8 && Covers(|x|, |x| - 8) && XorIndexed(x, |x| - 8) == ByteReversed(x)
  {
    NetworkReversesContainers(x, |x|, m, m);
    assert x[..|x|] == x && x[|x|..] == [];
    assert ContainersReversed(x, |x|) == ByteReversed(x) + [];
  }

  /** RBIT: with all control bits set the network is full bit reversal. */
  lemma NetworkReversesBits(x: Bits, m: nat)
    requires |x| == Pow2(m)
    ensures Covers(|x|, |x| - 1) && XorIndexed(x, |x| - 1) == Reversed(x)
  {
    PowerCovers(m, |x| - 1);
    forall i: nat | i < |x| ensures XorIndexed(x, |x| - 1)[i] == Reversed(x)[i] { XorOnes(i, m); }
  }

  /** Every control word is undone by a second pass. */
  lemma NetworkInvolution(x: Bits, V: nat)
    requires Covers(|x|, V)
    ensures XorIndexed(XorIndexed(x, V), V) == x
  {
    forall i: nat | i < |x| ensures XorIndexed(XorIndexed(x, V), V)[i] == x[i] { XorTwice(i, V); }
  }

  /** Applying V1 then V2 is applying V1 xor V2: RBIT after REV reverses the bits inside each byte, and so on. */
  lemma NetworkComposes(x: Bits, V1: nat, V2: nat)
    requires Covers(|x|, V1) && Covers(|x|, V2)
    ensures Xor(V1, V2) >= 0 && Covers(|x|, Xor(V1, V2))
    ensures XorIndexed(XorIndexed(x, V1), V2) == XorIndexed(x, Xor(V1, V2))
  {
    XorNat(V1, V2);
    forall i: nat | i < |x| ensures Xor(i, Xor(V1, V2)) == Xor(Xor(i, V2), V1) {
      XorCommutes(V1, V2);
      XorAssoc(i, V2, V1);
    }
  }

  lemma ByteIndexTwice(n: nat, i: nat)
    requires n % 8 == 0 && i < n
    ensures ByteIndex(n, ByteIndex(n, i)) == i
  {
    var q, r := i / 8, i % 8;
    var j := 8 * (n / 8 - 1 - q) + r;
    assert ByteIndex(n, i) == j;
    assert j / 8 == n / 8 - 1 - q && j % 8 == r;
  }

  lemma ByteReversedInvolution(b: Bits)
    requires |b| % 8 == 0
    ensures ByteReversed(ByteReversed(b)) == b
  {
    forall i: nat | i < |b| ensures ByteReversed(ByteReversed(b))[i] == b[i] { ByteIndexTwice(|b|, i); }
  }

  // ----- BigEndianReverse -----

  predicate ByteWidth(n: nat) { n in {8, 16, 32, 64, 128} }

  function BigEndianReverse(value: Bits): (r: Bits)
    requires ByteWidth(|value|)
    ensures |r| == |value|
    decreases |value|
  {
    var half := |value| / 2;
    if |value| == 8 then value
    else Concat(BigEndianReverse(value[..half]), BigEndianReverse(value[half..]))
  }

  /** The recursive halving of the source is byte reversal. */
  lemma {:induction false} BigEndianReverseBytes(value: Bits)
    requires ByteWidth(|value|)
    ensures BigEndianReverse(value) == ByteReversed(value)
    decreases |value|
  {
    var n, half := |value|, |value| / 2;
    if n != 8 {
      BigEndianReverseBytes(value[..half]);
      BigEndianReverseBytes(value[half..]);
      ByteReversedSplit(value, half);
    }
  }

  lemma ByteIndexSplit(n: nat, k: nat, i: nat)
    requires n % 8 == 0 && k % 8 == 0 && k <= n && i < n
    ensures i < n - k ==> ByteIndex(n, i) == k + ByteIndex(n - k, i)
    ensures i >= n - k ==> ByteIndex(n, i) == ByteIndex(k, i - (n - k))
  {
  }

  lemma ByteReversedSplit(v: Bits, k: nat)
    requires |v| % 8 == 0 && k % 8 == 0 && k <= |v|
    ensures ByteReversed(v) == ByteReversed(v[k..]) + ByteReversed(v[..k])
  {
    var n := |v|;
    var lo, hi := ByteReversed(v[k..]), ByteReversed(v[..k]);
    forall i: nat | i < n ensures ByteReversed(v)[i] == (lo + hi)[i] { ByteIndexSplit(n, k, i); }
  }
}
