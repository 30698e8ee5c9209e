/** Byte reversal of values: its specification, the byte-gathering of `reverse_endianness` (lib/sail.c),
    the ELF reader's `rev16`/`rev32`/`rev64` (lib/elf.c), and their agreement with the reversals of the
    instruction model. */
module ByteOrder {
  import opened Ints
  import opened BitVectors
  import opened SailBits
  import opened SwapNetwork

  /** The specification: reverse the bytes of the n low bits of x. */
  function ReversedBytes(n: nat, x: int): (r: int)
    requires n % 8 == 0
  {
    UInt(ByteReversed(ToBits(n, x)))
  }

  /** Bit by bit: r holds the bytes of the n low bits of x in reverse order. */
  ghost predicate IsReversal(n: nat, x: int, r: int)
    requires n % 8 == 0
  {
    && 0 <= r < Pow2(n)
    && forall i: nat :: i < n ==> Bit(r, i) == Bit(x, ByteIndex(n, i))
  }

  lemma ReversedBytesBits(n: nat, x: int)
    requires n % 8 == 0
    ensures IsReversal(n, x, ReversedBytes(n, x))
  {
    var b := ByteReversed(ToBits(n, x));
    UIntRange(b);
    forall i: nat | i < n ensures Bit(UInt(b), i) == Bit(x, ByteIndex(n, i)) {
      UIntBit(b, i);
      ToBitsAt(n, x, ByteIndex(n, i));
    }
  }

  /** A value is the reversal as soon as its bits are. */
  lemma ReversedBytesUnique(n: nat, x: int, r: int)
    requires n % 8 == 0
    ensures r == ReversedBytes(n, x) <==> IsReversal(n, x, r)
  {
    ReversedBytesBits(n, x);
    if IsReversal(n, x, r) { BitsEqual(r, ReversedBytes(n, x), n); }
  }

  /** Reversing twice gives back the value. */
  lemma ReversedBytesTwice(n: nat, x: int)
    requires n % 8 == 0 && 0 <= x < Pow2(n)
    ensures ReversedBytes(n, ReversedBytes(n, x)) == x
  {
    var y := ReversedBytes(n, x);
    ReversedBytesBits(n, x);
    forall i: nat | i < n ensures Bit(x, i) == Bit(y, ByteIndex(n, i)) { ByteIndexTwice(n, i); }
    ReversedBytesUnique(n, y, x);
  }

  // ----- the generic loop -----

  /** The accumulator of the loop after k bytes. */
  function Gathered(x: int, k: nat): int {
    if k == 0 then 0 else Gathered(x, k - 1) * 256 + x / Pow2(8 * (k - 1)) % 256
  }

  lemma {:induction false} GatheredBits(x: int, k: nat)
    ensures IsReversal(8 * k, x, Gathered(x, k))
    decreases k
  {
    if k > 0 {
      GatheredBits(x, k - 1);
      var g, y := Gathered(x, k - 1), x / Pow2(8 * (k - 1));
      assert Pow2(8) == 256;
      JoinRange(g, y % 256, 8 * (k - 1), 8);
      forall i: nat | i < 8 * k ensures Bit(Gathered(x, k), i) == Bit(x, ByteIndex(8 * k, i)) {
        GatheredBit(x, k, i);
      }
    }
  }

  lemma GatheredBit(x: int, k: nat, i: nat)
    requires k > 0 && i < 8 * k
    requires i >= 8 ==> Bit(Gathered(x, k - 1), i - 8) == Bit(x, ByteIndex(8 * (k - 1), i - 8))
    ensures Bit(Gathered(x, k), i) == Bit(x, ByteIndex(8 * k, i))
  {
    var g, y := Gathered(x, k - 1), x / Pow2(8 * (k - 1));
    ByteIndexShift(k, i);
    if i < 8 {
      BitShr(x, 8 * (k - 1), i);
    }
    AppendByteBit(g, y, i);
  }

  lemma AppendByteBit(g: int, y: int, i: nat)
    ensures Bit(g * 256 + y % 256, i) == if i < 8 then Bit(y, i) else Bit(g, i - 8)
  {
    assert Pow2(8) == 256;
    BitJoin(g, y % 256, 8, i);
    BitMod(y, 8, i);
  }

  lemma ByteIndexShift(k: nat, i: nat)
    requires k > 0 && i < 8 * k
    ensures i < 8 ==> ByteIndex(8 * k, i) == i + 8 * (k - 1)
    ensures i >= 8 ==> ByteIndex(8 * k, i) == ByteIndex(8 * (k - 1), i - 8)
  {
  }

  lemma GatheredIsReversal(x: int, k: nat)
    ensures Gathered(x, k) == ReversedBytes(8 * k, x)
  {
    GatheredBits(x, k);
    ReversedBytesUnique(8 * k, x, Gathered(x, k));
  }

  /** Whole bytes: n rounded up to a multiple of 8. */
  function Padded(n: nat): (m: nat)
    ensures m % 8 == 0 && n <= m < n + 8
  {
    (n + 7) / 8 * 8
  }

  /** The first byte gathered ends at the top. */
  lemma {:induction false} GatheredTop(x: int, k: nat) returns (rest: int)
    requires k > 0
    ensures 0 <= rest < Pow2(8 * (k - 1)) && Gathered(x, k) == x % 256 * Pow2(8 * (k - 1)) + rest
    decreases k
  {
    if k == 1 {
      assert Pow2(0) == 1 && x / 1 == x;
      rest := 0;
    } else {
      var low := GatheredTop(x, k - 1);
      var b := x / Pow2(8 * (k - 1)) % 256;
      rest := low * 256 + b;
      NextPower(k - 1);
      TopStep(x % 256, Pow2(8 * (k - 2)), low, b);
    }
  }

  lemma NextPower(k: nat)
    requires k > 0
    ensures Pow2(8 * k) == Pow2(8 * (k - 1)) * 256
  {
    Pow2Add(8 * (k - 1), 8);
    assert Pow2(8) == 256;
  }

  lemma TopStep(t: int, p: int, low: int, b: int)
    ensures (t * p + low) * 256 + b == t * (p * 256) + (low * 256 + b)
  {
  }

  /** A value whose length is not whole bytes is reversed as whole bytes; the result has the length again exactly
      when the lowest byte, now at the top, fits the bits left over. */
  lemma ReversalFits(n: nat, x: int)
    ensures ReversedBytes(Padded(n), x) < Pow2(n) <==> n % 8 == 0 || x % 256 < Pow2(n % 8)
  {
    if n % 8 == 0 {
      assert Padded(n) == n;
      ReversedBytesBits(n, x);
    } else {
      var k := n / 8 + 1;
      assert Padded(n) == 8 * k;
      PartFits(n, k, n % 8, x);
    }
  }

  lemma PartFits(n: nat, k: nat, m: nat, x: int)
    requires k > 0 && n == 8 * (k - 1) + m
    ensures ReversedBytes(8 * k, x) < Pow2(n) <==> x % 256 < Pow2(m)
  {
    GatheredIsReversal(x, k);
    var rest := GatheredTop(x, k);
    Pow2Add(8 * (k - 1), m);
    AboveBelow(x % 256, Pow2(m), Pow2(8 * (k - 1)), rest);
  }

  lemma AboveBelow(t: int, l: int, p: int, rest: int)
    requires 0 <= rest < p
    ensures t * p + rest < p * l <==> t < l
  {
    if t < l { MulMono(t, l - 1, p); Distribute(p, l, 1); } else { MulMono(l, t, p); }
  }

  // ----- the ELF reader's byte swaps -----

  /** `(x >> s) & 0xff` and `b << s`. */
  function ByteAt(x: int, s: nat): int { And(x / Pow2(s), 0xff) }
  function Shl(b: int, s: nat): int { b * Pow2(s) }

  const BYTE: nat := 8

  function Rev16(x: int): int
    requires 0 <= x < 0x1_0000
  {
    var a, b := ByteAt(x, 0), ByteAt(x, BYTE);
    Or(Shl(a, BYTE), Shl(b, 0))
  }

  function Rev32(x: int): int
    requires 0 <= x < 0x1_0000_0000
  {
    var a, b, c, d := ByteAt(x, 0), ByteAt(x, BYTE), ByteAt(x, 2 * BYTE), ByteAt(x, 3 * BYTE);
    Or(Or(Or(Shl(a, 3 * BYTE), Shl(b, 2 * BYTE)), Shl(c, BYTE)), Shl(d, 0))
  }

  function Rev64(x: int): int
    requires 0 <= x < WORD
  {
    var a, b, c, d := ByteAt(x, 0), ByteAt(x, BYTE), ByteAt(x, 2 * BYTE), ByteAt(x, 3 * BYTE);
    var e, f, g, h := ByteAt(x, 4 * BYTE), ByteAt(x, 5 * BYTE), ByteAt(x, 6 * BYTE), ByteAt(x, 7 * BYTE);
    Or(Or(Or(Or(Or(Or(Or(Shl(a, 7 * BYTE), Shl(b, 6 * BYTE)), Shl(c, 5 * BYTE)), Shl(d, 4 * BYTE)),
      Shl(e, 3 * BYTE)), Shl(f, 2 * BYTE)), Shl(g, BYTE)), Shl(h, 0))
  }

  /** Or-ing byte k of x below the k bytes gathered so far: one step of building a reversal high byte first. */
  lemma OrNextByte(x: int, k: nat, s: nat)
    ensures Or(Shl(Gathered(x, k), s + BYTE), Shl(ByteAt(x, k * BYTE), s)) == Shl(Gathered(x, k + 1), s)
  {
    assert Pow2(8) == 256;
    AndLowMask(x / Pow2(8 * k), 8);
    GatheredBits(x, k);
    OrJoinShifted(Gathered(x, k), ByteAt(x, 8 * k), 8, s);
  }

  lemma {:induction false} OrJoinShifted(hi: nat, lo: nat, k: nat, s: nat)
    requires lo < Pow2(k)
    ensures Or(hi * Pow2(s + k), lo * Pow2(s)) == (hi * Pow2(k) + lo) * Pow2(s)
    decreases s
  {
    if s == 0 {
      OrJoin(hi, lo, k);
    } else {
      OrJoinShifted(hi, lo, k, s - 1);
      HalfJoin(hi, 0, s + k);
      HalfJoin(lo, 0, s);
      OrStep(hi * Pow2(s + k), lo * Pow2(s));
      MulMono(0, hi, Pow2(k));
      HalfJoin(hi * Pow2(k) + lo, 0, s);
    }
  }

  lemma GatheredFirst(x: int)
    ensures ByteAt(x, 0) == Gathered(x, 1)
  {
    assert Pow2(8) == 256 && Pow2(0) == 1;
    AndLowMask(x, 8);
    assert Gathered(x, 0) == 0;
  }

  lemma Rev16IsReversal(x: int)
    requires 0 <= x < 0x1_0000
    ensures Rev16(x) == ReversedBytes(16, x)
  {
    GatheredFirst(x);
    OrNextByte(x, 1, 0);
    GatheredIsReversal(x, 2);
  }

  lemma FourBytes(x: int, s: nat)
    ensures Or(Or(Or(Shl(ByteAt(x, 0), s + 3 * BYTE), Shl(ByteAt(x, BYTE), s + 2 * BYTE)),
                  Shl(ByteAt(x, 2 * BYTE), s + BYTE)),
              Shl(ByteAt(x, 3 * BYTE), s))
         == Shl(Gathered(x, 4), s)
  {
    GatheredFirst(x);
    OrNextByte(x, 1, s + 2 * BYTE);
    OrNextByte(x, 2, s + BYTE);
    OrNextByte(x, 3, s);
  }

  lemma FourMoreBytes(x: int, k: nat)
    ensures Or(Or(Or(Or(Shl(Gathered(x, k), 4 * BYTE), Shl(ByteAt(x, k * BYTE), 3 * BYTE)),
                  Shl(ByteAt(x, (k + 1) * BYTE), 2 * BYTE)),
              Shl(ByteAt(x, (k + 2) * BYTE), BYTE)), Shl(ByteAt(x, (k + 3) * BYTE), 0))
         == Gathered(x, k + 4)
  {
    OrNextByte(x, k, 3 * BYTE);
    OrNextByte(x, k + 1, 2 * BYTE);
    OrNextByte(x, k + 2, BYTE);
    OrNextByte(x, k + 3, 0);
  }

  lemma Rev32IsReversal(x: int)
    requires 0 <= x < 0x1_0000_0000
    ensures Rev32(x) == ReversedBytes(32, x)
  {
    FourBytes(x, 0);
    GatheredIsReversal(x, 4);
  }

  lemma Rev64IsReversal(x: int)
    requires 0 <= x < WORD
    ensures Rev64(x) == ReversedBytes(64, x)
  {
    FourBytes(x, 4 * BYTE);
    FourMoreBytes(x, 4);
    GatheredIsReversal(x, 8);
  }

  /** The byte reversals of the C runtime and of the Sail model agree at every common width:
      `reverse_endianness`, `rev16`/`rev32`/`rev64`, `BigEndianReverse` and the REV swap network. */
  lemma ReversalsAgree(b: Bits, m: nat)
    requires 3 <= m <= 7 && |b| == Pow2(m)
    ensures ByteWidth(|b|) && Covers(|b|, |b| - 8)
    ensures UInt(BigEndianReverse(b)) == ReversedBytes(|b|, UInt(b)) == UInt(XorIndexed(b, |b| - 8))
    ensures |b| == 16 ==> UInt(b) < 0x1_0000 && UInt(BigEndianReverse(b)) == Rev16(UInt(b))
    ensures |b| == 32 ==> UInt(b) < 0x1_0000_0000 && UInt(BigEndianReverse(b)) == Rev32(UInt(b))
    ensures |b| == 64 ==> UInt(b) < WORD && UInt(BigEndianReverse(b)) == Rev64(UInt(b))
  {
    assert Pow2(3) == 8 && Pow2(4) == 16 && Pow2(5) == 32 && Pow2(6) == 64 && Pow2(7) == 128;
    NetworkReversesBytes(b, m);
    BigEndianReverseBytes(b);
    ToBitsUInt(b);
    UIntRange(b);
    WordIsPow2();
    Pow2Square(8, 0x100);
    Pow2Square(16, 0x1_0000);
    if |b| == 16 { Rev16IsReversal(UInt(b)); }
    if |b| == 32 { Rev32IsReversal(UInt(b)); }
    if |b| == 64 { Rev64IsReversal(UInt(b)); }
  }
}
