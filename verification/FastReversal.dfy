/** `reverse_endianness` (lib/sail.c): its word-sized fast paths by masked swaps, and its generic byte loop. */
module FastReversal {
  import opened Ints
  import opened SailBits
  import opened SwapNetwork
  import opened ByteOrder

  // ----- the masked swaps of the fast paths -----

  /** The width of n pairs of blocks of 2^j bits. */
  function Span(n: nat, j: nat): nat { if n == 0 then 0 else 2 * Pow2(j) + Span(n - 1, j) }

  /** n pairs of blocks of 2^j bits, the upper block of each pair all ones. */
  function UpperMask(n: nat, j: nat): int {
    if n == 0 then 0
    else Pow2(2 * Pow2(j)) - Pow2(Pow2(j)) + UpperMask(n - 1, j) * Pow2(2 * Pow2(j))
  }

  /** The same pairs with the lower blocks all ones. */
  function LowerMask(n: nat, j: nat): int {
    if n == 0 then 0
    else Pow2(Pow2(j)) - 1 + LowerMask(n - 1, j) * Pow2(2 * Pow2(j))
  }

  /** The six hexadecimal masks of the source are these masks. */
  lemma MaskConstants()
    ensures UpperMask(1, 5) == 0xFFFFFFFF00000000 && LowerMask(1, 5) == 0x00000000FFFFFFFF
    ensures UpperMask(2, 4) == 0xFFFF0000FFFF0000 && LowerMask(2, 4) == 0x0000FFFF0000FFFF
    ensures UpperMask(4, 3) == 0xFF00FF00FF00FF00 && LowerMask(4, 3) == 0x00FF00FF00FF00FF
  {
    assert Pow2(3) == 8 && Pow2(4) == 16 && Pow2(5) == 32;
    assert Pow2(8) == 0x100;
    Pow2Square(8, 0x100);
    Pow2Square(16, 0x1_0000);
    Pow2Square(32, 0x1_0000_0000);
    OneMask(5, 0x1_0000_0000);
    TwoMasks(4, 0x1_0000);
    FourMasks(3, 0x100);
  }

  lemma OneMask(j: nat, b: int)
    requires Pow2(Pow2(j)) == b && Pow2(2 * Pow2(j)) == b * b
    ensures UpperMask(1, j) == b * b - b && LowerMask(1, j) == b - 1
  {
    assert UpperMask(0, j) == 0 && LowerMask(0, j) == 0;
  }

  lemma TwoMasks(j: nat, b: int)
    requires Pow2(Pow2(j)) == b && Pow2(2 * Pow2(j)) == b * b
    ensures UpperMask(2, j) == b * b - b + (b * b - b) * (b * b)
    ensures LowerMask(2, j) == b - 1 + (b - 1) * (b * b)
  {
    OneMask(j, b);
  }

  lemma FourMasks(j: nat, b: int)
    requires Pow2(Pow2(j)) == b && Pow2(2 * Pow2(j)) == b * b
    ensures var u, l := b * b - b + (b * b - b) * (b * b), b - 1 + (b - 1) * (b * b);
            && UpperMask(4, j) == b * b - b + (b * b - b + u * (b * b)) * (b * b)
            && LowerMask(4, j) == b - 1 + (b - 1 + l * (b * b)) * (b * b)
  {
    TwoMasks(j, b);
    assert UpperMask(3, j) == b * b - b + UpperMask(2, j) * (b * b);
    assert LowerMask(3, j) == b - 1 + LowerMask(2, j) * (b * b);
  }

  /** Bit j of an index only depends on its residue modulo 2^(j+1). */
  lemma IndexBit(i: nat, j: nat)
    ensures i < Pow2(j) ==> !Bit(i, j)
    ensures Pow2(j) <= i < 2 * Pow2(j) ==> Bit(i, j)
    ensures i >= 2 * Pow2(j) ==> Bit(i, j) == Bit(i - 2 * Pow2(j), j)
  {
    if i < 2 * Pow2(j) {
      TopBit(i, j);
    } else {
      BitMod(i, j + 1, j);
      BitMod(i - 2 * Pow2(j), j + 1, j);
      ModShift(i - 2 * Pow2(j), 1, Pow2(j + 1));
    }
  }

  lemma OnesBit(k: nat, i: nat)
    ensures Bit(Pow2(k) - 1, i) == (i < k)
  {
    BitZero(i);
    BitMod(-1, k, i);
    ModShift(-1, 1, Pow2(k));
    SmallMod(Pow2(k) - 1, Pow2(k));
  }

  lemma BlockBit(w: nat, i: nat)
    ensures 0 <= Pow2(2 * w) - Pow2(w) < Pow2(2 * w) && 0 <= Pow2(w) - 1 < Pow2(2 * w)
    ensures Bit(Pow2(2 * w) - Pow2(w), i) == (w <= i < 2 * w)
  {
    Pow2Add(w, w);
    Pow2Mono(w, 2 * w);
    assert (Pow2(w) - 1) * Pow2(w) == Pow2(2 * w) - Pow2(w);
    BitJoin(Pow2(w) - 1, 0, w, i);
    BitZero(i);
    if i >= w { OnesBit(w, i - w); }
  }

  /** Mask bits select the indices whose bit j is set, respectively clear. */
  lemma {:induction false} MaskBits(n: nat, j: nat, i: nat)
    ensures Bit(UpperMask(n, j), i) == (i < Span(n, j) && Bit(i, j))
    ensures Bit(LowerMask(n, j), i) == (i < Span(n, j) && !Bit(i, j))
    decreases n
  {
    if n == 0 {
      BitZero(i);
    } else {
      var w := Pow2(j);
      BlockBit(w, i);
      OnesBit(w, i);
      BitJoin(UpperMask(n - 1, j), Pow2(2 * w) - Pow2(w), 2 * w, i);
      BitJoin(LowerMask(n - 1, j), Pow2(w) - 1, 2 * w, i);
      IndexBit(i, j);
      if i >= 2 * w { MaskBits(n - 1, j, i - 2 * w); }
    }
  }

  /** One masked swap: `x = (x & upper) >> k | (x & lower) << k`. */
  function MaskedSwap(x: int, upper: int, lower: int, k: nat): int {
    Or(And(x, upper) / Pow2(k), Shl64(And(x, lower), k))
  }

  /** A masked swap moves bit i to position i xor 2^j, for every word. */
  lemma MaskedSwapBits(x: int, n: nat, j: nat)
    requires 0 <= x < WORD && Span(n, j) == 64
    ensures var y := MaskedSwap(x, UpperMask(n, j), LowerMask(n, j), Pow2(j));
            && 0 <= y < WORD
            && forall i: nat :: i < 64 ==> 0 <= Xor(i, Pow2(j)) < 64 && Bit(y, i) == Bit(x, Xor(i, Pow2(j)))
  {
    var w := Pow2(j);
    var u, l := And(x, UpperMask(n, j)), And(x, LowerMask(n, j));
    WordIsPow2();
    MasksInWord(n, j);
    BitwiseRange(AndOp, x, UpperMask(n, j), 64);
    BitwiseRange(AndOp, x, LowerMask(n, j), 64);
    FloorDivBounds(u, Pow2(w));
    BitwiseRange(OrOp, u / Pow2(w), Shl64(l, w), 64);
    forall i: nat | i < 64
      ensures 0 <= Xor(i, w) < 64
      ensures Bit(MaskedSwap(x, UpperMask(n, j), LowerMask(n, j), w), i) == Bit(x, Xor(i, w))
    {
      MaskedSwapBit(x, n, j, i);
    }
  }

  lemma MaskedSwapBit(x: int, n: nat, j: nat, i: nat)
    requires 0 <= x < WORD && Span(n, j) == 64 && i < 64
    ensures 0 <= Xor(i, Pow2(j)) < 64
    ensures Bit(MaskedSwap(x, UpperMask(n, j), LowerMask(n, j), Pow2(j)), i) == Bit(x, Xor(i, Pow2(j)))
  {
    var w := Pow2(j);
    BlockPosition(i, j, n);
    BitwiseBit(OrOp, And(x, UpperMask(n, j)) / Pow2(w), Shl64(And(x, LowerMask(n, j)), w), i);
    UpperPart(x, n, j, i, w);
    LowerPart(x, n, j, i, w);
  }

  lemma UpperPart(x: int, n: nat, j: nat, i: nat, w: nat)
    requires Span(n, j) == 64 && w == Pow2(j)
    ensures Bit(And(x, UpperMask(n, j)) / Pow2(w), i) == (i + w < 64 && Bit(i + w, j) && Bit(x, i + w))
  {
    BitShr(And(x, UpperMask(n, j)), w, i);
    BitwiseBit(AndOp, x, UpperMask(n, j), i + w);
    MaskBits(n, j, i + w);
  }

  lemma LowerPart(x: int, n: nat, j: nat, i: nat, w: nat)
    requires Span(n, j) == 64 && w == Pow2(j) && i < 64
    ensures Bit(Shl64(And(x, LowerMask(n, j)), w), i) == (i >= w && !Bit(i - w, j) && Bit(x, i - w))
  {
    var l := And(x, LowerMask(n, j));
    WordIsPow2();
    BitMod(l * Pow2(w), 64, i);
    BitJoin(l, 0, w, i);
    BitZero(i);
    if i >= w {
      BitwiseBit(AndOp, x, LowerMask(n, j), i - w);
      MaskBits(n, j, i - w);
    }
  }

  /** Index i and its partner: the partner is w above when bit j of i is clear, w below when it is set. */
  lemma {:induction false} BlockPosition(i: nat, j: nat, n: nat)
    requires i < Span(n, j)
    ensures Xor(i, Pow2(j)) == if Bit(i, j) then i - Pow2(j) else i + Pow2(j)
    ensures Bit(i, j) ==> i >= Pow2(j)
    ensures Bit(i + Pow2(j), j) == !Bit(i, j)
    ensures i >= Pow2(j) ==> Bit(i - Pow2(j), j) == !Bit(i, j)
    ensures 0 <= Xor(i, Pow2(j)) < Span(n, j)
    decreases n
  {
    var w := Pow2(j);
    IndexBit(i, j);
    IndexBit(i + w, j);
    if i >= w { IndexBit(i - w, j); }
    if i >= 2 * w {
      BlockPosition(i - 2 * w, j, n - 1);
      XorAboveBlock(i, j);
    } else {
      XorInPair(i, j);
    }
  }

  lemma XorInPair(i: nat, j: nat)
    requires i < 2 * Pow2(j)
    ensures Xor(i, Pow2(j)) == if i < Pow2(j) then i + Pow2(j) else i - Pow2(j)
  {
    if i < Pow2(j) { XorFirstPair(i, j, 0); } else { XorFirstPair(i - Pow2(j), j, 0); }
  }

  lemma XorFirstPair(i: nat, j: nat, c: nat)
    requires i < Pow2(j) && c == 0
    ensures Xor(i, Pow2(j)) == Pow2(j) + i && Xor(Pow2(j) + i, Pow2(j)) == i
  {
    XorSwapsHalves(c, i, j);
    assert c * (2 * Pow2(j)) == 0;
  }

  lemma XorAboveBlock(i: nat, j: nat)
    requires i >= 2 * Pow2(j)
    ensures Xor(i, Pow2(j)) == Xor(i - 2 * Pow2(j), Pow2(j)) + 2 * Pow2(j)
  {
    var m := Pow2(j + 1);
    XorLowOnly(i, Pow2(j), j + 1);
    XorLowOnly(i - m, Pow2(j), j + 1);
    ModShift(i - m, 1, m);
  }

  lemma {:induction false} MasksInWord(n: nat, j: nat)
    ensures 0 <= UpperMask(n, j) < Pow2(Span(n, j))
    ensures 0 <= LowerMask(n, j) < Pow2(Span(n, j))
    decreases n
  {
    if n > 0 {
      var w := Pow2(j);
      MasksInWord(n - 1, j);
      BlockBit(w, 0);
      JoinRange(UpperMask(n - 1, j), Pow2(2 * w) - Pow2(w), Span(n - 1, j), 2 * w);
      JoinRange(LowerMask(n - 1, j), Pow2(w) - 1, Span(n - 1, j), 2 * w);
    }
  }

  // ----- reverse_endianness -----

  /** Three swaps exchange all eight bytes of a word: positions move by 32 + 16 + 8. */
  lemma SwapsCompose(x: int, a: nat, b: nat, i: nat)
    ensures Xor(i, a) >= 0 && Xor(a, b) >= 0 && Xor(Xor(i, b), a) == Xor(i, Xor(a, b))
  {
    XorNat(i, a);
    XorCommutes(a, b);
    XorAssoc(i, b, a);
  }

  /** A word whose bits moved by i xor V, for a V that stays inside the low n bits, is the byte reversal of
      an n-bit operand. */
  lemma MovedWordIsReversal(x: int, y: int, w: nat, V: nat, c: nat)
    requires 3 <= c && w == Pow2(c) && 8 <= w <= 64 && w % 8 == 0 && V == w - 8
    requires 0 <= x < Pow2(w) && 0 <= y < WORD && Covers(64, V)
    requires forall i: nat :: i < 64 ==> Bit(y, i) == Bit(x, Xor(i, V))
    ensures y == ReversedBytes(w, x)
  {
    WordIsPow2();
    forall i: nat | i < 64 ensures i < w ==> Bit(y, i) == Bit(x, ByteIndex(w, i)) ensures i >= w ==> !Bit(y, i) {
      XorReversesBytes(i, c);
      if i < w {
        SmallMod(i, w);
      } else {
        AlignedBelow(i, w);
        BitHigh(x, w, Xor(i, V));
      }
    }
    Truncated(y, w, 64);
    assert IsReversal(w, x, y);
    ReversedBytesUnique(w, x, y);
  }

  lemma AlignedBelow(i: nat, w: nat)
    requires 0 < w <= i
    ensures i - i % w >= w
  {
    DivModForm(i, w);
    if i / w <= 0 { MulMono(i / w, 0, w); } else { MulMono(1, i / w, w); }
  }

  /** A value with no bits at or above w lies below 2^w. */
  lemma Truncated(y: int, w: nat, n: nat)
    requires w <= n && 0 <= y < Pow2(n)
    requires forall i: nat :: w <= i < n ==> !Bit(y, i)
    ensures y < Pow2(w)
  {
    ModRange(y, w);
    Pow2Mono(w, n);
    forall i: nat | i < n ensures Bit(y, i) == Bit(y % Pow2(w), i) { BitMod(y, w, i); }
    BitsEqual(y, y % Pow2(w), n);
  }

  /** The three masked swaps of the source, applied from the widest down to single bytes. */
  function Swap32(x: int): int { MaskedSwap(x, 0xFFFFFFFF00000000, 0x00000000FFFFFFFF, 32) }
  function Swap16(x: int): int { MaskedSwap(x, 0xFFFF0000FFFF0000, 0x0000FFFF0000FFFF, 16) }
  function Swap8(x: int): int { MaskedSwap(x, 0xFF00FF00FF00FF00, 0x00FF00FF00FF00FF, 8) }

  lemma Spans()
    ensures Pow2(3) == 8 && Pow2(4) == 16 && Pow2(5) == 32
    ensures Span(1, 5) == 64 && Span(2, 4) == 64 && Span(4, 3) == 64
  {
  }

  lemma SwapStep(x: int, upper: int, lower: int, n: nat, j: nat, k: nat)
    requires 0 <= x < WORD && Span(n, j) == 64 && upper == UpperMask(n, j) && lower == LowerMask(n, j) && k == Pow2(j)
    ensures 0 <= MaskedSwap(x, upper, lower, k) < WORD && Covers(64, k)
    ensures forall i: nat :: i < 64 ==> Bit(MaskedSwap(x, upper, lower, k), i) == Bit(x, Xor(i, k))
  {
    MaskedSwapBits(x, n, j);
  }

  lemma Swap32Step(x: int)
    requires 0 <= x < WORD
    ensures 0 <= Swap32(x) < WORD && Covers(64, 32)
    ensures forall i: nat :: i < 64 ==> Bit(Swap32(x), i) == Bit(x, Xor(i, 32))
  {
    MaskConstants();
    Spans();
    SwapStep(x, UpperMask(1, 5), LowerMask(1, 5), 1, 5, 32);
  }

  lemma Swap16Step(x: int)
    requires 0 <= x < WORD
    ensures 0 <= Swap16(x) < WORD && Covers(64, 16)
    ensures forall i: nat :: i < 64 ==> Bit(Swap16(x), i) == Bit(x, Xor(i, 16))
  {
    MaskConstants();
    Spans();
    SwapStep(x, UpperMask(2, 4), LowerMask(2, 4), 2, 4, 16);
  }

  lemma Swap8Step(x: int)
    requires 0 <= x < WORD
    ensures 0 <= Swap8(x) < WORD && Covers(64, 8)
    ensures forall i: nat :: i < 64 ==> Bit(Swap8(x), i) == Bit(x, Xor(i, 8))
  {
    MaskConstants();
    Spans();
    SwapStep(x, UpperMask(4, 3), LowerMask(4, 3), 4, 3, 8);
  }

  lemma ControlWords()
    ensures Covers(64, 8) && Covers(64, 24) && Covers(64, 56)
    ensures Xor(16, 8) == 24 && Xor(32, 24) == 56
  {
    assert Pow2(6) == 64;
    PowerCovers(6, 8);
    PowerCovers(6, 24);
    PowerCovers(6, 56);
    assert Pow2(4) == 16 && Pow2(5) == 32;
    XorLowOnly(16, 8, 4);
    XorLowOnly(32, 24, 5);
    XorZero(8);
    XorZero(24);
  }

  lemma FastPath16(x: int, w: nat)
    requires w == 16 && 0 <= x < Pow2(w)
    ensures Swap8(x) == ReversedBytes(w, x)
  {
    WordIsPow2();
    Pow2Mono(w, 64);
    Swap8Step(x);
    assert Pow2(4) == 16;
    MovedWordIsReversal(x, Swap8(x), w, 8, 4);
  }

  /** Two swaps move bit i to i xor 24, three to i xor 56. */
  lemma TwoSwaps(x: int)
    requires 0 <= x < WORD
    ensures 0 <= Swap8(Swap16(x)) < WORD && Covers(64, 24)
    ensures forall i: nat :: i < 64 ==> Bit(Swap8(Swap16(x)), i) == Bit(x, Xor(i, 24))
  {
    Swap16Step(x);
    Swap8Step(Swap16(x));
    ControlWords();
    forall i: nat | i < 64 ensures Bit(Swap8(Swap16(x)), i) == Bit(x, Xor(i, 24)) { SwapsCompose(x, 16, 8, i); }
  }

  lemma ThreeSwaps(x: int)
    requires 0 <= x < WORD
    ensures 0 <= Swap8(Swap16(Swap32(x))) < WORD && Covers(64, 56)
    ensures forall i: nat :: i < 64 ==> Bit(Swap8(Swap16(Swap32(x))), i) == Bit(x, Xor(i, 56))
  {
    var y := Swap32(x);
    Swap32Step(x);
    TwoSwaps(y);
    ControlWords();
    forall i: nat | i < 64 ensures Bit(Swap8(Swap16(y)), i) == Bit(x, Xor(i, 56)) { SwapsCompose(x, 32, 24, i); }
  }

  lemma FastPath32(x: int, w: nat)
    requires w == 32 && 0 <= x < Pow2(w)
    ensures Swap8(Swap16(x)) == ReversedBytes(w, x)
  {
    WordIsPow2();
    Pow2Mono(w, 64);
    TwoSwaps(x);
    assert Pow2(5) == 32;
    MovedWordIsReversal(x, Swap8(Swap16(x)), w, 24, 5);
  }

  lemma FastPath64(x: int, w: nat)
    requires w == 64 && 0 <= x < Pow2(w) == WORD
    ensures Swap8(Swap16(Swap32(x))) == ReversedBytes(w, x)
  {
    ThreeSwaps(x);
    assert Pow2(6) == 64;
    MovedWordIsReversal(x, Swap8(Swap16(Swap32(x))), w, 56, 6);
  }

  /** `reverse_endianness`: every path computes the same reversal of whole bytes. A length that is not a multiple
      of 8 is rounded up, and the result is a value of that length exactly when the lowest byte of the operand
      fits the bits above the last whole byte. */
  method ReverseEndianness(op: Lbits) returns (rop: Lbits)
    requires op.Valid()
    ensures rop == Lbits(op.len, ReversedBytes(Padded(op.len), op.bits))
    ensures rop.Valid() <==> op.len % 8 == 0 || op.bits % 256 < Pow2(op.len % 8)
  {
    if op.len == 64 {
      var x := op.bits;
      x := Or(And(x, 0xFFFFFFFF00000000) / Pow2(32), Shl64(And(x, 0x00000000FFFFFFFF), 32));
      x := Or(And(x, 0xFFFF0000FFFF0000) / Pow2(16), Shl64(And(x, 0x0000FFFF0000FFFF), 16));
      x := Or(And(x, 0xFF00FF00FF00FF00) / Pow2(8), Shl64(And(x, 0x00FF00FF00FF00FF), 8));
      rop := Lbits(op.len, x);
      WordIsPow2();
      FastPath64(op.bits, op.len);
    } else if op.len == 32 {
      var x := op.bits;
      x := Or(And(x, 0xFFFF0000FFFF0000) / Pow2(16), Shl64(And(x, 0x0000FFFF0000FFFF), 16));
      x := Or(And(x, 0xFF00FF00FF00FF00) / Pow2(8), Shl64(And(x, 0x00FF00FF00FF00FF), 8));
      rop := Lbits(op.len, x);
      FastPath32(op.bits, op.len);
    } else if op.len == 16 {
      var x := op.bits;
      x := Or(And(x, 0xFF00FF00FF00FF00) / Pow2(8), Shl64(And(x, 0x00FF00FF00FF00FF), 8));
      rop := Lbits(op.len, x);
      FastPath16(op.bits, op.len);
    } else if op.len == 8 {
      rop := op;
      OneByte(op.bits);
    } else {
      rop := ReverseEndiannessLoop(op);
    }
    ResultFits(op, rop);
  }

  lemma ResultFits(op: Lbits, rop: Lbits)
    requires rop == Lbits(op.len, ReversedBytes(Padded(op.len), op.bits))
    ensures rop.Valid() <==> op.len % 8 == 0 || op.bits % 256 < Pow2(op.len % 8)
  {
    ReversedBytesBits(Padded(op.len), op.bits);
    ReversalFits(op.len, op.bits);
  }

  lemma OneByte(x: int)
    requires 0 <= x < Pow2(8)
    ensures x == ReversedBytes(8, x)
  {
    forall i: nat | i < 8 ensures ByteIndex(8, i) == i {}
    ReversedBytesUnique(8, x, x);
  }

  /** The generic branch, for any length. */
  method ReverseEndiannessLoop(op: Lbits) returns (rop: Lbits)
    requires op.Valid()
    ensures rop == Lbits(op.len, ReversedBytes(Padded(op.len), op.bits))
  {
    var mask := 0xff;
    rop := Lbits(op.len, 0);
    var byte := 0;
    ghost var k := 0;
    while byte < op.len
      invariant byte == 8 * k && byte < op.len + 8
      invariant rop.len == op.len && rop.bits == Gathered(op.bits, k)
    {
      var tmp := op.bits / Pow2(byte);
      tmp := And(tmp, mask);
      AndLowMask(op.bits / Pow2(byte), 8);
      assert Pow2(8) == 256;
      GatheredBits(op.bits, k);
      OrJoin(rop.bits, tmp, 8);
      rop := rop.(bits := rop.bits * Pow2(8));
      rop := rop.(bits := Or(rop.bits, tmp));
      byte := byte + 8;
      k := k + 1;
    }
    assert Padded(op.len) == 8 * k;
    GatheredIsReversal(op.bits, k);
  }
}
