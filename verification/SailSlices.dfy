/** Slices, slice updates and shifts of lib/sail.c. */
module SailSlices {
  import opened Ints
  import opened SailBits

  /** Bits start .. start+len-1 of the two's-complement representation of n. */
  function SliceOf(n: int, start: nat, len: nat): (v: int)
    ensures 0 <= v < Pow2(len)
  {
    n / Pow2(start) % Pow2(len)
  }

  /** n with the same bits replaced by the len-bit value v. */
  function Spliced(n: int, start: nat, len: nat, v: int): int {
    n + (v - SliceOf(n, start, len)) * Pow2(start)
  }

  lemma SliceBit(n: int, start: nat, len: nat, i: nat)
    ensures Bit(SliceOf(n, start, len), i) == (i < len && Bit(n, i + start))
  {
    BitMod(n / Pow2(start), len, i);
    BitShr(n, start, i);
  }

  /** Writing a slice and reading it back returns it, for every integer, negative or not. */
  lemma GetAfterSet(n: int, start: nat, len: nat, v: int)
    requires 0 <= v < Pow2(len)
    ensures SliceOf(Spliced(n, start, len, v), start, len) == v
  {
    var s, m := Pow2(start), Pow2(len);
    var q := n / s;
    ModShift(n, v - SliceOf(n, start, len), s);
    DivModForm(q, m);
    assert q + (v - q % m) == v + (q / m) * m;
    ModShift(v, q / m, m);
    SmallMod(v, m);
  }

  /** Every bit outside the slice is untouched; inside, the bits are those of v. */
  lemma SplicedBit(n: int, start: nat, len: nat, v: int, i: nat)
    requires 0 <= v < Pow2(len)
    ensures Bit(Spliced(n, start, len, v), i)
         == if start <= i < start + len then Bit(v, i - start) else Bit(n, i)
  {
    var s, m := Pow2(start), Pow2(len);
    var r := Spliced(n, start, len, v);
    var q := n / s;
    DivModForm(n, s);
    DivModForm(q, m);
    ModShift(n, v - q % m, s);
    assert r % s == n % s && r / s == v + (q / m) * m;
    if i < start {
      BitMod(r, start, i);
      BitMod(n, start, i);
    } else {
      BitShr(r, start, i - start);
      BitJoin(q / m, v, len, i - start);
      if i - start >= len {
        BitShr(q, len, i - start - len);
        BitShr(n, start, i - start);
      }
    }
  }

  /** A second write to the same place wins. */
  lemma SetTwice(n: int, start: nat, len: nat, v: int, w: int)
    requires 0 <= v < Pow2(len)
    ensures Spliced(Spliced(n, start, len, v), start, len, w) == Spliced(n, start, len, w)
  {
    GetAfterSet(n, start, len, v);
    var s, u := Pow2(start), SliceOf(n, start, len);
    assert (v - u) * s + (w - v) * s == (w - u) * s;
  }

  /** Writing back what was read changes nothing. */
  lemma SetSame(n: int, start: nat, len: nat)
    ensures Spliced(n, start, len, SliceOf(n, start, len)) == n
  {
  }

  /** `get_slice_int`: the bit loop is floor division and remainder. */
  method GetSliceInt(len: nat, n: int, start: nat) returns (rop: Lbits)
    ensures rop.Valid() && rop == Lbits(len, SliceOf(n, start, len))
  {
    rop := Lbits(len, 0);
    for i := 0 to len
      invariant rop.len == len && rop.bits == SliceOf(n, start, i)
    {
      CollectBit(n, start, i);
      if Bit(n, i + start) { rop := rop.(bits := SetBit(rop.bits, i)); }
    }
  }

  lemma CollectBit(n: int, start: nat, i: nat)
    ensures SliceOf(n, start, i + 1)
         == if Bit(n, i + start) then SetBit(SliceOf(n, start, i), i) else SliceOf(n, start, i)
  {
    var x := SliceOf(n, start, i);
    ModPow2Step(n / Pow2(start), i);
    BitShr(n, start, i);
    BitHigh(x, i, i);
    WriteBitValue(x, i, true);
  }

  /** `slice` of a bit vector is the same loop. */
  method Slice(op: Lbits, start: nat, len: nat) returns (rop: Lbits)
    requires op.Valid() && start + len <= op.len
    ensures rop.Valid() && rop == Lbits(len, SliceOf(op.bits, start, len))
  {
    rop := Lbits(len, 0);
    for i := 0 to len
      invariant rop.len == len && rop.bits == SliceOf(op.bits, start, i)
    {
      CollectBit(op.bits, start, i);
      if Bit(op.bits, i + start) { rop := rop.(bits := SetBit(rop.bits, i)); }
    }
  }

  /** `vector_subrange_lbits`: shift and mask gives the same slice as the bit loops. */
  method VectorSubrange(op: Lbits, n: nat, m: nat) returns (rop: Lbits)
    requires op.Valid() && m <= n + 1
    ensures rop.Valid() && rop == Lbits(n + 1 - m, SliceOf(op.bits, m, n + 1 - m))
  {
    rop := Lbits(n - (m - 1), op.bits / Pow2(m));
    rop := NormalizeLbits(rop);
  }

  /** `sail_truncateLSB` keeps the upper bits. */
  method TruncateLSB(op: Lbits, len: nat) returns (rop: Lbits)
    requires op.Valid() && len <= op.len
    ensures rop.Valid() && rop == Lbits(len, SliceOf(op.bits, op.len - len, len))
  {
    rop := Lbits(len, op.bits / Pow2(op.len - len));
    rop := NormalizeLbits(rop);
  }

  const UINT64_MAX: int := WORD - 1

  function SafeRshift(x: int, n: nat): int { if n >= 64 then 0 else x / Pow2(n) }

  /** `sslice`: the 64-bit word variant of `slice`. */
  method Sslice(op: int, start: nat, len: nat) returns (rop: Lbits)
    requires 0 <= op < WORD && start < 64 && len <= 64
    ensures rop.Valid() && rop == Lbits(len, SliceOf(op, start, len))
  {
    rop := Lbits(len, And(op / Pow2(start), SafeRshift(UINT64_MAX, 64 - len)));
    WordIsPow2();
    TopOnes(64, len);
    AndLowMask(op / Pow2(start), len);
  }

  /** One round of the slice-writing loops. */
  lemma SpliceBit(n: int, start: nat, i: nat, v: int)
    ensures Spliced(n, start, i + 1, v % Pow2(i + 1))
         == WriteBit(Spliced(n, start, i, v % Pow2(i)), i + start, Bit(v, i))
  {
    var s, p := Pow2(start), Pow2(i);
    ModPow2Step(v, i);
    ModPow2Step(n / s, i);
    BitShr(n, start, i);
    ModRange(v, i);
    SplicedBit(n, start, i, v % p, i + start);
    WriteBitValue(Spliced(n, start, i, v % p), i + start, Bit(v, i));
    Pow2Add(i, start);
    SpliceArith(v % p, SliceOf(n, start, i), if Bit(v, i) then p else 0, if Bit(n, i + start) then p else 0, s);
  }

  lemma SpliceArith(x: int, y: int, a: int, b: int, s: int)
    ensures ((x + a) - (y + b)) * s == (x - y) * s + a * s - b * s
  {
  }

  lemma SpliceNothing(n: int, start: nat, v: int)
    ensures Spliced(n, start, 0, v % Pow2(0)) == n
  {
  }

  /** `set_slice_int` writes the slice into any integer. */
  method SetSliceInt(n: int, start: nat, slice: Lbits) returns (rop: int)
    requires slice.Valid()
    ensures rop == Spliced(n, start, slice.len, slice.bits)
  {
    rop := n;
    SpliceNothing(n, start, slice.bits);
    for i := 0 to slice.len
      invariant rop == Spliced(n, start, i, slice.bits % Pow2(i))
    {
      SpliceBit(n, start, i, slice.bits);
      if Bit(slice.bits, i) { rop := SetBit(rop, i + start); } else { rop := ClearBit(rop, i + start); }
    }
    SmallMod(slice.bits, Pow2(slice.len));
  }

  /** `vector_update_subrange_lbits` stays within the length of the vector. */
  method VectorUpdateSubrange(op: Lbits, n: nat, m: nat, slice: Lbits) returns (rop: Lbits)
    requires op.Valid() && slice.Valid() && m <= n + 1 && n < op.len && slice.len == n + 1 - m
    ensures rop.Valid() && rop == Lbits(op.len, Spliced(op.bits, m, slice.len, slice.bits))
  {
    rop := op;
    SpliceNothing(op.bits, m, slice.bits);
    for i := 0 to n - (m - 1)
      invariant rop.len == op.len && rop.Valid()
      invariant rop.bits == Spliced(op.bits, m, i, slice.bits % Pow2(i))
    {
      SpliceBit(op.bits, m, i, slice.bits);
      WriteBitRange(rop.bits, i + m, Bit(slice.bits, i), op.len);
      if Bit(slice.bits, i) {
        rop := rop.(bits := SetBit(rop.bits, i + m));
      } else {
        rop := rop.(bits := ClearBit(rop.bits, i + m));
      }
    }
    SmallMod(slice.bits, Pow2(slice.len));
  }

  // ----- shifts -----

  method ShiftBitsLeft(op1: Lbits, shift: nat) returns (rop: Lbits)
    ensures rop.Valid() && rop == Lbits(op1.len, (op1.bits * Pow2(shift)) % Pow2(op1.len))
  {
    rop := Lbits(op1.len, op1.bits * Pow2(shift));
    rop := NormalizeLbits(rop);
  }

  /** Bit numbers are 64-bit unsigned, so counting below zero wraps to the top. */
  function BitNumber(x: int): (i: nat)
    ensures i < WORD
    ensures 0 <= x < WORD ==> i == x
  {
    if 0 <= x < WORD then SmallMod(x, WORD); x else x % WORD
  }

  /** `shift_bits_right_arith`: floor division of the signed value by 2^shift. That holds exactly when
      the sign bit is clear or the shift does not exceed the length; otherwise the bit number
      wraps below zero and the result is not even a valid vector. */
  method ShiftBitsRightArith(op1: Lbits, shift: nat) returns (rop: Lbits)
    requires op1.Valid() && op1.len < WORD && shift < WORD
    ensures rop.len == op1.len
    ensures (Signed(op1) >= 0 || shift <= op1.len) <==> rop.Valid()
    ensures rop.Valid() ==> Signed(rop) == Signed(op1) / Pow2(shift)
  {
    var len := op1.len;
    var shiftAmt := shift;
    rop := Lbits(len, op1.bits / Pow2(shift));
    ghost var q := rop.bits;
    if len > 0 { SignedRange(op1); }
    if len > 0 && Bit(op1.bits, len - 1) {
      var signBit := len - 1;
      QuotientBelow(op1.bits, shift, len);
      while shiftAmt > 0
        invariant 0 <= shiftAmt <= shift && rop.len == len && rop.bits >= 0
        invariant shift <= len ==> rop.bits == q + Pow2(len - shiftAmt) - Pow2(len - shift)
        invariant shift > len && shiftAmt < shift ==> rop.bits >= Pow2(len)
      {
        var i := BitNumber(signBit - shiftAmt + 1);
        SetBitAt(rop.bits, i);
        if shift <= len {
          BitHigh(rop.bits, i, i);
        } else if shiftAmt == shift {
          WrappedBitNumber(len, shift, i);
        }
        rop := rop.(bits := SetBit(rop.bits, i));
        shiftAmt := shiftAmt - 1;
      }
      if shift <= len { ArithValue(op1, shift, rop); }
    } else {
      LogicalValue(op1, shift, rop);
    }
  }

  /** Setting a bit adds its weight when it was clear, and leaves a value of at least that weight. */
  lemma SetBitAt(x: int, i: nat)
    requires x >= 0
    ensures SetBit(x, i) == x + (if Bit(x, i) then 0 else Pow2(i))
    ensures SetBit(x, i) >= Pow2(i)
  {
    WriteBitValue(x, i, true);
    if Bit(x, i) { BitLowerBound(x, i); }
  }

  lemma WrappedBitNumber(len: nat, shift: nat, i: nat)
    requires len < shift < WORD && i == BitNumber(len - shift)
    ensures i >= len && Pow2(i) >= Pow2(len)
  {
    ModShift(len - shift, 1, WORD);
    SmallMod(len - shift + WORD, WORD);
    Pow2Mono(len, i);
  }

  lemma QuotientBelow(x: int, shift: nat, len: nat)
    requires 0 <= x < Pow2(len)
    ensures 0 <= x / Pow2(shift)
    ensures shift <= len ==> x / Pow2(shift) < Pow2(len - shift)
  {
    var q, s := x / Pow2(shift), Pow2(shift);
    DivModForm(x, s);
    if shift <= len {
      Pow2Add(len - shift, shift);
      if q >= Pow2(len - shift) { MulMono(Pow2(len - shift), q, s); }
    }
  }

  /** The filled-in quotient is the floor of the (negative) signed value. */
  lemma ArithValue(op: Lbits, shift: nat, rop: Lbits)
    requires op.Valid() && rop.len == op.len > 0 && shift <= op.len && Bit(op.bits, op.len - 1)
    requires rop.bits == op.bits / Pow2(shift) + Pow2(op.len) - Pow2(op.len - shift)
    ensures rop.Valid() && Signed(rop) == Signed(op) / Pow2(shift)
  {
    var len, s := op.len, Pow2(shift);
    var v := Signed(op) / s;
    SignedRange(op);
    FloorDivBounds(Signed(op), s);
    Pow2Add(len - shift, shift);
    LoweredQuotient(op.bits, Pow2(len - shift), s, Pow2(len));
    ResidueAbove(v, Pow2(len));
    SignedUnique(rop, v);
  }

  lemma LoweredQuotient(x: int, q: int, s: int, m: int)
    requires s > 0 && m == q * s
    ensures (x - m) / s == x / s - q
  {
    assert x - m == x + (-q) * s;
    ModShift(x, -q, s);
  }

  lemma ResidueAbove(v: int, m: int)
    requires m > 0 && -m <= v < 0
    ensures v % m == v + m
  {
    ModShift(v, 1, m);
    SmallMod(v + m, m);
  }

  lemma LogicalValue(op: Lbits, shift: nat, rop: Lbits)
    requires op.Valid() && rop == Lbits(op.len, op.bits / Pow2(shift))
    requires op.len > 0 ==> !Bit(op.bits, op.len - 1)
    ensures Signed(op) >= 0 && rop.Valid() && Signed(rop) == Signed(op) / Pow2(shift)
  {
    FloorDivBounds(op.bits, Pow2(shift));
    if op.len > 0 {
      SignedRange(op);
      SmallMod(rop.bits, Pow2(op.len));
      SignedUnique(rop, rop.bits);
    }
  }
}
