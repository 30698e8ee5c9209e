/** Length-tagged bit vectors over big integers: the bit-vector half of lib/sail.c.
    An output pointer of the C code becomes an out-parameter; GMP integers are `int`. */
module SailBits {
  import opened Ints

  /** `lbits`: valid when the integer part lies in [0, 2^len). */
  datatype Lbits = Lbits(len: nat, bits: int) {
    predicate Valid() { 0 <= bits < Pow2(len) }
  }

  /** The two's-complement reading that `sail_signed` computes. */
  function Signed(op: Lbits): int {
    if op.len > 0 && Bit(op.bits, op.len - 1) then op.bits - Pow2(op.len) else op.bits
  }

  lemma SignedRange(op: Lbits)
    requires op.Valid() && op.len > 0
    ensures -Pow2(op.len - 1) <= Signed(op) < Pow2(op.len - 1)
    ensures Signed(op) < 0 <==> Bit(op.bits, op.len - 1)
  {
    TopBit(op.bits, op.len - 1);
  }

  /** The top bit of an (n+1)-bit value says whether it reaches 2^n. */
  lemma TopBit(x: int, n: nat)
    requires 0 <= x < Pow2(n + 1)
    ensures Bit(x, n) <==> x >= Pow2(n)
  {
    ModPow2Step(x, n);
    SmallMod(x, Pow2(n + 1));
    ModRange(x, n);
    if x < Pow2(n) { SmallMod(x, Pow2(n)); }
  }

  /** Signed readings are determined by congruence modulo 2^len and range. */
  lemma SignedUnique(op: Lbits, v: int)
    requires op.Valid() && op.len > 0 && op.bits == v % Pow2(op.len)
    requires -Pow2(op.len - 1) <= v < Pow2(op.len - 1)
    ensures Signed(op) == v
  {
    TopBit(op.bits, op.len - 1);
    if v >= 0 {
      SmallMod(v, Pow2(op.len));
    } else {
      ModShift(v, 1, Pow2(op.len));
      SmallMod(v + Pow2(op.len), Pow2(op.len));
    }
  }

  // ----- arithmetic modulo 2^len -----

  method NormalizeLbits(op: Lbits) returns (rop: Lbits)
    ensures rop.Valid() && rop.len == op.len && rop.bits == op.bits % Pow2(op.len)
  {
    var tmp := 1;
    tmp := tmp * Pow2(op.len);
    tmp := tmp - 1;
    rop := op.(bits := And(op.bits, tmp));
    AndLowMask(op.bits, op.len);
    ModRange(op.bits, op.len);
  }

  method AddBits(op1: Lbits, op2: Lbits) returns (rop: Lbits)
    ensures rop.Valid() && rop.len == op1.len && rop.bits == (op1.bits + op2.bits) % Pow2(op1.len)
  {
    rop := Lbits(op1.len, op1.bits + op2.bits);
    rop := NormalizeLbits(rop);
  }

  method SubBits(op1: Lbits, op2: Lbits) returns (rop: Lbits)
    requires op1.len == op2.len
    ensures rop.Valid() && rop.len == op1.len && rop.bits == (op1.bits - op2.bits) % Pow2(op1.len)
  {
    rop := Lbits(op1.len, op1.bits - op2.bits);
    rop := NormalizeLbits(rop);
  }

  /** Subtraction undoes addition. */
  lemma AddThenSub(a: int, b: int, n: nat)
    ensures ((a + b) % Pow2(n) - b) % Pow2(n) == a % Pow2(n)
  {
    var m := Pow2(n);
    DivModForm(a + b, m);
    ModShift(a, -((a + b) / m), m);
  }

  /** `not_bits` flips each bit below len; on values it is 2^len - 1 - x. */
  method NotBits(op: Lbits) returns (rop: Lbits)
    requires op.Valid()
    ensures rop.Valid() && rop.len == op.len && rop.bits == Pow2(op.len) - 1 - op.bits
    ensures forall i: nat :: i < op.len ==> Bit(rop.bits, i) == !Bit(op.bits, i)
  {
    rop := op;
    for i := 0 to op.len
      invariant rop.len == op.len
      invariant rop.bits == op.bits + (Pow2(i) - 1 - 2 * (op.bits % Pow2(i)))
      invariant forall j: nat :: Bit(rop.bits, j) == (if j < i then !Bit(op.bits, j) else Bit(op.bits, j))
    {
      var x := rop.bits;
      rop := rop.(bits := FlipBit(x, i));
      forall j: nat ensures Bit(rop.bits, j) == (if j == i then !Bit(x, i) else Bit(x, j)) {
        WriteBitBit(x, i, !Bit(x, i), j);
      }
      WriteBitValue(x, i, !Bit(x, i));
      ModPow2Step(op.bits, i);
    }
    SmallMod(op.bits, Pow2(op.len));
  }

  method SailSigned(op: Lbits) returns (rop: int)
    requires op.Valid()
    ensures rop == Signed(op)
  {
    if op.len == 0 {
      rop := 0;
    } else {
      var signBit := op.len - 1;
      rop := op.bits;
      if Bit(op.bits, signBit) {
        var tmp := Pow2(signBit);
        WriteBitValue(rop, signBit, false);
        rop := FlipBit(rop, signBit);
        rop := rop - tmp;
      }
    }
  }

  lemma ProductBound(a: int, b: int, h: int)
    requires h > 0 && -h <= a <= h && -h <= b <= h
    ensures -(h * h) <= a * b <= h * h
  {
    var x, y := Abs(a), Abs(b);
    MulMono(x, h, y);
    MulMono(y, h, h);
    assert h * y == y * h;
    assert a * b == x * y || a * b == -(x * y);
    assert x * y >= 0;
  }

  /** The signed product: exact for operands of equal length. */
  method MultsVec(op1: Lbits, op2: Lbits) returns (rop: Lbits)
    requires op1.Valid() && op2.Valid()
    ensures rop.Valid() && rop.len == op1.len * 2
    ensures rop.bits == (Signed(op1) * Signed(op2)) % Pow2(rop.len)
    ensures op1.len == op2.len ==> Signed(rop) == Signed(op1) * Signed(op2)
  {
    var op1Int := SailSigned(op1);
    var op2Int := SailSigned(op2);
    rop := Lbits(op1.len * 2, op1Int * op2Int);
    rop := NormalizeLbits(rop);
    if op1.len == op2.len && op1.len > 0 { SignedProduct(op1, op2, rop); }
  }

  lemma SignedProduct(op1: Lbits, op2: Lbits, rop: Lbits)
    requires op1.Valid() && op2.Valid() && op1.len == op2.len > 0
    requires rop.Valid() && rop.len == op1.len * 2
    requires rop.bits == (Signed(op1) * Signed(op2)) % Pow2(rop.len)
    ensures Signed(rop) == Signed(op1) * Signed(op2)
  {
    var n := op1.len;
    SignedRange(op1);
    SignedRange(op2);
    ProductBound(Signed(op1), Signed(op2), Pow2(n - 1));
    Pow2Add(n - 1, n - 1);
    Pow2Mono(2 * n - 2, 2 * n - 1);
    SignedUnique(rop, Signed(op1) * Signed(op2));
  }

  lemma ProductBelow(a: int, b: int, m: int)
    requires 0 <= a < m && 0 <= b < m
    ensures 0 <= a * b < m * m
  {
    MulMono(a, m - 1, b);
    MulMono(b, m, m - 1);
    assert (m - 1) * b == b * (m - 1) && m * (m - 1) == m * m - m;
  }

  /** The unsigned product; for equal lengths the final normalise changes nothing. */
  method MultVec(op1: Lbits, op2: Lbits) returns (rop: Lbits)
    requires op1.Valid() && op2.Valid()
    ensures rop.Valid() && rop.len == op1.len * 2
    ensures rop.bits == (op1.bits * op2.bits) % Pow2(rop.len)
    ensures op1.len == op2.len ==> rop.bits == op1.bits * op2.bits
  {
    rop := Lbits(op1.len * 2, op1.bits * op2.bits);
    rop := NormalizeLbits(rop);
    if op1.len == op2.len {
      Pow2Add(op1.len, op1.len);
      ProductBelow(op1.bits, op2.bits, Pow2(op1.len));
      SmallMod(op1.bits * op2.bits, Pow2(op1.len * 2));
    }
  }

  // ----- extension -----

  /** `sign_extend` keeps the signed value. */
  method SignExtend(op: Lbits, len: nat) returns (rop: Lbits)
    requires op.Valid() && op.len <= len
    ensures rop.Valid() && rop.len == len && Signed(rop) == Signed(op)
  {
    rop := Lbits(len, op.bits);
    Pow2Mono(op.len, len);
    if op.len > 0 && Bit(op.bits, op.len - 1) {
      var i := rop.len - 1;
      while i >= op.len
        invariant op.len - 1 <= i < len
        invariant rop.len == len
        invariant rop.bits == op.bits + Pow2(len) - Pow2(i + 1)
        invariant forall j: nat :: j <= i ==> Bit(rop.bits, j) == Bit(op.bits, j)
      {
        var x := rop.bits;
        rop := rop.(bits := SetBit(x, i));
        WriteBitValue(x, i, true);
        BitHigh(op.bits, op.len, i);
        forall j: nat | j < i ensures Bit(rop.bits, j) == Bit(op.bits, j) { WriteBitBit(x, i, true, j); }
        i := i - 1;
      }
      NegativeExtended(op, rop);
    } else if len > 0 {
      PositiveExtended(op, rop);
    }
  }

  lemma NegativeExtended(op: Lbits, rop: Lbits)
    requires op.Valid() && 0 < op.len <= rop.len && Bit(op.bits, op.len - 1)
    requires rop.bits == op.bits + Pow2(rop.len) - Pow2(op.len)
    ensures rop.Valid() && Signed(rop) == Signed(op)
  {
    SignedRange(op);
    ModShift(Signed(op), 1, Pow2(rop.len));
    Pow2Mono(op.len - 1, rop.len - 1);
    SmallMod(rop.bits, Pow2(rop.len));
    SignedUnique(rop, Signed(op));
  }

  lemma PositiveExtended(op: Lbits, rop: Lbits)
    requires op.Valid() && op.len <= rop.len && rop.len > 0 && rop.bits == op.bits
    requires op.len > 0 ==> !Bit(op.bits, op.len - 1)
    ensures rop.Valid() && Signed(rop) == Signed(op)
  {
    Pow2Mono(op.len, rop.len);
    if op.len > 0 { SignedRange(op); Pow2Mono(op.len - 1, rop.len - 1); }
    SmallMod(op.bits, Pow2(rop.len));
    SignedUnique(rop, op.bits);
  }

  // ----- comparison -----

  /** The bit-by-bit comparison decides equality of values. */
  method EqBits(op1: Lbits, op2: Lbits) returns (equal: bool)
    requires op1.len == op2.len && op1.Valid() && op2.Valid()
    ensures equal <==> op1 == op2
  {
    for i := 0 to op1.len
      invariant forall j: nat :: j < i ==> Bit(op1.bits, j) == Bit(op2.bits, j)
    {
      if Bit(op1.bits, i) != Bit(op2.bits, i) { return false; }
    }
    BitsEqual(op1.bits, op2.bits, op1.len);
    return true;
  }

  // ----- joining -----

  /** `append`: shift and or is exact concatenation. */
  method Append(op1: Lbits, op2: Lbits) returns (rop: Lbits)
    requires op1.Valid() && op2.Valid()
    ensures rop.Valid() && rop.len == op1.len + op2.len
    ensures rop.bits == op1.bits * Pow2(op2.len) + op2.bits
  {
    rop := Lbits(op1.len + op2.len, op1.bits * Pow2(op2.len));
    OrJoin(op1.bits, op2.bits, op2.len);
    rop := rop.(bits := Or(rop.bits, op2.bits));
    JoinRange(op1.bits, op2.bits, op1.len, op2.len);
  }

  /** Or-ing into freshly shifted-in zeros is addition. */
  lemma {:induction false} OrJoin(hi: nat, lo: nat, k: nat)
    requires lo < Pow2(k)
    ensures hi * Pow2(k) >= 0 && Or(hi * Pow2(k), lo) == hi * Pow2(k) + lo
    decreases k
  {
    if k == 0 {
      OrZero(hi);
    } else {
      HalfJoin(hi, 0, k);
      OrJoin(hi, lo / 2, k - 1);
      OrStep(hi * Pow2(k), lo);
    }
  }

  lemma OrStep(x: nat, y: nat)
    ensures Or(x, y) == 2 * Or(x / 2, y / 2) + (if x % 2 == 1 || y % 2 == 1 then 1 else 0)
  {
  }

  lemma {:induction false} OrZero(x: nat)
    ensures Or(x, 0) == x
  {
    if x != 0 { OrZero(x / 2); }
  }

  lemma JoinRange(hi: int, lo: int, m: nat, k: nat)
    requires 0 <= hi < Pow2(m) && 0 <= lo < Pow2(k)
    ensures 0 <= hi * Pow2(k) + lo < Pow2(m + k)
  {
    Pow2Add(m, k);
    MulMono(hi, Pow2(m) - 1, Pow2(k));
    assert (Pow2(m) - 1) * Pow2(k) == Pow2(m) * Pow2(k) - Pow2(k);
    MulMono(0, hi, Pow2(k));
  }

  /** `times` copies of the s-bit value v side by side. */
  function Repeated(v: int, s: nat, times: nat): int {
    if times == 0 then 0 else Repeated(v, s, times - 1) * Pow2(s) + v
  }

  lemma {:induction false} RepeatedRange(v: int, s: nat, times: nat)
    requires 0 <= v < Pow2(s)
    ensures 0 <= Repeated(v, s, times) < Pow2(s * times)
  {
    if times > 0 {
      RepeatedRange(v, s, times - 1);
      JoinRange(Repeated(v, s, times - 1), v, s * (times - 1), s);
      assert s * (times - 1) + s == s * times;
    }
  }

  /** Bit i of the repetition is bit i mod s of the pattern. */
  lemma {:induction false} RepeatedBit(v: int, s: nat, times: nat, i: nat)
    requires 0 < s && 0 <= v < Pow2(s)
    ensures Bit(Repeated(v, s, times), i) == (i < s * times && Bit(v, i % s))
    decreases times
  {
    if times == 0 {
      BitZero(i);
    } else {
      BitJoin(Repeated(v, s, times - 1), v, s, i);
      assert s * times == s * (times - 1) + s;
      if i < s {
        SmallMod(i, s);
        MulMono(0, times - 1, s);
      } else {
        RepeatedBit(v, s, times - 1, i - s);
        ModShift(i - s, 1, s);
      }
    }
  }

  method ReplicateBits(op1: Lbits, op2: nat) returns (rop: Lbits)
    requires op1.Valid()
    ensures rop.Valid() && rop.len == op1.len * op2 && rop.bits == Repeated(op1.bits, op1.len, op2)
  {
    rop := Lbits(op1.len * op2, 0);
    for i := 0 to op2
      invariant rop.len == op1.len * op2
      invariant rop.bits == Repeated(op1.bits, op1.len, i)
    {
      RepeatedRange(op1.bits, op1.len, i);
      rop := rop.(bits := rop.bits * Pow2(op1.len));
      OrJoin(Repeated(op1.bits, op1.len, i), op1.bits, op1.len);
      rop := rop.(bits := Or(rop.bits, op1.bits));
    }
    RepeatedRange(op1.bits, op1.len, op2);
  }

  /** 64-bit left shift of the machine-word variants. */
  function Shl64(x: int, k: nat): int { (x * Pow2(k)) % WORD }

  /** The word variant: each round ors a shifted copy of everything so far, re-oring the
      earlier copies onto themselves, and still agrees with `replicate_bits`. */
  method FastReplicateBits(shift: nat, v: int, times: nat) returns (r: int)
    requires times >= 1 && shift * times <= 64 && 0 <= v < Pow2(shift)
    ensures r == Repeated(v, shift, times)
  {
    r := v;
    assert Repeated(v, shift, 0) == 0;
    assert Repeated(v, shift, 1) == v by { assert 0 * Pow2(shift) == 0; }
    for i := 1 to times
      invariant r == Repeated(v, shift, i)
    {
      OverlapGrows(v, shift, i, times);
      r := Or(r, Shl64(r, shift));
    }
  }

  lemma OverlapGrows(v: int, s: nat, i: nat, times: nat)
    requires 1 <= i < times && s * times <= 64 && 0 <= v < Pow2(s)
    ensures var r := Repeated(v, s, i); Or(r, Shl64(r, s)) == Repeated(v, s, i + 1)
  {
    var r, r' := Repeated(v, s, i), Repeated(v, s, i + 1);
    RepeatedRange(v, s, i);
    RepeatedRange(v, s, i + 1);
    MulMono(i + 1, times, s);
    assert s * (i + 1) == (i + 1) * s && s * times == times * s && s * (i + 1) == s * i + s;
    Pow2Mono(s * i, s * (i + 1));
    Pow2Mono(s * (i + 1), 64);
    ShiftedRange(r, s, s * i);
    WordIsPow2();
    SmallMod(r * Pow2(s), WORD);
    if s == 0 {
      RepeatedZero(i);
      RepeatedZero(i + 1);
    } else {
      BitwiseRange(OrOp, r, r * Pow2(s), s * (i + 1));
      forall j: nat | j < s * (i + 1) ensures Bit(Or(r, r * Pow2(s)), j) == Bit(r', j) {
        OverlapBit(v, s, i, j);
      }
      BitsEqual(Or(r, r * Pow2(s)), r', s * (i + 1));
    }
  }

  lemma {:induction false} RepeatedZero(times: nat)
    ensures Repeated(0, 0, times) == 0
  {
    if times > 0 { RepeatedZero(times - 1); }
  }

  lemma ShiftedRange(r: int, s: nat, n: nat)
    requires 0 <= r < Pow2(n)
    ensures 0 <= r * Pow2(s) < Pow2(n + s)
  {
    JoinRange(r, 0, n, s);
  }

  lemma OverlapBit(v: int, s: nat, i: nat, j: nat)
    requires 1 <= i && 0 < s && 0 <= v < Pow2(s) && j < s * (i + 1)
    ensures var r := Repeated(v, s, i);
            Bit(Or(r, r * Pow2(s)), j) == Bit(Repeated(v, s, i + 1), j)
  {
    var r := Repeated(v, s, i);
    BitwiseBit(OrOp, r, r * Pow2(s), j);
    BitJoin(r, 0, s, j);
    BitZero(j);
    RepeatedBit(v, s, i, j);
    RepeatedBit(v, s, i + 1, j);
    if j >= s {
      RepeatedBit(v, s, i, j - s);
      ModShift(j - s, 1, s);
    } else {
      MulMono(1, i, s);
    }
    assert s * (i + 1) == s * i + s && s * i == i * s;
  }
}
