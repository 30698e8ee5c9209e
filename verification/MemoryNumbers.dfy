/** Memory as numbers: what the bytes from an address on stand for in either byte order, and that the reads and
    writes of the ARMv8 model move exactly these numbers (aarch64_small/armV8_A64_lib.sail, lib/rts.c). */
module MemoryNumbers {
  import opened Ints
  import opened BitVectors
  import opened SwapNetwork
  import opened Rts
  import opened Ram
  import opened MemAccess

  /** The number in the n bytes from a on. One more byte is the next lower digit in big-endian memory, the next
      higher one in little-endian memory; addresses wrap. */
  function Number(bigEndian: bool, m: Mem, a: int, n: nat): (v: nat) {
    if n == 0 then 0
    else
      var last := m[Wrap(a + n - 1)];
      var others := Number(bigEndian, m, a, n - 1);
      if bigEndian then 256 * others + last else last * Pow2(8 * (n - 1)) + others
  }

  lemma {:induction false} NumberRange(bigEndian: bool, m: Mem, a: int, n: nat)
    ensures Number(bigEndian, m, a, n) < Pow2(8 * n)
  {
    if n > 0 {
      var p := Pow2(8 * (n - 1));
      NumberRange(bigEndian, m, a, n - 1);
      Pow2Byte(n);
      MulMono(m[Wrap(a + n - 1)], 255, p);
    }
  }

  lemma Pow2Byte(n: nat)
    requires n > 0
    ensures Pow2(8 * n) == 256 * Pow2(8 * (n - 1))
  {
    assert Pow2(8) == 256;
    Pow2Add(8, 8 * (n - 1));
  }

  /** A byte below a number. */
  lemma ByteBelow(number: nat, byte: Byte, k: nat)
    ensures Bit(256 * number + byte, k) == if k < 8 then Bit(byte, k) else Bit(number, k - 8)
  {
    assert Pow2(8) == 256;
    BitJoin(number, byte, 8, k);
  }

  /** The address of the byte that holds bit k. */
  function ByteAddress(bigEndian: bool, a: int, n: nat, k: nat): Address {
    Wrap(if bigEndian then a + n - 1 - k / 8 else a + k / 8)
  }

  /** Bit k of the number is one bit of one byte. */
  lemma {:induction false} NumberBit(bigEndian: bool, m: Mem, a: int, n: nat, k: nat)
    requires k < 8 * n
    ensures Bit(Number(bigEndian, m, a, n), k) == Bit(m[ByteAddress(bigEndian, a, n, k)], k % 8)
  {
    if bigEndian {
      BigNumberBit(m, a, n, k);
    } else {
      LittleNumberBit(m, a, n, k);
    }
  }

  lemma {:induction false} BigNumberBit(m: Mem, a: int, n: nat, k: nat)
    requires k < 8 * n
    ensures Bit(Number(true, m, a, n), k) == Bit(m[ByteAddress(true, a, n, k)], k % 8)
  {
    ByteBelow(Number(true, m, a, n - 1), m[Wrap(a + n - 1)], k);
    if k >= 8 {
      BigNumberBit(m, a, n - 1, k - 8);
      NextDigit(k);
    }
  }

  lemma NextDigit(k: nat)
    requires k >= 8
    ensures (k - 8) / 8 == k / 8 - 1 && (k - 8) % 8 == k % 8
  {
  }

  lemma {:induction false} LittleNumberBit(m: Mem, a: int, n: nat, k: nat)
    requires k < 8 * n
    ensures Bit(Number(false, m, a, n), k) == Bit(m[ByteAddress(false, a, n, k)], k % 8)
  {
    NumberRange(false, m, a, n - 1);
    BitJoin(m[Wrap(a + n - 1)], Number(false, m, a, n - 1), 8 * (n - 1), k);
    if k < 8 * (n - 1) { LittleNumberBit(m, a, n - 1, k); } else { LastDigit(n, k); }
  }

  lemma LastDigit(n: nat, k: nat)
    requires 8 * (n - 1) <= k < 8 * n
    ensures k / 8 == n - 1 && k - 8 * (n - 1) == k % 8
  {
  }

  lemma {:induction false} LoadedBit(m: Mem, a: int, n: nat, i: nat, k: nat)
    requires i <= n && k < 8 * (n - i)
    ensures Bit(LoadedFrom(m, a, n, i), k) == Bit(m[Wrap(a + i + k / 8)], k % 8)
    decreases n - i
  {
    ByteBelow(LoadedFrom(m, a, n, i + 1), m[Wrap(a + i)], k);
    if k >= 8 {
      LoadedBit(m, a, n, i + 1, k - 8);
      NextDigit(k);
    }
  }

  /** A load delivers the number in memory. */
  lemma LoadedNumber(bigEndian: bool, m: Mem, a: int, n: nat)
    requires ByteWidth(8 * n)
    ensures UInt(Oriented(bigEndian, ToBits(8 * n, Loaded(m, a, n)))) == Number(bigEndian, m, a, n)
  {
    var x := ToBits(8 * n, Loaded(m, a, n));
    var r := Oriented(bigEndian, x);
    UIntRange(r);
    NumberRange(bigEndian, m, a, n);
    forall k: nat | k < 8 * n ensures Bit(UInt(r), k) == Bit(Number(bigEndian, m, a, n), k) {
      UIntBit(r, k);
      NumberBit(bigEndian, m, a, n, k);
      OrientedBit(bigEndian, m, a, n, x, k);
    }
    BitsEqual(UInt(r), Number(bigEndian, m, a, n), 8 * n);
  }

  lemma OrientedBit(bigEndian: bool, m: Mem, a: int, n: nat, x: Bits, k: nat)
    requires ByteWidth(|x|) && |x| == 8 * n && k < 8 * n && x == ToBits(8 * n, Loaded(m, a, n))
    ensures Oriented(bigEndian, x)[k] == Bit(m[ByteAddress(bigEndian, a, n, k)], k % 8)
  {
    if bigEndian {
      BigEndianBit(x, k);
      MirroredByte(n, k);
      ValueBit(m, a, n, x, ByteIndex(8 * n, k));
    } else {
      ValueBit(m, a, n, x, k);
    }
  }

  lemma BigEndianBit(x: Bits, k: nat)
    requires ByteWidth(|x|) && k < |x|
    ensures BigEndianReverse(x)[k] == x[ByteIndex(|x|, k)]
  {
    BigEndianReverseBytes(x);
  }

  lemma ValueBit(m: Mem, a: int, n: nat, x: Bits, k: nat)
    requires k < 8 * n && x == ToBits(8 * n, Loaded(m, a, n))
    ensures x[k] == Bit(m[Wrap(a + k / 8)], k % 8)
  {
    LoadedBit(m, a, n, 0, k);
  }

  lemma MirroredByte(n: nat, k: nat)
    requires k < 8 * n
    ensures var j := ByteIndex(8 * n, k); j / 8 == n - 1 - k / 8 && j % 8 == k % 8
  {
    DivModUnique(ByteIndex(8 * n, k), 8, n - 1 - k / 8, k % 8);
  }

  /** A number of n + k bytes is made of two, the first the higher one in big-endian memory. */
  lemma NumberSplit(bigEndian: bool, m: Mem, a: int, n: nat, k: nat)
    ensures var (first, second) := (Number(bigEndian, m, a, n), Number(bigEndian, m, a + n, k));
            Number(bigEndian, m, a, n + k)
            == if bigEndian then second + first * Pow2(8 * k) else first + second * Pow2(8 * n)
  {
    if bigEndian { BigNumberSplit(m, a, n, k); } else { LittleNumberSplit(m, a, n, k); }
  }

  lemma {:induction false} BigNumberSplit(m: Mem, a: int, n: nat, k: nat)
    ensures Number(true, m, a, n + k) == Number(true, m, a + n, k) + Number(true, m, a, n) * Pow2(8 * k)
    decreases k
  {
    if k > 0 {
      BigNumberSplit(m, a, n, k - 1);
      Pow2Byte(k);
      ScaledByByte(Number(true, m, a, n), Pow2(8 * (k - 1)));
      assert a + n + k - 1 == a + (n + k) - 1;
    }
  }

  lemma ScaledByByte(x: int, p: int)
    ensures x * (256 * p) == 256 * (x * p)
  {
  }

  lemma {:induction false} LittleNumberSplit(m: Mem, a: int, n: nat, k: nat)
    ensures Number(false, m, a, n + k) == Number(false, m, a, n) + Number(false, m, a + n, k) * Pow2(8 * n)
    decreases k
  {
    if k > 0 {
      var last := m[Wrap(a + n + k - 1)];
      LittleNumberSplit(m, a, n, k - 1);
      assert a + n + k - 1 == a + (n + k) - 1;
      Pow2Sum(8 * (k - 1), 8 * n, 8 * (n + k - 1));
      JoinedHigh(last, Pow2(8 * (k - 1)), Number(false, m, a + n, k - 1), Pow2(8 * n));
    }
  }

  lemma Pow2Sum(x: nat, y: nat, z: nat)
    requires z == x + y
    ensures Pow2(z) == Pow2(x) * Pow2(y)
  {
    Pow2Add(x, y);
  }

  lemma JoinedHigh(last: int, p: int, second: int, q: int)
    ensures (last * p + second) * q == last * (p * q) + second * q
  {
  }

  lemma {:induction false} NumberWraps(bigEndian: bool, m: Mem, a: int, n: nat)
    ensures Number(bigEndian, m, Wrap(a), n) == Number(bigEndian, m, a, n)
  {
    if n > 0 {
      NumberWraps(bigEndian, m, a, n - 1);
      NextAddress(a, 0, Wrap(a), n - 1);
    }
  }

  /** The halves of a bit vector from the halves of its number. */
  lemma HalvesOf(x: Bits, k: nat, lo: nat, hi: nat)
    requires k <= |x| && UInt(x) == lo + hi * Pow2(k) && lo < Pow2(k)
    ensures UInt(x[..k]) == lo && UInt(x[k..]) == hi
  {
    assert x == x[..k] + x[k..];
    UIntAppend(x[..k], x[k..]);
    UIntRange(x[..k]);
    DivModUnique(UInt(x), Pow2(k), hi, lo);
    DivModUnique(UInt(x), Pow2(k), UInt(x[k..]), UInt(x[..k]));
  }

  /** The halves of a load twice as wide: the lower one comes from the lower address in little-endian memory, from
      the higher address in big-endian memory. */
  lemma LoadedHalves(bigEndian: bool, m: Mem, a: int, n: nat)
    requires ByteWidth(16 * n)
    ensures var r := Oriented(bigEndian, ToBits(16 * n, Loaded(m, a, 2 * n)));
            && UInt(r[..8 * n]) == Number(bigEndian, m, if bigEndian then a + n else a, n)
            && UInt(r[8 * n..]) == Number(bigEndian, m, if bigEndian then a else a + n, n)
  {
    var r := Oriented(bigEndian, ToBits(16 * n, Loaded(m, a, 2 * n)));
    LoadedNumber(bigEndian, m, a, 2 * n);
    NumberSplit(bigEndian, m, a, n, n);
    NumberRange(bigEndian, m, a, n);
    NumberRange(bigEndian, m, a + n, n);
    if bigEndian {
      HalvesOf(r, 8 * n, Number(bigEndian, m, a + n, n), Number(bigEndian, m, a, n));
    } else {
      HalvesOf(r, 8 * n, Number(bigEndian, m, a, n), Number(bigEndian, m, a + n, n));
    }
  }

  /** A store puts the number of its value into memory. */
  lemma StoredNumber(bigEndian: bool, m: Mem, a: int, v: Bits, n: nat)
    requires ByteWidth(|v|) && |v| == 8 * n
    ensures Number(bigEndian, Stored(m, a, n, UInt(Oriented(bigEndian, v))), a, n) == UInt(v)
  {
    var m' := Stored(m, a, n, UInt(Oriented(bigEndian, v)));
    LoadStored(m, Wrap(a), n, Oriented(bigEndian, v));
    LoadStoredAt(m, a, n, Oriented(bigEndian, v));
    LoadedNumber(bigEndian, m', a, n);
    OrientedTwice(bigEndian, v);
  }

  lemma LoadStoredAt(m: Mem, a: int, n: nat, v: Bits)
    requires n <= 16 && |v| == 8 * n
    ensures ToBits(8 * n, Loaded(Stored(m, a, n, UInt(v)), a, n)) == v
  {
    LoadAfterStore(m, a, n, UInt(v));
    UIntRange(v);
    SmallMod(UInt(v), Pow2(8 * n));
    ToBitsUInt(v);
  }

  /** Two values stored side by side, each in the byte order of memory. */
  lemma StoredHalves(bigEndian: bool, m: Mem, a: int, v1: Bits, v2: Bits, n: nat)
    requires n in {4, 8} && |v1| == |v2| == 8 * n
    ensures var m' := Stored(m, a, 2 * n, UInt(Halves(bigEndian, v1, v2)));
            Number(bigEndian, m', a, n) == UInt(v1) && Number(bigEndian, m', a + n, n) == UInt(v2)
  {
    var m' := Stored(m, a, 2 * n, UInt(Halves(bigEndian, v1, v2)));
    LoadStoredAt(m, a, 2 * n, Halves(bigEndian, v1, v2));
    LoadedSideBySide(m', a, n);
    assert Halves(bigEndian, v1, v2)[..8 * n] == Oriented(bigEndian, v1);
    assert Halves(bigEndian, v1, v2)[8 * n..] == Oriented(bigEndian, v2);
    LoadedNumber(bigEndian, m', a, n);
    LoadedNumber(bigEndian, m', a + n, n);
    OrientedTwice(bigEndian, v1);
    OrientedTwice(bigEndian, v2);
  }

  lemma LoadedSideBySide(m: Mem, a: int, n: nat)
    ensures var x := ToBits(16 * n, Loaded(m, a, 2 * n));
            x[..8 * n] == ToBits(8 * n, Loaded(m, a, n)) && x[8 * n..] == ToBits(8 * n, Loaded(m, a + n, n))
  {
    var x := ToBits(16 * n, Loaded(m, a, 2 * n));
    forall k: nat | k < 8 * n ensures x[k] == ToBits(8 * n, Loaded(m, a, n))[k] { LowerBit(m, a, n, k); }
    forall k: nat | k < 8 * n ensures x[8 * n..][k] == ToBits(8 * n, Loaded(m, a + n, n))[k] { UpperBit(m, a, n, k); }
  }

  lemma LowerBit(m: Mem, a: int, n: nat, k: nat)
    requires k < 8 * n
    ensures Bit(Loaded(m, a, 2 * n), k) == Bit(Loaded(m, a, n), k)
  {
    LoadedBit(m, a, 2 * n, 0, k);
    LoadedBit(m, a, n, 0, k);
  }

  lemma UpperBit(m: Mem, a: int, n: nat, k: nat)
    requires k < 8 * n
    ensures Bit(Loaded(m, a, 2 * n), 8 * n + k) == Bit(Loaded(m, a + n, n), k)
  {
    LoadedBit(m, a, 2 * n, 0, 8 * n + k);
    LoadedBit(m, a + n, n, 0, k);
    assert (8 * n + k) / 8 == n + k / 8 && (8 * n + k) % 8 == k % 8;
  }

  /** A store changes no byte outside its range. */
  lemma StoredElsewhere(m: Mem, a: int, n: nat, v: int)
    requires n <= 16
    ensures forall b: Address :: !InRange(b, a, n) ==> Stored(m, a, n, v)[b] == m[b]
  {
    forall b: Address | !InRange(b, a, n) ensures Stored(m, a, n, v)[b] == m[b] { StoredAt(m, a, n, v, b); }
  }
}
