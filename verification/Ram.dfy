/** The RAM builtins of lib/rts.c over the block lists: multi-byte reads and writes, tags, and
    whole runs of accesses. */
module Ram {
  import opened Ints
  import opened SailBits
  import opened Rts

  /** A total byte map. */
  predicate Total(m: map<int, Byte>) { forall a: Address :: a in m }

  /** 64-bit address arithmetic wraps. */
  function Wrap(a: int): (w: Address) { a % WORD }

  /** Byte k of a value, least significant first. */
  function ByteOf(v: int, k: nat): Byte
    decreases k
  {
    if k == 0 then v % 256 else ByteOf(v / 256, k - 1)
  }

  /** Memory after storing bytes i .. n-1 of an access at addr, where v holds the bytes still to be stored. */
  function StoredFrom(m: map<int, Byte>, addr: int, n: nat, i: nat, v: int): (r: map<int, Byte>)
    requires Total(m)
    ensures Total(r)
    decreases n - i
  {
    if i >= n then m else StoredFrom(m[Wrap(addr + i) := v % 256], addr, n, i + 1, v / 256)
  }

  /** Memory after storing the n low bytes of v at addr, little-endian. */
  function Stored(m: map<int, Byte>, addr: int, n: nat, v: int): (r: map<int, Byte>)
    requires Total(m)
    ensures Total(r)
  {
    StoredFrom(m, addr, n, 0, v)
  }

  /** The value of bytes i .. n-1 of an access at addr. */
  function LoadedFrom(m: map<int, Byte>, addr: int, n: nat, i: nat): (v: nat)
    requires Total(m)
    decreases n - i
  {
    if i >= n then 0 else m[Wrap(addr + i)] + 256 * LoadedFrom(m, addr, n, i + 1)
  }

  /** The n-byte little-endian value at addr. */
  function Loaded(m: map<int, Byte>, addr: int, n: nat): (v: nat)
    requires Total(m)
  {
    LoadedFrom(m, addr, n, 0)
  }

  /** Address a is byte i of an access at addr exactly when its wrapped distance from addr is i. */
  lemma WrapOffset(addr: int, i: nat, a: Address)
    requires i < WORD
    ensures Wrap(addr + i) == a <==> Wrap(a - addr) == i
  {
    var q, r := addr / WORD, addr % WORD;
    DivModForm(addr, WORD);
    ModShift(r + i, q, WORD);
    ModShift(a - r, -q, WORD);
    if r + i < WORD { SmallMod(r + i, WORD); } else { ModLess(r + i, WORD); SmallMod(r + i - WORD, WORD); }
    if a >= r { SmallMod(a - r, WORD); } else { ModShift(a - r, 1, WORD); SmallMod(a - r + WORD, WORD); }
  }

  lemma {:induction false} StoredFromAt(m: map<int, Byte>, addr: int, n: nat, i: nat, v: int, a: Address)
    requires Total(m) && n <= WORD
    ensures StoredFrom(m, addr, n, i, v)[a]
         == if i <= Wrap(a - addr) < n then ByteOf(v, Wrap(a - addr) - i) else m[a]
    decreases n - i
  {
    if i < n {
      StoredFromAt(m[Wrap(addr + i) := v % 256], addr, n, i + 1, v / 256, a);
      WrapOffset(addr, i, a);
    }
  }

  /** Pointwise meaning of a store: exactly the n addresses from addr on (wrapping) change. */
  lemma StoredAt(m: map<int, Byte>, addr: int, n: nat, v: int, a: Address)
    requires Total(m) && n <= WORD
    ensures Stored(m, addr, n, v)[a] == if InRange(a, addr, n) then ByteOf(v, Wrap(a - addr)) else m[a]
  {
    StoredFromAt(m, addr, n, 0, v, a);
  }

  lemma {:induction false} StoredKeys(m: map<int, Byte>, addr: int, n: nat, i: nat, v: int)
    requires Total(m)
    ensures StoredFrom(m, addr, n, i, v).Keys == m.Keys
    ensures forall k :: k in m && !(0 <= k < WORD) ==> StoredFrom(m, addr, n, i, v)[k] == m[k]
    decreases n - i
  {
    if i < n { StoredKeys(m[Wrap(addr + i) := v % 256], addr, n, i + 1, v / 256); }
  }

  lemma {:induction false} LoadAfterStoreFrom(m: map<int, Byte>, addr: int, n: nat, i: nat, v: int)
    requires Total(m) && i <= n <= WORD
    ensures LoadedFrom(StoredFrom(m, addr, n, i, v), addr, n, i) == v % Pow2(8 * (n - i))
    decreases n - i
  {
    if i < n {
      var m' := m[Wrap(addr + i) := v % 256];
      LoadAfterStoreFrom(m', addr, n, i + 1, v / 256);
      StoredFromAt(m', addr, n, i + 1, v / 256, Wrap(addr + i));
      WrapOffset(addr, i, Wrap(addr + i));
      SplitByte(v, n - i);
    }
  }

  /** What is written is what is read back, truncated to the access size; the address may wrap. */
  lemma LoadAfterStore(m: map<int, Byte>, addr: int, n: nat, v: int)
    requires Total(m) && n <= WORD
    ensures Loaded(Stored(m, addr, n, v), addr, n) == v % Pow2(8 * n)
  {
    LoadAfterStoreFrom(m, addr, n, 0, v);
  }

  /** Whether address a is one of the n addresses from addr on. */
  predicate InRange(a: Address, addr: int, n: nat) { Wrap(a - addr) < n }

  ghost predicate Disjoint(a1: int, n1: nat, a2: int, n2: nat) {
    forall a: Address :: !(InRange(a, a1, n1) && InRange(a, a2, n2))
  }

  /** Stores to disjoint ranges commute. */
  lemma DisjointStoresCommute(m: map<int, Byte>, a1: int, n1: nat, v1: int, a2: int, n2: nat, v2: int)
    requires Total(m) && n1 <= WORD && n2 <= WORD && Disjoint(a1, n1, a2, n2)
    ensures Stored(Stored(m, a1, n1, v1), a2, n2, v2) == Stored(Stored(m, a2, n2, v2), a1, n1, v1)
  {
    var s1, s2 := Stored(m, a1, n1, v1), Stored(m, a2, n2, v2);
    StoredKeys(m, a1, n1, 0, v1);
    StoredKeys(m, a2, n2, 0, v2);
    StoredKeys(s1, a2, n2, 0, v2);
    StoredKeys(s2, a1, n1, 0, v1);
    forall a: Address ensures Stored(s1, a2, n2, v2)[a] == Stored(s2, a1, n1, v1)[a] {
      assert !(InRange(a, a1, n1) && InRange(a, a2, n2));
      StoredTwice(m, a1, n1, v1, a2, n2, v2, a);
      StoredTwice(m, a2, n2, v2, a1, n1, v1, a);
    }
  }

  /** The later of two stores wins. */
  lemma StoredTwice(m: map<int, Byte>, a1: int, n1: nat, v1: int, a2: int, n2: nat, v2: int, a: Address)
    requires Total(m) && n1 <= WORD && n2 <= WORD
    ensures Stored(Stored(m, a1, n1, v1), a2, n2, v2)[a]
         == if InRange(a, a2, n2) then ByteOf(v2, Wrap(a - a2))
            else if InRange(a, a1, n1) then ByteOf(v1, Wrap(a - a1)) else m[a]
  {
    StoredAt(m, a1, n1, v1, a);
    StoredAt(Stored(m, a1, n1, v1), a2, n2, v2, a);
  }

  // ----- the builtins -----

  /** Byte i of a multi-byte store: the low byte of `buf` goes to a wrapping address. */
  method PutByte(mem: BlockList<Byte>, addr: int, ghost n: nat, i: nat, buf: int)
    requires mem.Valid() && i < n
    modifies mem.Repr()
    ensures mem.Valid() && fresh(mem.Repr() - old(mem.Repr()))
    ensures StoredFrom(mem.contents, addr, n, i + 1, buf / 256) == StoredFrom(old(mem.contents), addr, n, i, buf)
  {
    var byte := And(buf % WORD, 0xFF);
    LowByte(buf);
    mem.Write((addr + i) % WORD, byte);
  }

  lemma LowByte(x: int)
    ensures And(x % WORD, 0xFF) == x % 256
  {
    assert Pow2(8) == 256;
    AndLowMask(x % WORD, 8);
    DivModForm(x, WORD);
    ModShift(x % WORD, x / WORD * (WORD / 256), 256);
  }

  /** The loop of `write_ram`: peel off low bytes and store them at consecutive wrapping addresses. */
  method WriteBytes(mem: BlockList<Byte>, addr: int, dataSize: nat, data: int)
    requires mem.Valid()
    modifies mem.Repr()
    ensures mem.Valid() && fresh(mem.Repr() - old(mem.Repr()))
    ensures mem.contents == Stored(old(mem.contents), addr, dataSize, data)
  {
    ghost var goal := Stored(mem.contents, addr, dataSize, data);
    var buf := data;
    for i := 0 to dataSize
      invariant mem.Valid() && fresh(mem.Repr() - old(mem.Repr()))
      invariant StoredFrom(mem.contents, addr, dataSize, i, buf) == goal
    {
      PutByte(mem, addr, dataSize, i, buf);
      buf := buf / 256;
    }
  }

  /** `write_ram`. */
  method WriteRam(mem: BlockList<Byte>, dataSizeMpz: nat, addrBv: Lbits, data: Lbits) returns (ok: bool)
    requires mem.Valid() && addrBv.Valid() && data.Valid()
    modifies mem.Repr()
    ensures ok && mem.Valid() && fresh(mem.Repr() - old(mem.Repr()))
    ensures mem.contents == Stored(old(mem.contents), Wrap(addrBv.bits), Wrap(dataSizeMpz), data.bits)
  {
    WriteBytes(mem, addrBv.bits % WORD, dataSizeMpz % WORD, data.bits);
    return true;
  }

  /** Byte i - 1 of an access, which the value of bytes i .. n-1 lacks. */
  method NextByte(mem: BlockList<Byte>, addr: int, ghost n: nat, i: nat) returns (byte: Byte)
    requires mem.Valid() && 0 < i <= n
    ensures LoadedFrom(mem.contents, addr, n, i - 1) == LoadedFrom(mem.contents, addr, n, i) * 256 + byte
  {
    byte := mem.Read(Wrap(addr + (i - 1)));
  }

  /** One round of `read_ram`. */
  method AppendByte(mem: BlockList<Byte>, addr: int, ghost n: nat, i: nat, bits: int) returns (bits': int)
    requires mem.Valid() && 0 < i <= n && bits == LoadedFrom(mem.contents, addr, n, i)
    ensures mem.Valid() && mem.contents == old(mem.contents)
    ensures bits' == LoadedFrom(mem.contents, addr, n, i - 1)
  {
    var byte := NextByte(mem, addr, n, i);
    bits' := bits * 256;
    bits' := bits' + byte;
  }

  /** The loop of `read_ram`: gather bytes from the highest address down. */
  method ReadBytes(mem: BlockList<Byte>, addr: int, dataSize: nat) returns (bits: int)
    requires mem.Valid()
    ensures bits == Loaded(mem.contents, addr, dataSize)
  {
    bits := 0;
    var i := dataSize;
    while i > 0
      invariant 0 <= i <= dataSize
      invariant mem.Valid() && mem.contents == old(mem.contents)
      invariant bits == LoadedFrom(mem.contents, addr, dataSize, i)
    {
      bits := AppendByte(mem, addr, dataSize, i, bits);
      i := i - 1;
    }
  }

  /** `read_ram`. */
  method ReadRam(mem: BlockList<Byte>, dataSizeMpz: nat, addrBv: Lbits) returns (data: Lbits)
    requires mem.Valid() && addrBv.Valid()
    ensures data.Valid()
    ensures data == Lbits(8 * Wrap(dataSizeMpz), Loaded(mem.contents, Wrap(addrBv.bits), Wrap(dataSizeMpz)))
  {
    var dataSize: nat := Wrap(dataSizeMpz);
    var bits := ReadBytes(mem, Wrap(addrBv.bits), dataSize);
    data := Lbits(dataSize * 8, bits);
    LoadedRange(mem.contents, Wrap(addrBv.bits), dataSize, 0);
  }

  lemma {:induction false} LoadedRange(m: map<int, Byte>, addr: int, n: nat, i: nat)
    requires Total(m) && i <= n
    ensures LoadedFrom(m, addr, n, i) < Pow2(8 * (n - i))
    decreases n - i
  {
    if i < n {
      LoadedRange(m, addr, n, i + 1);
      NextPower(n - i);
    }
  }

  lemma NextPower(k: nat)
    requires k > 0
    ensures Pow2(8 * k) == 256 * Pow2(8 * (k - 1))
  {
    assert Pow2(8) == 256;
    Pow2Add(8, 8 * (k - 1));
  }

  /** The loop of `fast_read_ram` on a 64-bit word. */
  method FastReadBytes(mem: BlockList<Byte>, addr: Address, dataSize: nat) returns (r: int)
    requires mem.Valid()
    ensures r == Loaded(mem.contents, addr, dataSize) % WORD
  {
    r := 0;
    var i := dataSize;
    SmallMod(0, WORD);
    while i > 0
      invariant 0 <= i <= dataSize
      invariant mem.Valid() && mem.contents == old(mem.contents)
      invariant r == LoadedFrom(mem.contents, addr, dataSize, i) % WORD
    {
      r := PushByte(mem, addr, dataSize, i, r);
      i := i - 1;
    }
  }

  /** One round of `fast_read_ram`: a shift and an addition modulo 2^64. */
  method PushByte(mem: BlockList<Byte>, addr: int, ghost n: nat, i: nat, r: int) returns (r': int)
    requires mem.Valid() && 0 < i <= n && r == LoadedFrom(mem.contents, addr, n, i) % WORD
    ensures mem.Valid() && mem.contents == old(mem.contents)
    ensures r' == LoadedFrom(mem.contents, addr, n, i - 1) % WORD
  {
    var byte := NextByte(mem, addr, n, i);
    r' := PushWord(r, byte, LoadedFrom(mem.contents, addr, n, i));
  }

  method PushWord(r: int, byte: Byte, ghost v: nat) returns (r': int)
    requires r == v % WORD
    ensures r' == (v * 256 + byte) % WORD
  {
    r' := Shl64(r, 8);
    r' := Wrap(r' + byte);
    assert Pow2(8) == 256;
    PushedByte(v, byte, WORD, v % WORD, v % WORD * 256 % WORD);
  }

  lemma PushedByte(v: nat, byte: int, m: int, r: int, s: int)
    requires m > 0 && r == v % m && s == r * 256 % m
    ensures (s + byte) % m == (v * 256 + byte) % m
  {
    DivModForm(v, m);
    DivModForm(r * 256, m);
    var q, k := v / m, r * 256 / m;
    ModShift(s + byte, k, m);
    ModShift(r * 256 + byte, 256 * q, m);
    assert 256 * q * m == 256 * (q * m);
  }

  /** `fast_read_ram`: the low 64 bits of what `read_ram` loads, so the same for up to eight bytes. */
  method FastReadRam(mem: BlockList<Byte>, dataSize: nat, addr: Address) returns (res: Lbits)
    requires mem.Valid()
    ensures res.Valid() && res.len == 8 * dataSize
    ensures res.bits == Loaded(mem.contents, addr, dataSize) % WORD
    ensures dataSize <= 8 ==> res.bits == Loaded(mem.contents, addr, dataSize)
  {
    var r := FastReadBytes(mem, addr, dataSize);
    LowWord(mem.contents, addr, dataSize);
    res := Lbits(dataSize * 8, r);
  }

  lemma LowWord(m: map<int, Byte>, addr: int, n: nat)
    requires Total(m)
    ensures 0 <= Loaded(m, addr, n) % WORD < Pow2(8 * n)
    ensures n <= 8 ==> Loaded(m, addr, n) % WORD == Loaded(m, addr, n)
  {
    LoadedRange(m, addr, n, 0);
    WordIsPow2();
    if n <= 8 {
      Pow2Mono(8 * n, 64);
      SmallMod(Loaded(m, addr, n), WORD);
    } else {
      Pow2Mono(64, 8 * n);
      DivModForm(Loaded(m, addr, n), WORD);
    }
  }

  // ----- whole runs -----

  datatype Access = WriteByte(addr: Address, byte: Byte) | WriteTag(addr: Address, tag: bool)

  ghost function ReplayBytes(m: map<int, Byte>, ops: seq<Access>): map<int, Byte> {
    if ops == [] then m
    else
      var m' := ReplayBytes(m, ops[..|ops| - 1]);
      match ops[|ops| - 1] case WriteByte(a, b) => m'[a := b] case WriteTag(_, _) => m'
  }

  ghost function ReplayTags(m: map<int, bool>, ops: seq<Access>): map<int, bool> {
    if ops == [] then m
    else
      var m' := ReplayTags(m, ops[..|ops| - 1]);
      match ops[|ops| - 1] case WriteByte(_, _) => m' case WriteTag(a, t) => m'[a := t]
  }

  /** i is the last access of the run that writes a byte at a. */
  ghost predicate LastByteWrite(ops: seq<Access>, a: Address, i: nat) {
    && i < |ops| && ops[i].WriteByte? && ops[i].addr == a
    && forall j :: i < j < |ops| && ops[j].WriteByte? ==> ops[j].addr != a
  }

  /** After any run an address holds the last byte written there, whatever tags were written. */
  lemma {:induction false} LastWriteWins(m: map<int, Byte>, ops: seq<Access>, a: Address)
    requires Total(m)
    ensures a in ReplayBytes(m, ops)
    ensures forall i: nat :: LastByteWrite(ops, a, i) ==> ReplayBytes(m, ops)[a] == ops[i].byte
    ensures (forall i :: 0 <= i < |ops| && ops[i].WriteByte? ==> ops[i].addr != a) ==> ReplayBytes(m, ops)[a] == m[a]
    decreases |ops|
  {
    if ops != [] {
      var n := |ops| - 1;
      LastWriteWins(m, ops[..n], a);
      forall i: nat | LastByteWrite(ops, a, i) ensures ReplayBytes(m, ops)[a] == ops[i].byte {
        if i < n { assert LastByteWrite(ops[..n], a, i); }
      }
    }
  }

  /** Bytes and tags of one machine. */
  class Memory {
    const bytes: BlockList<Byte>
    const tags: BlockList<bool>

    ghost predicate Valid()
      reads this, Repr()
    {
      && bytes.Valid() && tags.Valid()
      && bytes.Repr() !! tags.Repr()
    }

    ghost function Repr(): set<object>
      reads bytes, tags
    {
      bytes.Repr() + tags.Repr()
    }

    constructor ()
      ensures Valid() && fresh(bytes) && fresh(tags)
      ensures forall a: Address :: bytes.contents[a] == 0 && !tags.contents[a]
    {
      bytes := new BlockList<Byte>(0);
      tags := new BlockList<bool>(false);
    }

    method WriteMem(address: Address, byte: Byte)
      requires Valid()
      modifies bytes.Repr()
      ensures Valid() && fresh(Repr() - old(Repr()))
      ensures bytes.contents == old(bytes.contents)[address := byte]
      ensures tags.contents == old(tags.contents)
    {
      bytes.Write(address, byte);
    }

    method WriteTagBool(address: Address, tag: bool)
      requires Valid()
      modifies tags.Repr()
      ensures Valid() && fresh(Repr() - old(Repr()))
      ensures tags.contents == old(tags.contents)[address := tag]
      ensures bytes.contents == old(bytes.contents)
    {
      tags.Write(address, tag);
    }

    /** Any run of writes from any state: block ids stay distinct and aligned (`Valid`), and bytes
        and tags are those of the replay. */
    method Run(ops: seq<Access>)
      requires Valid()
      modifies Repr()
      ensures Valid() && fresh(Repr() - old(Repr()))
      ensures bytes.contents == ReplayBytes(old(bytes.contents), ops)
      ensures tags.contents == ReplayTags(old(tags.contents), ops)
    {
      for i := 0 to |ops|
        invariant Valid() && fresh(Repr() - old(Repr()))
        invariant bytes.contents == ReplayBytes(old(bytes.contents), ops[..i])
        invariant tags.contents == ReplayTags(old(tags.contents), ops[..i])
      {
        assert ops[..i + 1][..i] == ops[..i];
        match ops[i]
        case WriteByte(a, b) => WriteMem(a, b);
        case WriteTag(a, t) => WriteTagBool(a, t);
      }
      assert ops[..|ops|] == ops;
    }
  }
}
