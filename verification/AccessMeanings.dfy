/** What loads and stores do, as numbers: which number of memory a register holds after a load, which number memory
    holds after a store, where the access goes and when it is allowed (aarch64_small/armV8.sail). */
module AccessMeanings {
  import opened Wrappers
  import opened Ints
  import opened BitVectors
  import opened CommonLib
  import opened Shifts
  import opened A64Lib
  import opened SwapNetwork
  import opened Rts
  import opened Ram
  import opened MemAccess
  import opened MemoryNumbers
  import opened Instructions
  import opened Semantics
  import FootprintEvents

  // ----- where the access goes -----

  predicate PairForm(i: MemoryOp) { i.LoadStorePair? || i.LoadStorePairNonTemp? || (i.LoadStoreAcqExc? && i.pair) }

  predicate PostIndexed(i: MemoryOp) { !i.LoadLiteral? && !i.LoadStoreAcqExc? && i.postindex }

  predicate WritesBack(i: MemoryOp) { !i.LoadLiteral? && !i.LoadStoreAcqExc? && i.wback }

  /** The number of the PC, the stack pointer or the base register. */
  function Base(i: MemoryOp, s: State): nat {
    if i.LoadLiteral? then UInt(s.pc) else if i.n == 31 then UInt(s.sp) else UInt(s.x[i.n])
  }

  function Displacement(i: MemoryOp, s: State): int {
    if i.LoadStoreAcqExc? then 0
    else if i.LoadRegister? then
      ExtendedNumber(if i.m == 31 then 0 else UInt(s.x[i.m]), i.extendType) * Pow2(i.shift)
    else UInt(i.offset)
  }

  /** The first address of the access: base plus displacement, or the base alone when that is added afterwards. */
  function Location(i: MemoryOp, s: State): Address {
    Wrap(if PostIndexed(i) then Base(i, s) else Base(i, s) + Displacement(i, s))
  }

  lemma PlusNumber(a: Word, b: Word)
    ensures UInt(Plus(a, b)) == Wrap(UInt(a) + UInt(b))
  {
    UIntToBits(64, UInt(a) + UInt(b));
    WordIsPow2();
  }

  lemma WordNumber(w: Word)
    ensures 0 <= UInt(w) < WORD && Wrap(UInt(w)) == UInt(w) && AddressOf(w) == UInt(w)
  {
    UIntRange(w);
    WordIsPow2();
    SmallMod(UInt(w), WORD);
  }

  lemma WholeMask(x: Bits, n: nat)
    requires |x| == n
    ensures Mask(x, n) == x
  {
  }

  lemma BaseNumber(s: State, n: RegIndex)
    ensures UInt(RXorSP(s, n, 64)) == if n == 31 then UInt(s.sp) else UInt(s.x[n])
  {
    if n == 31 { WholeMask(s.sp, 64); } else { WholeMask(s.x[n], 64); }
  }

  lemma IndexNumber(s: State, m: RegIndex)
    ensures UInt(RX(s, m, 64)) == if m == 31 then 0 else UInt(s.x[m])
  {
    if m == 31 { UIntZeros(64); } else { WholeMask(s.x[m], 64); }
  }

  /** The offset that is added, as a bit vector. */
  function OffsetBits(i: MemoryOp, s: State): Word
    requires WellFormedMemory(i) && !i.LoadStoreAcqExc?
  {
    if i.LoadRegister? then ExtendReg(RX(s, i.m, 64), i.extendType, i.shift) else i.offset
  }

  lemma OffsetNumber(i: MemoryOp, s: State)
    requires WellFormedMemory(i) && !i.LoadStoreAcqExc?
    ensures UInt(OffsetBits(i, s)) == Wrap(Displacement(i, s))
  {
    if i.LoadRegister? {
      ExtendRegNumber(RX(s, i.m, 64), i.extendType, i.shift);
      IndexNumber(s, i.m);
      UIntToBits(64, Displacement(i, s));
      WordIsPow2();
    } else {
      WordNumber(i.offset);
    }
  }

  lemma WrapSum(a: int, b: int)
    ensures Wrap(a + Wrap(b)) == Wrap(a + b)
  {
    DivModForm(b, WORD);
    ModShift(a + Wrap(b), b / WORD, WORD);
  }

  lemma PlusOffset(base: Word, i: MemoryOp, s: State)
    requires WellFormedMemory(i) && !i.LoadStoreAcqExc?
    ensures UInt(Plus(base, OffsetBits(i, s))) == Wrap(UInt(base) + Displacement(i, s))
  {
    OffsetNumber(i, s);
    PlusNumber(base, OffsetBits(i, s));
    WrapSum(UInt(base), Displacement(i, s));
  }

  /** The effective address the events show is this location. */
  lemma LocationExact(i: MemoryOp, s: State)
    requires WellFormedMemory(i)
    ensures UInt(FootprintEvents.AccessAddress(i, s)) == Location(i, s)
  {
    if i.LoadLiteral? {
      PlusOffset(s.pc, i, s);
    } else if i.LoadStoreAcqExc? {
      BaseNumber(s, i.n);
      WordNumber(RXorSP(s, i.n, 64));
    } else {
      IndexedAddress(i, s, RXorSP(s, i.n, 64));
    }
  }

  lemma IndexedAddress(i: MemoryOp, s: State, base: Word)
    requires WellFormedMemory(i) && !i.LoadLiteral? && !i.LoadStoreAcqExc? && base == RXorSP(s, i.n, 64)
    ensures UInt(Semantics.Offset(base, OffsetBits(i, s), !i.postindex)) == Location(i, s)
  {
    BaseNumber(s, i.n);
    WordNumber(base);
    PlusOffset(base, i, s);
  }

  // ----- numbers in registers -----

  /** The number the low w bits of register r hold; register 31 reads as zero. */
  function RegisterNumber(s: State, r: RegIndex, w: nat): int { if r == 31 then 0 else UInt(s.x[r]) % Pow2(w) }

  lemma RXNumber(s: State, r: RegIndex, w: nat)
    requires w <= 64
    ensures UInt(RX(s, r, w)) == RegisterNumber(s, r, w)
  {
    if r == 31 { UIntZeros(w); } else { LowBits(s.x[r], w); }
  }

  /** A number read from memory, as a signed load takes it or as it is. */
  function ReadAs(v: nat, bytes: nat, signed: bool): int { if signed then Centred(v, Pow2(8 * bytes)) else v }

  /** Register t holds v modulo 2^w, the bits above being zero: read at width w, signed or unsigned, it is v. */
  predicate Holds(s: State, t: RegIndex, w: nat, v: int, signed: bool)
    requires w <= 64
  {
    t != 31 ==>
      && UInt(s.x[t]) == v % Pow2(w)
      && (if signed then SInt(RX(s, t, w)) == v else UInt(RX(s, t, w)) == v)
  }

  lemma SignExtendedNumber(x: Bits, n: nat)
    requires 0 < |x| <= n
    ensures SInt(SignExtend(x, n)) == SInt(x)
  {
    var k := n - |x|;
    var top := if x[|x| - 1] then Ones(k) else Zeros(k);
    UIntAppend(x, top);
    UIntOnes(k);
    UIntZeros(k);
    Pow2Add(k, |x|);
    TopOnesWeight(Pow2(k), Pow2(|x|));
    if k == 0 { assert SignExtend(x, n) == x; }
  }

  lemma TopOnesWeight(p: int, q: int)
    ensures (p - 1) * q == p * q - q
  {
  }

  /** An extended value reads as the value did. */
  lemma ExtendToReading(x: Bits, n: nat, signed: bool)
    requires 0 < |x| <= n
    ensures if signed then SInt(ExtendTo(x, n, signed)) == SInt(x) else UInt(ExtendTo(x, n, signed)) == UInt(x)
  {
    if signed { SignExtendedNumber(x, n); } else { UIntZeroExtend(x, n); }
  }

  lemma UIntOfSInt(x: Bits)
    requires |x| > 0
    ensures UInt(x) == SInt(x) % Pow2(|x|) && UInt(x) == UInt(x) % Pow2(|x|)
  {
    UIntRange(x);
    SmallMod(UInt(x), Pow2(|x|));
    ModLess(UInt(x), Pow2(|x|));
  }

  /** Writing an extended value to a register. */
  lemma ExtendedHeld(s: State, t: RegIndex, x: Bits, bytes: nat, w: nat, signed: bool)
    requires 0 < |x| == 8 * bytes <= w <= 64
    ensures Holds(WX(s, t, ExtendTo(x, w, signed)), t, w, ReadAs(UInt(x), bytes, signed), signed)
  {
    var e := ExtendTo(x, w, signed);
    ExtendToReading(x, w, signed);
    SIntCentred(x);
    UIntOfSInt(e);
    UIntZeroExtend(e, 64);
    if t != 31 { WrittenReads(s, t, e, w); }
  }

  // ----- loads -----

  /** The width of the register a load fills. */
  function TargetWidth(i: MemoryOp): nat {
    if i.LoadLiteral? then if i.signed then 64 else i.datasize
    else if i.LoadStorePair? then if i.signed then 64 else i.datasize
    else if i.LoadStorePairNonTemp? then i.datasize
    else i.regsize
  }

  predicate Signed(i: MemoryOp) { (i.LoadLiteral? || i.LoadImmediate? || i.LoadRegister? || i.LoadStorePair?)
                                 && i.signed }

  /** The bytes of one register. */
  function UnitBytes(i: MemoryOp): nat { if i.LoadStoreAcqExc? then i.elsize / 8 else i.datasize / 8 }

  /** Register t holds, at width w, the number in the k bytes from address a on. */
  predicate Filled(s': State, t: RegIndex, w: nat, signed: bool, bigEndian: bool, m: Mem, a: int, k: nat)
    requires w <= 64
  {
    Holds(s', t, w, ReadAs(Number(bigEndian, m, a, k), k, signed), signed)
  }

  lemma LoadBitsNumber(c: Config, s: State, address: Word, datasize: nat, acctype: AccType, excl: bool, x: Bits)
    requires DataWidth(datasize)
    requires var load := LoadBits(c, s, address, datasize, acctype, excl); load.Some? && load.value.1 == x
    ensures UInt(x) == Number(c.bigEndian, s.mem, UInt(address), datasize / 8)
  {
    WordNumber(address);
    LoadOneValue(c.checkAlignment, c.bigEndian, s.mem, UInt(address), datasize / 8, acctype, excl);
    LoadedNumber(c.bigEndian, s.mem, UInt(address), datasize / 8);
  }

  lemma ExecLoadHolds(c: Config, s: State, address: Word, datasize: nat, acctype: AccType, excl: bool, t: RegIndex,
                      signed: bool, regsize: nat, o: Outcome)
    requires DataWidth(datasize) && Width(regsize) && datasize <= regsize
    requires o.Done? && o == ExecLoad(c, s, address, datasize, acctype, excl, t, signed, regsize)
    ensures Filled(o.state, t, regsize, signed, c.bigEndian, s.mem, UInt(address), datasize / 8)
  {
    var x := LoadBits(c, s, address, datasize, acctype, excl).value.1;
    LoadBitsNumber(c, s, address, datasize, acctype, excl, x);
    ExtendedHeld(s, t, x, datasize / 8, regsize, signed);
  }

  // ----- how an access runs once it is allowed -----

  /** The state in which the registers of an access are read and written: the base has moved already. */
  function Updated(i: MemoryOp, s: State): State
    requires WellFormedMemory(i) && !i.LoadLiteral? && !i.LoadStoreAcqExc?
  {
    WriteBack(s, i.wback, i.n, Plus(RXorSP(s, i.n, 64), OffsetBits(i, s)))
  }

  lemma SingleRun(c: Config, i: MemoryOp, s: State)
    requires (i.LoadImmediate? || i.LoadRegister?) && WellFormedMemory(i) && ExecMemory(c, i, s).Done?
    ensures ExecMemory(c, i, s)
         == AccessSingle(c, Updated(i, s), i.t, i.acctype, i.memop, i.signed, FootprintEvents.AccessAddress(i, s),
                         i.regsize, i.datasize)
  {
    FootprintEvents.BaseIs(c, s, i.n, i.memop != Prefetch);
  }

  lemma PairRun(c: Config, i: MemoryOp, s: State)
    requires (i.LoadStorePair? || i.LoadStorePairNonTemp?) && WellFormedMemory(i) && ExecMemory(c, i, s).Done?
    ensures ExecMemory(c, i, s)
         == AccessPair(c, Updated(i, s), i.t, i.t2, i.acctype, i.memop, Signed(i), FootprintEvents.AccessAddress(i, s),
                       i.datasize)
    ensures i.memop == Load ==> i.t != i.t2
  {
    FootprintEvents.BaseIs(c, s, i.n, true);
  }

  lemma ExclusiveLoadRun(c: Config, i: MemoryOp, s: State)
    requires i.LoadStoreAcqExc? && WellFormedMemory(i) && i.memop == Load && ExecMemory(c, i, s).Done?
    ensures ExecMemory(c, i, s) == ExecExclusiveLoad(c, s, i, FootprintEvents.AccessAddress(i, s))
    ensures i.pair ==> i.t != i.t2
  {
    FootprintEvents.BaseIs(c, s, i.n, true);
  }

  /** What a single or non-exclusive-pair access does to the base register. */
  lemma UpdatedBase(i: MemoryOp, s: State)
    requires WellFormedMemory(i) && !i.LoadLiteral? && !i.LoadStoreAcqExc? && i.wback
    ensures Base(i, Updated(i, s)) == Wrap(Base(i, s) + Displacement(i, s))
    ensures Updated(i, s).mem == s.mem
  {
    var base: Word := RXorSP(s, i.n, 64);
    BaseNumber(s, i.n);
    PlusOffset(base, i, s);
    WholeWord(Plus(base, OffsetBits(i, s)));
  }

  lemma UpdatedMemory(i: MemoryOp, s: State)
    requires WellFormedMemory(i) && !i.LoadLiteral? && !i.LoadStoreAcqExc?
    ensures Updated(i, s).mem == s.mem
  {
  }

  lemma WholeWord(w: Word)
    ensures ZeroExtend(w, 64) == w
  {
  }

  // ----- loads of one register -----

  /** A load fills its register with the number at its location, read as it says, in the byte order of memory. */
  lemma SingleLoadMeaning(c: Config, i: MemoryOp, s: State)
    requires WellFormedMemory(i) && !PairForm(i) && i.memop == Load && ExecMemory(c, i, s).Done?
    ensures Filled(ExecMemory(c, i, s).state, i.t, TargetWidth(i), Signed(i), c.bigEndian, s.mem, Location(i, s),
                   UnitBytes(i))
  {
    LocationExact(i, s);
    if i.LoadLiteral? {
      LiteralLoad(c, i, s, ExecMemory(c, i, s));
    } else if i.LoadStoreAcqExc? {
      ExclusiveLoad(c, i, s, ExecMemory(c, i, s));
    } else {
      IndexedLoad(c, i, s, ExecMemory(c, i, s));
    }
  }

  lemma LiteralLoad(c: Config, i: MemoryOp, s: State, o: Outcome)
    requires WellFormedMemory(i) && i.LoadLiteral? && i.memop == Load && o.Done? && o == ExecMemory(c, i, s)
    ensures Filled(o.state, i.t, TargetWidth(i), Signed(i), c.bigEndian, s.mem,
                   UInt(FootprintEvents.AccessAddress(i, s)), UnitBytes(i))
  {
    LiteralLoadFrom(c, i, s, Plus(s.pc, i.offset), o);
  }

  lemma LiteralLoadFrom(c: Config, i: MemoryOp, s: State, address: Word, o: Outcome)
    requires WellFormedMemory(i) && i.LoadLiteral? && i.memop == Load && o.Done?
    requires o == ExecLoad(c, s, address, i.datasize, Normal, false, i.t, i.signed,
                           if i.signed then 64 else i.datasize)
    ensures Filled(o.state, i.t, TargetWidth(i), Signed(i), c.bigEndian, s.mem, UInt(address), UnitBytes(i))
  {
    ExecLoadHolds(c, s, address, i.datasize, Normal, false, i.t, i.signed, TargetWidth(i), o);
  }

  lemma ExclusiveLoad(c: Config, i: MemoryOp, s: State, o: Outcome)
    requires WellFormedMemory(i) && i.LoadStoreAcqExc? && !i.pair && i.memop == Load && o.Done?
    requires o == ExecMemory(c, i, s)
    ensures Filled(o.state, i.t, TargetWidth(i), Signed(i), c.bigEndian, s.mem,
                   UInt(FootprintEvents.AccessAddress(i, s)), UnitBytes(i))
  {
    ExclusiveLoadRun(c, i, s);
    ExclusiveLoadFrom(c, i, s, FootprintEvents.AccessAddress(i, s), o);
  }

  lemma ExclusiveLoadFrom(c: Config, i: MemoryOp, s: State, address: Word, o: Outcome)
    requires WellFormedMemory(i) && i.LoadStoreAcqExc? && !i.pair && i.memop == Load && o.Done?
    requires o == ExecExclusiveLoad(c, s, i, address)
    ensures Filled(o.state, i.t, TargetWidth(i), Signed(i), c.bigEndian, s.mem, UInt(address), UnitBytes(i))
  {
    ExecLoadHolds(c, s, address, i.datasize, i.acctype, i.excl, i.t, false, i.regsize, o);
  }

  lemma IndexedLoad(c: Config, i: MemoryOp, s: State, o: Outcome)
    requires WellFormedMemory(i) && (i.LoadImmediate? || i.LoadRegister?) && i.memop == Load && o.Done?
    requires o == ExecMemory(c, i, s)
    ensures Filled(o.state, i.t, TargetWidth(i), Signed(i), c.bigEndian, s.mem,
                   UInt(FootprintEvents.AccessAddress(i, s)), UnitBytes(i))
  {
    SingleRun(c, i, s);
    UpdatedMemory(i, s);
    IndexedLoadFrom(c, i, s, Updated(i, s), FootprintEvents.AccessAddress(i, s), o);
  }

  lemma IndexedLoadFrom(c: Config, i: MemoryOp, s: State, s1: State, address: Word, o: Outcome)
    requires WellFormedMemory(i) && (i.LoadImmediate? || i.LoadRegister?) && i.memop == Load && o.Done?
    requires s1.mem == s.mem
    requires o == AccessSingle(c, s1, i.t, i.acctype, i.memop, i.signed, address, i.regsize, i.datasize)
    ensures Filled(o.state, i.t, TargetWidth(i), Signed(i), c.bigEndian, s.mem, UInt(address), UnitBytes(i))
  {
    ExecLoadHolds(c, s1, address, i.datasize, i.acctype, false, i.t, i.signed, i.regsize, o);
  }

  // ----- loads of two registers -----

  /** Big-endian memory delivers a pair exchanged, except to the two words of an exclusive pair. */
  predicate Exchanged(c: Config, i: MemoryOp) { c.bigEndian && !(i.LoadStoreAcqExc? && i.elsize == 32) }

  /** Two registers filled from the 2k bytes from a on, in this order or exchanged. */
  predicate BothFilled(s': State, t: RegIndex, t2: RegIndex, w: nat, signed: bool, bigEndian: bool, exchanged: bool,
                       m: Mem, a: int, k: nat)
    requires w <= 64
  {
    && Filled(s', t, w, signed, bigEndian, m, if exchanged then a + k else a, k)
    && Filled(s', t2, w, signed, bigEndian, m, if exchanged then a else a + k, k)
  }

  lemma TwoHeld(s: State, t: RegIndex, t2: RegIndex, x: Bits, x2: Bits, bytes: nat, w: nat, signed: bool)
    requires 0 < |x| == |x2| == 8 * bytes <= w <= 64 && t != t2
    ensures var s' := WX(WX(s, t, ExtendTo(x, w, signed)), t2, ExtendTo(x2, w, signed));
            && Holds(s', t, w, ReadAs(UInt(x), bytes, signed), signed)
            && Holds(s', t2, w, ReadAs(UInt(x2), bytes, signed), signed)
  {
    ExtendedHeld(s, t, x, bytes, w, signed);
    ExtendedHeld(WX(s, t, ExtendTo(x, w, signed)), t2, x2, bytes, w, signed);
  }

  lemma LoadPairNumbers(c: Config, s: State, address: Word, datasize: nat, acctype: AccType, excl: bool, x: Bits)
    requires Width(datasize)
    requires var load := LoadPairBits(c, s, address, datasize, acctype, excl); load.Some? && load.value.1 == x
    ensures HalvesAre(x, datasize, c.bigEndian, s.mem, UInt(address), datasize / 8)
  {
    WordNumber(address);
    LoadTwoValue(c.checkAlignment, c.bigEndian, s.mem, UInt(address), datasize / 8, acctype, excl);
    LoadedHalvesAre(c.bigEndian, s.mem, UInt(address), datasize / 8, x);
  }

  /** The two halves of a load. */
  predicate HalvesAre(x: Bits, n: nat, bigEndian: bool, m: Mem, a: int, k: nat)
    requires n <= |x|
  {
    && UInt(x[..n]) == Number(bigEndian, m, if bigEndian then a + k else a, k)
    && UInt(x[n..]) == Number(bigEndian, m, if bigEndian then a else a + k, k)
  }

  lemma LoadedHalvesAre(bigEndian: bool, m: Mem, a: int, k: nat, x: Bits)
    requires ByteWidth(16 * k) && x == Oriented(bigEndian, ToBits(16 * k, Loaded(m, a, 2 * k)))
    ensures HalvesAre(x, 8 * k, bigEndian, m, a, k)
  {
    LoadedHalves(bigEndian, m, a, k);
  }

  lemma ExecLoadPairHolds(c: Config, s: State, address: Word, datasize: nat, acctype: AccType, excl: bool, t: RegIndex,
                          t2: RegIndex, w: nat, signed: bool, o: Outcome)
    requires Width(datasize) && datasize <= w <= 64 && t != t2
    requires o.Done? && o == ExecLoadPair(c, s, address, datasize, acctype, excl, t, t2, w, signed)
    ensures BothFilled(o.state, t, t2, w, signed, c.bigEndian, c.bigEndian, s.mem, UInt(address), datasize / 8)
  {
    var x := LoadPairBits(c, s, address, datasize, acctype, excl).value.1;
    LoadPairNumbers(c, s, address, datasize, acctype, excl, x);
    TwoHeld(s, t, t2, x[..datasize], x[datasize..], datasize / 8, w, signed);
  }

  /** The words of an exclusive pair are taken in address order. */
  lemma ExecLoadWordsHolds(c: Config, s: State, acctype: AccType, address: Word, t: RegIndex, t2: RegIndex, o: Outcome)
    requires t != t2 && o.Done? && o == ExecLoadWords(c, s, acctype, address, t, t2)
    ensures BothFilled(o.state, t, t2, 32, false, c.bigEndian, false, s.mem, UInt(address), 4)
  {
    var x := LoadBits(c, s, address, 64, acctype, true).value.1;
    LoadBitsNumber(c, s, address, 64, acctype, true, x);
    WordHalves(c.bigEndian, s.mem, UInt(address), x);
    if c.bigEndian { WordsHeld(s, t, t2, x[32..], x[..32]); } else { WordsHeld(s, t, t2, x[..32], x[32..]); }
  }

  lemma WordHalves(bigEndian: bool, m: Mem, a: int, x: Bits)
    requires |x| == 64 && UInt(x) == Number(bigEndian, m, a, 8)
    ensures HalvesAre(x, 32, bigEndian, m, a, 4)
  {
    NumberSplit(bigEndian, m, a, 4, 4);
    NumberRange(bigEndian, m, a, 4);
    NumberRange(bigEndian, m, a + 4, 4);
    if bigEndian {
      HalvesOf(x, 32, Number(bigEndian, m, a + 4, 4), Number(bigEndian, m, a, 4));
    } else {
      HalvesOf(x, 32, Number(bigEndian, m, a, 4), Number(bigEndian, m, a + 4, 4));
    }
  }

  lemma WordsHeld(s: State, t: RegIndex, t2: RegIndex, x: Bits, x2: Bits)
    requires |x| == |x2| == 32 && t != t2
    ensures var s' := WX(WX(s, t, x), t2, x2);
            Holds(s', t, 32, ReadAs(UInt(x), 4, false), false) && Holds(s', t2, 32, ReadAs(UInt(x2), 4, false), false)
  {
    SameExtended(x);
    SameExtended(x2);
    TwoHeld(s, t, t2, x, x2, 4, 32, false);
  }

  lemma SameExtended(x: Bits)
    requires |x| > 0
    ensures ExtendTo(x, |x|, false) == x
  {
  }

  /** A pair load fills its registers from two neighbouring places, in little-endian memory in this order, in
      big-endian memory exchanged unless the pair is one of exclusive words. */
  lemma PairLoadMeaning(c: Config, i: MemoryOp, s: State)
    requires WellFormedMemory(i) && PairForm(i) && i.memop == Load && ExecMemory(c, i, s).Done?
    ensures BothFilled(ExecMemory(c, i, s).state, i.t, i.t2, TargetWidth(i), Signed(i), c.bigEndian, Exchanged(c, i),
                       s.mem, Location(i, s), UnitBytes(i))
  {
    LocationExact(i, s);
    if !i.LoadStoreAcqExc? {
      PlainPairLoad(c, i, s, ExecMemory(c, i, s));
    } else {
      ExclusiveLoadRun(c, i, s);
      ExclusivePairLoad(c, i, s, FootprintEvents.AccessAddress(i, s), ExecMemory(c, i, s));
    }
  }

  lemma PlainPairLoad(c: Config, i: MemoryOp, s: State, o: Outcome)
    requires WellFormedMemory(i) && (i.LoadStorePair? || i.LoadStorePairNonTemp?) && i.memop == Load
    requires o.Done? && o == ExecMemory(c, i, s)
    ensures BothFilled(o.state, i.t, i.t2, TargetWidth(i), Signed(i), c.bigEndian, c.bigEndian, s.mem,
                       UInt(FootprintEvents.AccessAddress(i, s)), UnitBytes(i))
  {
    PairRun(c, i, s);
    UpdatedMemory(i, s);
    PlainPairLoadFrom(c, i, s, Updated(i, s), FootprintEvents.AccessAddress(i, s), o);
  }

  lemma PlainPairLoadFrom(c: Config, i: MemoryOp, s: State, s1: State, address: Word, o: Outcome)
    requires WellFormedMemory(i) && (i.LoadStorePair? || i.LoadStorePairNonTemp?) && i.memop == Load
    requires s1.mem == s.mem && i.t != i.t2
    requires o.Done? && o == AccessPair(c, s1, i.t, i.t2, i.acctype, i.memop, Signed(i), address, i.datasize)
    ensures BothFilled(o.state, i.t, i.t2, TargetWidth(i), Signed(i), c.bigEndian, c.bigEndian, s.mem, UInt(address),
                       UnitBytes(i))
  {
    ExecLoadPairHolds(c, s1, address, i.datasize, i.acctype, false, i.t, i.t2, TargetWidth(i), Signed(i), o);
  }

  lemma ExclusivePairLoad(c: Config, i: MemoryOp, s: State, address: Word, o: Outcome)
    requires WellFormedMemory(i) && i.LoadStoreAcqExc? && i.pair && i.memop == Load && i.t != i.t2
    requires o.Done? && o == ExecExclusiveLoad(c, s, i, address)
    ensures BothFilled(o.state, i.t, i.t2, TargetWidth(i), Signed(i), c.bigEndian, Exchanged(c, i), s.mem,
                       UInt(address), UnitBytes(i))
  {
    if i.elsize == 32 {
      WordsHold(c, s, i.acctype, address, i.t, i.t2, o, TargetWidth(i), Signed(i), Exchanged(c, i), UnitBytes(i));
    } else {
      DoublesHold(c, s, i.acctype, address, i.t, i.t2, o, TargetWidth(i), Signed(i), Exchanged(c, i), UnitBytes(i));
    }
  }

  lemma WordsHold(c: Config, s: State, acctype: AccType, address: Word, t: RegIndex, t2: RegIndex, o: Outcome, w: nat,
                  signed: bool, exchanged: bool, k: nat)
    requires t != t2 && o.Done? && o == ExecLoadWords(c, s, acctype, address, t, t2)
    requires w == 32 && !signed && !exchanged && k == 4
    ensures BothFilled(o.state, t, t2, w, signed, c.bigEndian, exchanged, s.mem, UInt(address), k)
  {
    ExecLoadWordsHolds(c, s, acctype, address, t, t2, o);
  }

  lemma DoublesHold(c: Config, s: State, acctype: AccType, address: Word, t: RegIndex, t2: RegIndex, o: Outcome, w: nat,
                    signed: bool, exchanged: bool, k: nat)
    requires t != t2 && o.Done? && o == ExecLoadPair(c, s, address, 64, acctype, true, t, t2, 64, false)
    requires w == 64 && !signed && exchanged == c.bigEndian && k == 8
    ensures BothFilled(o.state, t, t2, w, signed, c.bigEndian, exchanged, s.mem, UInt(address), k)
  {
    ExecLoadPairHolds(c, s, address, 64, acctype, true, t, t2, 64, false, o);
  }

  // ----- stores -----

  /** Memory outside the n bytes from a on is as before. */
  ghost predicate KeepsOthers(m: Mem, m': Mem, a: int, n: nat) {
    forall b: Address :: !InRange(b, a, n) ==> m'[b] == m[b]
  }

  /** What one register's store leaves in memory. */
  ghost predicate Stores(bigEndian: bool, m: Mem, m': Mem, a: int, v: int, k: nat) {
    Number(bigEndian, m', a, k) == v && KeepsOthers(m, m', a, k)
  }

  ghost predicate StoresTwo(bigEndian: bool, m: Mem, m': Mem, a: int, v1: int, v2: int, k: nat) {
    Number(bigEndian, m', a, k) == v1 && Number(bigEndian, m', a + k, k) == v2 && KeepsOthers(m, m', a, 2 * k)
  }

  lemma StoredOne(bigEndian: bool, m: Mem, m': Mem, a: int, v: Bits, k: nat)
    requires ByteWidth(|v|) && |v| == 8 * k && m' == Stored(m, a, k, UInt(Oriented(bigEndian, v)))
    ensures Stores(bigEndian, m, m', a, UInt(v), k)
  {
    StoredNumber(bigEndian, m, a, v, k);
    StoredElsewhere(m, a, k, UInt(Oriented(bigEndian, v)));
  }

  lemma StoredTwo(bigEndian: bool, m: Mem, m': Mem, a: int, v1: Bits, v2: Bits, k: nat)
    requires k in {4, 8} && |v1| == |v2| == 8 * k && m' == Stored(m, a, 2 * k, UInt(Halves(bigEndian, v1, v2)))
    ensures StoresTwo(bigEndian, m, m', a, UInt(v1), UInt(v2), k)
  {
    StoredHalves(bigEndian, m, a, v1, v2, k);
    StoredElsewhere(m, a, 2 * k, UInt(Halves(bigEndian, v1, v2)));
  }

  lemma ExecStoreLeaves(c: Config, s: State, address: Word, acctype: AccType, value: Bits, excl: bool, o: Outcome,
                        k: nat)
    requires (DataWidth(|value|) || |value| == 128) && k == |value| / 8
    requires o.Done? && o == ExecStore(c, s, address, acctype, value, excl)
    ensures StoreOne(c.checkAlignment, c.bigEndian, s.mem, UInt(address), k, acctype, value, excl) == Some(o.state.mem)
  {
    WordNumber(address);
  }

  lemma ExecStoreNumber(c: Config, s: State, address: Word, acctype: AccType, value: Bits, excl: bool, o: Outcome,
                        k: nat)
    requires (DataWidth(|value|) || |value| == 128) && k == |value| / 8
    requires o.Done? && o == ExecStore(c, s, address, acctype, value, excl)
    ensures Stores(c.bigEndian, s.mem, o.state.mem, UInt(address), UInt(value), k)
  {
    WordNumber(address);
    ExecStoreLeaves(c, s, address, acctype, value, excl, o, k);
    StoreOneMemory(c.checkAlignment, c.bigEndian, s.mem, UInt(address), k, acctype, value, excl);
    StoredOne(c.bigEndian, s.mem, o.state.mem, UInt(address), value, k);
  }

  lemma ExecStorePairLeaves(c: Config, s: State, address: Word, acctype: AccType, v1: Bits, v2: Bits, o: Outcome,
                            k: nat)
    requires Width(|v1|) && |v1| == |v2| && k == |v1| / 8
    requires o.Done? && o == ExecStorePair(c, s, address, acctype, v1, v2)
    ensures StoreTwo(c.checkAlignment, c.bigEndian, s.mem, UInt(address), k, acctype, v1, v2) == Some(o.state.mem)
  {
    WordNumber(address);
  }

  lemma ExecStorePairNumbers(c: Config, s: State, address: Word, acctype: AccType, v1: Bits, v2: Bits, o: Outcome,
                             k: nat)
    requires Width(|v1|) && |v1| == |v2| && k == |v1| / 8
    requires o.Done? && o == ExecStorePair(c, s, address, acctype, v1, v2)
    ensures StoresTwo(c.bigEndian, s.mem, o.state.mem, UInt(address), UInt(v1), UInt(v2), k)
  {
    WordNumber(address);
    ExecStorePairLeaves(c, s, address, acctype, v1, v2, o, k);
    StoreTwoMemory(c.checkAlignment, c.bigEndian, s.mem, UInt(address), k, acctype, v1, v2);
    StoredTwo(c.bigEndian, s.mem, o.state.mem, UInt(address), v1, v2, k);
  }

  /** The number register r holds when the store reads it: only STNP may read a base it has just moved. */
  function Operand(i: MemoryOp, s: State, r: RegIndex): int {
    if i.LoadStorePairNonTemp? && i.wback && r == i.n && r != 31 then
      Wrap(Base(i, s) + Displacement(i, s)) % Pow2(8 * UnitBytes(i))
    else RegisterNumber(s, r, 8 * UnitBytes(i))
  }

  lemma UnitWidth(i: MemoryOp)
    requires WellFormedMemory(i) && !i.LoadLiteral?
    ensures 8 * UnitBytes(i) == if i.LoadStoreAcqExc? then i.elsize else i.datasize
    ensures PairForm(i) && i.LoadStoreAcqExc? ==> i.regsize == i.elsize
  {
  }

  lemma UpdatedOperand(i: MemoryOp, s: State, r: RegIndex)
    requires WellFormedMemory(i) && !i.LoadLiteral? && !i.LoadStoreAcqExc?
    requires i.wback && r == i.n && r != 31 ==> i.LoadStorePairNonTemp?
    ensures UInt(RX(Updated(i, s), r, 8 * UnitBytes(i))) == Operand(i, s, r)
  {
    RXNumber(Updated(i, s), r, 8 * UnitBytes(i));
    if i.wback { UpdatedBase(i, s); }
  }

  /** A store that is made leaves the number of its register in memory, in the byte order of memory, and every other
      byte as it was. */
  lemma SingleStoreMeaning(c: Config, i: MemoryOp, s: State)
    requires WellFormedMemory(i) && !PairForm(i) && i.memop == Store && ExecMemory(c, i, s).Done?
    requires i.LoadStoreAcqExc? && i.excl ==> c.exclusiveSucceeds
    ensures Stores(c.bigEndian, s.mem, ExecMemory(c, i, s).state.mem, Location(i, s), Operand(i, s, i.t), UnitBytes(i))
  {
    LocationExact(i, s);
    if i.LoadStoreAcqExc? {
      ExclusiveStoreRun(c, i, s);
      ExclusiveSingleStore(c, i, s, StatusWritten(c, s, i), FootprintEvents.AccessAddress(i, s), ExecMemory(c, i, s));
    } else {
      IndexedStore(c, i, s, ExecMemory(c, i, s));
    }
  }

  lemma IndexedStore(c: Config, i: MemoryOp, s: State, o: Outcome)
    requires WellFormedMemory(i) && (i.LoadImmediate? || i.LoadRegister?) && i.memop == Store && o.Done?
    requires o == ExecMemory(c, i, s)
    ensures Stores(c.bigEndian, s.mem, o.state.mem, UInt(FootprintEvents.AccessAddress(i, s)), Operand(i, s, i.t),
                   UnitBytes(i))
  {
    SingleRun(c, i, s);
    UpdatedOperand(i, s, i.t);
    UpdatedMemory(i, s);
    IndexedStoreFrom(c, i, s, Updated(i, s), FootprintEvents.AccessAddress(i, s), o);
  }

  lemma IndexedStoreFrom(c: Config, i: MemoryOp, s: State, s1: State, address: Word, o: Outcome)
    requires WellFormedMemory(i) && (i.LoadImmediate? || i.LoadRegister?) && i.memop == Store && o.Done?
    requires s1.mem == s.mem && UInt(RX(s1, i.t, 8 * UnitBytes(i))) == Operand(i, s, i.t)
    requires o == AccessSingle(c, s1, i.t, i.acctype, i.memop, i.signed, address, i.regsize, i.datasize)
    ensures Stores(c.bigEndian, s.mem, o.state.mem, UInt(address), Operand(i, s, i.t), UnitBytes(i))
  {
    UnitWidth(i);
    SingleStored(c, s1, i.t, i.acctype, address, i.datasize, UnitBytes(i), Operand(i, s, i.t), false, o);
  }

  // ----- store-exclusive and store-release -----

  lemma ExclusiveStoreRun(c: Config, i: MemoryOp, s: State)
    requires i.LoadStoreAcqExc? && WellFormedMemory(i) && i.memop == Store && ExecMemory(c, i, s).Done?
    requires i.excl ==> c.exclusiveSucceeds
    ensures ExecMemory(c, i, s)
         == ExecExclusiveStore(c, StatusWritten(c, s, i), i, FootprintEvents.AccessAddress(i, s))
    ensures i.excl ==> i.s != i.t && (i.pair ==> i.s != i.t2)
  {
    FootprintEvents.BaseIs(c, StatusWritten(c, s, i), i.n, true);
  }

  lemma StatusOperand(c: Config, i: MemoryOp, s: State, r: RegIndex, w: nat)
    requires i.LoadStoreAcqExc? && w <= 64 && (i.excl ==> i.s != r)
    ensures RX(StatusWritten(c, s, i), r, w) == RX(s, r, w) && StatusWritten(c, s, i).mem == s.mem
  {
  }

  lemma ExclusiveSingleStore(c: Config, i: MemoryOp, s: State, s1: State, address: Word, o: Outcome)
    requires i.LoadStoreAcqExc? && WellFormedMemory(i) && !i.pair && i.memop == Store && (i.excl ==> i.s != i.t)
    requires s1 == StatusWritten(c, s, i) && o.Done? && o == ExecExclusiveStore(c, s1, i, address)
    ensures Stores(c.bigEndian, s.mem, o.state.mem, UInt(address), Operand(i, s, i.t), UnitBytes(i))
  {
    StatusOperand(c, i, s, i.t, i.datasize);
    RXNumber(s, i.t, i.datasize);
    ExclusiveStoreEnds(c, s1, i, address, RX(s1, i.t, i.datasize));
    UnitWidth(i);
    SingleStored(c, s1, i.t, i.acctype, address, i.datasize, UnitBytes(i), Operand(i, s, i.t), i.excl, o);
  }

  /** Both registers of a pair go to neighbouring places, in this order in either byte order. */
  lemma PairStoreMeaning(c: Config, i: MemoryOp, s: State)
    requires WellFormedMemory(i) && PairForm(i) && i.memop == Store && ExecMemory(c, i, s).Done?
    requires i.LoadStoreAcqExc? && i.excl ==> c.exclusiveSucceeds
    ensures StoresTwo(c.bigEndian, s.mem, ExecMemory(c, i, s).state.mem, Location(i, s), Operand(i, s, i.t),
                      Operand(i, s, i.t2), UnitBytes(i))
  {
    LocationExact(i, s);
    if i.LoadStoreAcqExc? {
      ExclusiveStoreRun(c, i, s);
      ExclusivePairStore(c, i, s, StatusWritten(c, s, i), FootprintEvents.AccessAddress(i, s), ExecMemory(c, i, s));
    } else {
      PlainPairStore(c, i, s, ExecMemory(c, i, s));
    }
  }

  lemma PlainPairStore(c: Config, i: MemoryOp, s: State, o: Outcome)
    requires WellFormedMemory(i) && (i.LoadStorePair? || i.LoadStorePairNonTemp?) && i.memop == Store && o.Done?
    requires o == ExecMemory(c, i, s)
    ensures StoresTwo(c.bigEndian, s.mem, o.state.mem, UInt(FootprintEvents.AccessAddress(i, s)), Operand(i, s, i.t),
                      Operand(i, s, i.t2), UnitBytes(i))
  {
    PairRun(c, i, s);
    PairOperandsRead(c, i, s);
    UpdatedMemory(i, s);
    PlainPairStoreFrom(c, i, s, Updated(i, s), FootprintEvents.AccessAddress(i, s), o);
  }

  lemma PairOperandsRead(c: Config, i: MemoryOp, s: State)
    requires WellFormedMemory(i) && (i.LoadStorePair? || i.LoadStorePairNonTemp?) && i.memop == Store
    requires ExecMemory(c, i, s).Done?
    ensures UInt(RX(Updated(i, s), i.t, 8 * UnitBytes(i))) == Operand(i, s, i.t)
    ensures UInt(RX(Updated(i, s), i.t2, 8 * UnitBytes(i))) == Operand(i, s, i.t2)
  {
    if i.LoadStorePair? { PairOperands(c, i, s); }
    UpdatedOperand(i, s, i.t);
    UpdatedOperand(i, s, i.t2);
  }

  lemma PairOperands(c: Config, i: MemoryOp, s: State)
    requires WellFormedMemory(i) && i.LoadStorePair? && i.memop == Store && ExecMemory(c, i, s).Done?
    ensures i.wback && i.n != 31 ==> i.n != i.t && i.n != i.t2
  {
  }

  lemma PlainPairStoreFrom(c: Config, i: MemoryOp, s: State, s1: State, address: Word, o: Outcome)
    requires WellFormedMemory(i) && (i.LoadStorePair? || i.LoadStorePairNonTemp?) && i.memop == Store && o.Done?
    requires s1.mem == s.mem && UInt(RX(s1, i.t, 8 * UnitBytes(i))) == Operand(i, s, i.t)
    requires UInt(RX(s1, i.t2, 8 * UnitBytes(i))) == Operand(i, s, i.t2)
    requires o == AccessPair(c, s1, i.t, i.t2, i.acctype, i.memop, Signed(i), address, i.datasize)
    ensures StoresTwo(c.bigEndian, s.mem, o.state.mem, UInt(address), Operand(i, s, i.t), Operand(i, s, i.t2),
                      UnitBytes(i))
  {
    UnitWidth(i);
    PairStored(c, s1, i.t, i.t2, i.acctype, Signed(i), address, i.datasize, UnitBytes(i), Operand(i, s, i.t),
               Operand(i, s, i.t2), o);
  }

  lemma PairStored(c: Config, s: State, t: RegIndex, t2: RegIndex, acctype: AccType, signed: bool, address: Word,
                   n: nat, k: nat, v: int, v2: int, o: Outcome)
    requires Width(n) && n == 8 * k && UInt(RX(s, t, n)) == v && UInt(RX(s, t2, n)) == v2
    requires o.Done? && o == AccessPair(c, s, t, t2, acctype, Store, signed, address, n)
    ensures StoresTwo(c.bigEndian, s.mem, o.state.mem, UInt(address), v, v2, k)
  {
    ExecStorePairNumbers(c, s, address, acctype, RX(s, t, n), RX(s, t2, n), o, k);
  }

  lemma SingleStored(c: Config, s: State, t: RegIndex, acctype: AccType, address: Word, n: nat, k: nat, v: int,
                     excl: bool, o: Outcome)
    requires DataWidth(n) && n == 8 * k && UInt(RX(s, t, n)) == v
    requires o.Done? && o == ExecStore(c, s, address, acctype, RX(s, t, n), excl)
    ensures Stores(c.bigEndian, s.mem, o.state.mem, UInt(address), v, k)
  {
    ExecStoreNumber(c, s, address, acctype, RX(s, t, n), excl, o, k);
  }

  /** The value of an exclusive pair, taken apart. */
  lemma PairDataNumber(bigEndian: bool, m: Mem, a: int, v1: Bits, v2: Bits, k: nat)
    requires |v1| == |v2| == 8 * k && Number(bigEndian, m, a, k + k) == UInt(PairData(bigEndian, v1, v2))
    ensures Number(bigEndian, m, a, k) == UInt(v1) && Number(bigEndian, m, a + k, k) == UInt(v2)
  {
    var p := Pow2(8 * k);
    NumberSplit(bigEndian, m, a, k, k);
    NumberRange(bigEndian, m, a, k);
    NumberRange(bigEndian, m, a + k, k);
    UIntRange(v1);
    UIntRange(v2);
    if bigEndian {
      UIntAppend(v2, v1);
      JoinedUnique(p, Number(bigEndian, m, a, k), Number(bigEndian, m, a + k, k), UInt(v1), UInt(v2));
    } else {
      UIntAppend(v1, v2);
      JoinedUnique(p, Number(bigEndian, m, a + k, k), Number(bigEndian, m, a, k), UInt(v2), UInt(v1));
    }
  }

  lemma JoinedUnique(p: int, h: int, l: int, h': int, l': int)
    requires 0 <= l < p && 0 <= l' < p && l + h * p == l' + h' * p
    ensures h == h' && l == l'
  {
    DivModUnique(l + h * p, p, h, l);
    DivModUnique(l + h * p, p, h', l');
  }

  lemma ExclusivePairStore(c: Config, i: MemoryOp, s: State, s1: State, address: Word, o: Outcome)
    requires i.LoadStoreAcqExc? && WellFormedMemory(i) && i.pair && i.memop == Store
    requires i.excl ==> i.s != i.t && i.s != i.t2
    requires s1 == StatusWritten(c, s, i) && o.Done? && o == ExecExclusiveStore(c, s1, i, address)
    ensures StoresTwo(c.bigEndian, s.mem, o.state.mem, UInt(address), Operand(i, s, i.t), Operand(i, s, i.t2),
                      UnitBytes(i))
  {
    var v1, v2, k := RX(s, i.t, i.regsize), RX(s, i.t2, i.regsize), UnitBytes(i);
    UnitWidth(i);
    StatusOperand(c, i, s, i.t, i.regsize);
    StatusOperand(c, i, s, i.t2, i.regsize);
    RXNumber(s, i.t, i.regsize);
    RXNumber(s, i.t2, i.regsize);
    ExclusiveStoreEnds(c, s1, i, address, PairData(c.bigEndian, v1, v2));
    PairDataStored(c, s1, address, i.acctype, v1, v2, k, i.excl, o);
  }

  lemma PairDataStored(c: Config, s: State, address: Word, acctype: AccType, v1: Bits, v2: Bits, k: nat, excl: bool,
                       o: Outcome)
    requires Width(|v1|) && |v1| == |v2| == 8 * k
    requires o.Done? && o == ExecStore(c, s, address, acctype, PairData(c.bigEndian, v1, v2), excl)
    ensures StoresTwo(c.bigEndian, s.mem, o.state.mem, UInt(address), UInt(v1), UInt(v2), k)
  {
    ExecStoreNumber(c, s, address, acctype, PairData(c.bigEndian, v1, v2), excl, o, 2 * k);
    StoredApart(c.bigEndian, s.mem, o.state.mem, UInt(address), v1, v2, k, 2 * k);
  }

  lemma StoredApart(bigEndian: bool, m: Mem, m': Mem, a: int, v1: Bits, v2: Bits, k: nat, n: nat)
    requires |v1| == |v2| == 8 * k && n == 2 * k
    requires Stores(bigEndian, m, m', a, UInt(PairData(bigEndian, v1, v2)), n)
    ensures StoresTwo(bigEndian, m, m', a, UInt(v1), UInt(v2), k)
  {
    PairDataNumber(bigEndian, m', a, v1, v2, k);
  }

  /** A store-exclusive that succeeds reports 0, one that fails reports 1 and does nothing else. */
  lemma ExclusiveStatus(c: Config, i: MemoryOp, s: State)
    requires i.LoadStoreAcqExc? && WellFormedMemory(i) && i.memop == Store && i.excl && ExecMemory(c, i, s).Done?
    ensures var o := ExecMemory(c, i, s);
            && (i.s != 31 ==> UInt(o.state.x[i.s]) == if c.exclusiveSucceeds then 0 else 1)
            && (!c.exclusiveSucceeds ==> o.state.mem == s.mem && o.events == [])
            && (c.exclusiveSucceeds ==> o.events != [])
  {
    var s1 := StatusWritten(c, s, i);
    StatusNumber(s, i.s, !c.exclusiveSucceeds);
    if c.exclusiveSucceeds {
      ExclusiveStoreRun(c, i, s);
      ExclusiveStoreLeaves(c, i, s1, FootprintEvents.AccessAddress(i, s), ExecMemory(c, i, s));
    }
  }

  lemma ExclusiveStoreLeaves(c: Config, i: MemoryOp, s1: State, address: Word, o: Outcome)
    requires i.LoadStoreAcqExc? && WellFormedMemory(i) && i.memop == Store && i.excl
    requires o.Done? && o == ExecExclusiveStore(c, s1, i, address)
    ensures o.state == s1.(mem := o.state.mem) && o.events != []
  {
  }

  lemma StatusNumber(s: State, r: RegIndex, failed: bool)
    ensures r != 31 ==> UInt(WX(s, r, ZeroExtend([failed], 32)).x[r]) == if failed then 1 else 0
  {
    UIntZeroExtend([failed], 32);
    UIntZeroExtend(ZeroExtend([failed], 32), 64);
    assert UInt([failed]) == if failed then 1 else 0;
  }

  // ----- the base register -----

  /** Writing other registers leaves the base as it is. */
  lemma WriteKeeps(s: State, t: RegIndex, v: Bits, n: RegIndex)
    requires |v| <= 64 && (n != 31 ==> n != t)
    ensures SameBase(s, WX(s, t, v), n)
  {
  }

  predicate SameBase(s: State, s': State, n: RegIndex) { s'.sp == s.sp && (n != 31 ==> s'.x[n] == s.x[n]) }

  lemma SingleKeepsBase(c: Config, s: State, t: RegIndex, acctype: AccType, memop: MemOp, signed: bool, address: Word,
                        regsize: nat, datasize: nat, n: RegIndex, o: Outcome)
    requires Width(regsize) && DataWidth(datasize) && datasize <= regsize && (memop == Load && n != 31 ==> n != t)
    requires o.Done? && o == AccessSingle(c, s, t, acctype, memop, signed, address, regsize, datasize)
    ensures SameBase(s, o.state, n)
  {
    if memop == Load {
      LoadKeeps(c, s, address, datasize, acctype, t, signed, regsize, n, o);
    } else if memop == Store {
      StoreKeeps(c, s, address, acctype, RX(s, t, datasize), n, o);
    }
  }

  lemma StoreKeeps(c: Config, s: State, address: Word, acctype: AccType, value: Bits, n: RegIndex, o: Outcome)
    requires (DataWidth(|value|) || |value| == 128) && o.Done? && o == ExecStore(c, s, address, acctype, value, false)
    ensures SameBase(s, o.state, n)
  {
  }

  lemma LoadKeeps(c: Config, s: State, address: Word, datasize: nat, acctype: AccType, t: RegIndex, signed: bool,
                  regsize: nat, n: RegIndex, o: Outcome)
    requires Width(regsize) && DataWidth(datasize) && datasize <= regsize && (n != 31 ==> n != t)
    requires o.Done? && o == ExecLoad(c, s, address, datasize, acctype, false, t, signed, regsize)
    ensures SameBase(s, o.state, n)
  {
    WriteKeeps(s, t, ExtendTo(LoadBits(c, s, address, datasize, acctype, false).value.1, regsize, signed), n);
  }

  lemma PairKeepsBase(c: Config, s: State, t: RegIndex, t2: RegIndex, acctype: AccType, memop: MemOp, signed: bool,
                      address: Word, datasize: nat, n: RegIndex, o: Outcome)
    requires Width(datasize) && (memop == Load && n != 31 ==> n != t && n != t2)
    requires o.Done? && o == AccessPair(c, s, t, t2, acctype, memop, signed, address, datasize)
    ensures SameBase(s, o.state, n)
  {
    if memop == Load {
      PairLoadKeeps(c, s, address, datasize, acctype, t, t2, if signed then 64 else datasize, signed, n, o);
    }
  }

  lemma PairLoadKeeps(c: Config, s: State, address: Word, datasize: nat, acctype: AccType, t: RegIndex, t2: RegIndex,
                      w: nat, signed: bool, n: RegIndex, o: Outcome)
    requires Width(datasize) && datasize <= w <= 64 && (n != 31 ==> n != t && n != t2)
    requires o.Done? && o == ExecLoadPair(c, s, address, datasize, acctype, false, t, t2, w, signed)
    ensures SameBase(s, o.state, n)
  {
    var x := LoadPairBits(c, s, address, datasize, acctype, false).value.1;
    var s1 := WX(s, t, ExtendTo(x[..datasize], w, signed));
    WriteKeeps(s, t, ExtendTo(x[..datasize], w, signed), n);
    WriteKeeps(s1, t2, ExtendTo(x[datasize..], w, signed), n);
  }

  /** With writeback the base register has moved by the displacement, before or after the access alike. */
  lemma BaseMoves(c: Config, i: MemoryOp, s: State)
    requires WellFormedMemory(i) && WritesBack(i) && ExecMemory(c, i, s).Done?
    requires i.LoadStorePairNonTemp? && i.memop == Load && i.n != 31 ==> i.n != i.t && i.n != i.t2
    ensures Base(i, ExecMemory(c, i, s).state) == Wrap(Base(i, s) + Displacement(i, s))
  {
    UpdatedBase(i, s);
    if PairForm(i) {
      PairBaseMoves(c, i, s, Updated(i, s), FootprintEvents.AccessAddress(i, s));
    } else {
      SingleBaseMoves(c, i, s, Updated(i, s), FootprintEvents.AccessAddress(i, s));
    }
  }

  lemma SingleBaseMoves(c: Config, i: MemoryOp, s: State, s1: State, address: Word)
    requires WellFormedMemory(i) && (i.LoadImmediate? || i.LoadRegister?) && i.wback && ExecMemory(c, i, s).Done?
    requires s1 == Updated(i, s) && address == FootprintEvents.AccessAddress(i, s)
    ensures Base(i, ExecMemory(c, i, s).state) == Base(i, s1)
  {
    SingleRun(c, i, s);
    SingleKeepsBase(c, s1, i.t, i.acctype, i.memop, i.signed, address, i.regsize, i.datasize, i.n,
                    ExecMemory(c, i, s));
  }

  lemma PairBaseMoves(c: Config, i: MemoryOp, s: State, s1: State, address: Word)
    requires WellFormedMemory(i) && (i.LoadStorePair? || i.LoadStorePairNonTemp?) && i.wback
    requires ExecMemory(c, i, s).Done?
    requires i.LoadStorePairNonTemp? && i.memop == Load && i.n != 31 ==> i.n != i.t && i.n != i.t2
    requires s1 == Updated(i, s) && address == FootprintEvents.AccessAddress(i, s)
    ensures Base(i, ExecMemory(c, i, s).state) == Base(i, s1)
  {
    PairRun(c, i, s);
    PairKeepsBase(c, s1, i.t, i.t2, i.acctype, i.memop, Signed(i), address, i.datasize, i.n,
                  ExecMemory(c, i, s));
  }

  // ----- when an access is made -----

  /** The access types that may be exclusive, and those that may not; the alignment each asks for. */
  predicate Allowed(c: Config, a: nat, k: nat, acctype: AccType, excl: bool)
    requires k > 0
  {
    if excl then acctype in {Atomic, Ordered} && a % k == 0
    else acctype in {Normal, Stream, Unpriv, Ordered} && (a % k == 0 || !(c.checkAlignment || acctype == Ordered))
  }

  /** The kind of a read or write says whether it is exclusive, and whether it is an acquire or a release. */
  lemma KindMeaning(acctype: AccType, excl: bool)
    ensures match ReadKindOf(acctype, excl)
            case None => acctype !in if excl then {Atomic, Ordered} else {Normal, Stream, Unpriv, Ordered}
            case Some(k) =>
              && (k == ReadExclusive || k == ReadExclusiveAcquire <==> excl)
              && (k == ReadAcquire || k == ReadExclusiveAcquire <==> acctype == Ordered)
              && (k == ReadStream <==> acctype == Stream)
    ensures match WriteKindOf(acctype, excl)
            case None => acctype !in if excl then {Atomic, Ordered} else {Normal, Stream, Unpriv, Ordered}
            case Some(k) =>
              && (k == WriteExclusive || k == WriteExclusiveRelease <==> excl)
              && (k == WriteRelease || k == WriteExclusiveRelease <==> acctype == Ordered)
  {
  }

  lemma AlignedRemainder(a: Address, k: nat)
    requires k > 0
    ensures Aligned(a, k) <==> a % k == 0
  {
    DivModForm(a, k);
  }

  lemma PassesExactly(c: Config, a: Address, k: nat, acctype: AccType, excl: bool)
    requires k > 0
    ensures Passes(c.checkAlignment, a, k, acctype, excl) && ReadKindOf(acctype, excl).Some?
       <==> Allowed(c, a, k, acctype, excl)
    ensures ReadKindOf(acctype, excl).Some? <==> WriteKindOf(acctype, excl).Some?
  {
    AlignedRemainder(a, k);
    if k == 1 { BytesAligned(a); }
  }

  /** The second half of a pair is aligned exactly when the first is. */
  lemma NextAligned(a: Address, k: nat)
    requires k in {4, 8}
    ensures Wrap(a + k) % k == a % k
  {
    if k == 4 { WrapRemainder(a + k, k, WORD / 4); } else { WrapRemainder(a + k, k, WORD / 8); }
    ModShift(a, 1, k);
  }

  lemma WrapRemainder(x: int, k: int, q: int)
    requires k > 0 && WORD == q * k
    ensures Wrap(x) % k == x % k
  {
    var d := x / WORD;
    DivModForm(x, WORD);
    assert d * WORD == (d * q) * k;
    ModShift(Wrap(x), d * q, k);
  }

  lemma BothPassExactly(c: Config, a: Address, k: nat, acctype: AccType)
    requires k in {4, 8}
    ensures BothPass(c.checkAlignment, a, k, acctype, false) && ReadKindOf(acctype, false).Some?
       <==> Allowed(c, a, k, acctype, false)
  {
    PassesExactly(c, a, k, acctype, false);
    PassesExactly(c, Wrap(a + k), k, acctype, false);
    NextAligned(a, k);
  }

  /** Registers an encoding may not name twice. */
  predicate Conflicts(i: MemoryOp) {
    match i
    case LoadLiteral(_, _, _, _, _, _) => false
    case LoadStoreAcqExc(n, t, t2, st, _, excl, pair, memop, _, _, _) =>
      if memop == Load then pair && t == t2
      else memop == Store && excl && (st == t || (pair && st == t2) || (n != 31 && st == n))
    case LoadStorePairNonTemp(_, _, _, t, t2, _, memop, _, _, _) => memop == Load && t == t2
    case LoadImmediate(n, t, _, memop, _, wback, _, _, _, _) => memop != Prefetch && wback && n == t && n != 31
    case LoadRegister(n, t, _, _, memop, _, wback, _, _, _, _, _) => memop != Prefetch && wback && n == t && n != 31
    case LoadStorePair(wback, _, n, t, t2, _, memop, _, _, _) =>
      (memop == Load && t == t2) || (wback && n != 31 && (n == t || n == t2))
  }

  /** The stack pointer, when it is the base, is a multiple of 16 if that is checked. */
  predicate StackAligned(c: Config, i: MemoryOp, s: State) {
    !i.LoadLiteral? && i.n == 31 && c.checkStack ==> UInt(s.sp) % 16 == 0
  }

  /** What an access needs: a prefetch of one register nothing, a failing store-exclusive nothing; a pair a load or a
      store; an exclusive or acquire pair exclusiveness; and its bytes, those of both registers if they move as one
      exclusive value, must be allowed at the location. */
  predicate Accepts(c: Config, i: MemoryOp, s: State)
    requires WellFormedMemory(i)
  {
    if Conflicts(i) then false
    else if i.LoadStoreAcqExc? && i.memop == Store && i.excl && !c.exclusiveSucceeds then true
    else if i.memop == Prefetch then !PairForm(i) && !i.LoadStoreAcqExc?
    else
      && StackAligned(c, i, s)
      && (i.LoadLiteral? ==> i.memop == Load)
      && (i.LoadStoreAcqExc? && i.pair ==> i.excl)
      && Permits(c, i, s)
  }

  predicate Permits(c: Config, i: MemoryOp, s: State)
    requires WellFormedMemory(i) && i.memop != Prefetch
  {
    if i.LoadLiteral? then i.memop == Load ==> Allowed(c, Location(i, s), i.size, Normal, false)
    else Allowed(c, Location(i, s), i.datasize / 8, i.acctype, i.LoadStoreAcqExc? && i.excl)
  }

  lemma LoadBitsAllowed(c: Config, s: State, address: Word, datasize: nat, acctype: AccType, excl: bool, k: nat)
    requires DataWidth(datasize) && k == datasize / 8
    ensures LoadBits(c, s, address, datasize, acctype, excl).Some? <==> Allowed(c, UInt(address), k, acctype, excl)
  {
    WordNumber(address);
    LoadSucceeds(c.checkAlignment, c.bigEndian, s.mem, UInt(address), k, acctype, excl);
    PassesExactly(c, UInt(address), k, acctype, excl);
  }

  lemma ExecStoreAllowed(c: Config, s: State, address: Word, acctype: AccType, value: Bits, excl: bool, k: nat)
    requires (DataWidth(|value|) || |value| == 128) && k == |value| / 8
    ensures ExecStore(c, s, address, acctype, value, excl).Done? <==> Allowed(c, UInt(address), k, acctype, excl)
  {
    WordNumber(address);
    StoreSucceeds(c.checkAlignment, c.bigEndian, s.mem, UInt(address), k, value, acctype, excl);
    PassesExactly(c, UInt(address), k, acctype, excl);
  }

  lemma ExecStorePairAllowed(c: Config, s: State, address: Word, acctype: AccType, v1: Bits, v2: Bits, k: nat)
    requires Width(|v1|) && |v1| == |v2| && k == |v1| / 8
    ensures ExecStorePair(c, s, address, acctype, v1, v2).Done? <==> Allowed(c, UInt(address), k, acctype, false)
  {
    WordNumber(address);
    PairSucceeds(c.checkAlignment, c.bigEndian, s.mem, UInt(address), k, acctype, v1, v2);
    BothPassExactly(c, UInt(address), k, acctype);
    PassesExactly(c, UInt(address), k, acctype, false);
  }

  lemma LoadPairAllowed(c: Config, s: State, address: Word, datasize: nat, acctype: AccType, k: nat)
    requires Width(datasize) && k == datasize / 8
    ensures LoadPairBits(c, s, address, datasize, acctype, false).Some?
       <==> Allowed(c, UInt(address), k, acctype, false)
  {
    WordNumber(address);
    LoadTwoSucceeds(c.checkAlignment, c.bigEndian, s.mem, UInt(address), k, acctype, false);
    BothPassExactly(c, UInt(address), k, acctype);
  }

  lemma ExecLoadAllowed(c: Config, s: State, address: Word, datasize: nat, acctype: AccType, t: RegIndex, signed: bool,
                        regsize: nat)
    requires Width(regsize) && DataWidth(datasize) && datasize <= regsize
    ensures ExecLoad(c, s, address, datasize, acctype, false, t, signed, regsize).Done?
       <==> Allowed(c, UInt(address), datasize / 8, acctype, false)
  {
    LoadBitsAllowed(c, s, address, datasize, acctype, false, datasize / 8);
  }

  lemma SingleAllowed(c: Config, s: State, t: RegIndex, acctype: AccType, memop: MemOp, signed: bool, address: Word,
                      regsize: nat, datasize: nat)
    requires Width(regsize) && DataWidth(datasize) && datasize <= regsize
    ensures AccessSingle(c, s, t, acctype, memop, signed, address, regsize, datasize).Done?
       <==> (memop == Prefetch || Allowed(c, UInt(address), datasize / 8, acctype, false))
  {
    if memop == Load {
      ExecLoadAllowed(c, s, address, datasize, acctype, t, signed, regsize);
    } else if memop == Store {
      ExecStoreAllowed(c, s, address, acctype, RX(s, t, datasize), false, datasize / 8);
    }
  }

  lemma PairAllowed(c: Config, s: State, t: RegIndex, t2: RegIndex, acctype: AccType, memop: MemOp, signed: bool,
                    address: Word, datasize: nat)
    requires Width(datasize)
    ensures AccessPair(c, s, t, t2, acctype, memop, signed, address, datasize).Done?
       <==> (memop != Prefetch && Allowed(c, UInt(address), datasize / 8, acctype, false))
  {
    if memop == Load {
      LoadPairAllowed(c, s, address, datasize, acctype, datasize / 8);
    } else if memop == Store {
      ExecStorePairAllowed(c, s, address, acctype, RX(s, t, datasize), RX(s, t2, datasize), datasize / 8);
    }
  }

  lemma BaseFound(c: Config, i: MemoryOp, s: State, s1: State, check: bool)
    requires !i.LoadLiteral? && s1.sp == s.sp
    ensures BaseAddress(c, s1, i.n, check).Some? <==> (check ==> StackAligned(c, i, s))
  {
  }

  /** What an indexed access comes down to. */
  lemma IndexedIs(c: Config, i: MemoryOp, s: State)
    requires (i.LoadImmediate? || i.LoadRegister?) && WellFormedMemory(i)
    ensures ExecMemory(c, i, s)
         == if Conflicts(i) || BaseAddress(c, s, i.n, i.memop != Prefetch).None? then Exit
            else AccessSingle(c, Updated(i, s), i.t, i.acctype, i.memop, i.signed,
                              FootprintEvents.AccessAddress(i, s), i.regsize, i.datasize)
  {
    FootprintEvents.BaseIs(c, s, i.n, i.memop != Prefetch);
  }

  lemma PairIs(c: Config, i: MemoryOp, s: State)
    requires (i.LoadStorePair? || i.LoadStorePairNonTemp?) && WellFormedMemory(i) && i.memop != Prefetch
    ensures ExecMemory(c, i, s)
         == if Conflicts(i) || BaseAddress(c, s, i.n, true).None? then Exit
            else AccessPair(c, Updated(i, s), i.t, i.t2, i.acctype, i.memop, Signed(i),
                            FootprintEvents.AccessAddress(i, s), i.datasize)
  {
    FootprintEvents.BaseIs(c, s, i.n, true);
  }

  lemma PairPrefetches(c: Config, i: MemoryOp, s: State)
    requires (i.LoadStorePair? || i.LoadStorePairNonTemp?) && WellFormedMemory(i) && i.memop == Prefetch
    ensures ExecMemory(c, i, s) == Exit
  {
  }

  /** A load or store finishes exactly when it is accepted. */
  lemma AccessFinishes(c: Config, i: MemoryOp, s: State)
    requires WellFormedMemory(i)
    ensures ExecMemory(c, i, s).Done? <==> Accepts(c, i, s)
  {
    LocationExact(i, s);
    if i.LoadLiteral? {
      LiteralFinishes(c, i, s);
    } else if i.LoadStoreAcqExc? {
      ExclusiveFinishes(c, i, s);
    } else if i.LoadImmediate? || i.LoadRegister? {
      IndexedFinishes(c, i, s);
    } else {
      PairFinishes(c, i, s);
    }
  }

  lemma LiteralFinishes(c: Config, i: MemoryOp, s: State)
    requires WellFormedMemory(i) && i.LoadLiteral? && UInt(FootprintEvents.AccessAddress(i, s)) == Location(i, s)
    ensures ExecMemory(c, i, s).Done? <==> Accepts(c, i, s)
  {
    if i.memop == Load {
      LoadBitsAllowed(c, s, Plus(s.pc, i.offset), i.datasize, Normal, false, i.size);
    }
  }

  lemma IndexedFinishes(c: Config, i: MemoryOp, s: State)
    requires WellFormedMemory(i) && (i.LoadImmediate? || i.LoadRegister?)
    requires UInt(FootprintEvents.AccessAddress(i, s)) == Location(i, s)
    ensures ExecMemory(c, i, s).Done? <==> Accepts(c, i, s)
  {
    IndexedIs(c, i, s);
    BaseFound(c, i, s, s, i.memop != Prefetch);
    SingleAllowed(c, Updated(i, s), i.t, i.acctype, i.memop, i.signed, FootprintEvents.AccessAddress(i, s), i.regsize,
                  i.datasize);
  }

  lemma PairFinishes(c: Config, i: MemoryOp, s: State)
    requires WellFormedMemory(i) && (i.LoadStorePair? || i.LoadStorePairNonTemp?)
    requires UInt(FootprintEvents.AccessAddress(i, s)) == Location(i, s)
    ensures ExecMemory(c, i, s).Done? <==> Accepts(c, i, s)
  {
    if i.memop == Prefetch {
      PairPrefetches(c, i, s);
    } else {
      PairIs(c, i, s);
      BaseFound(c, i, s, s, true);
      PairAllowed(c, Updated(i, s), i.t, i.t2, i.acctype, i.memop, Signed(i), FootprintEvents.AccessAddress(i, s),
                  i.datasize);
    }
  }

  lemma ExclusiveFinishes(c: Config, i: MemoryOp, s: State)
    requires WellFormedMemory(i) && i.LoadStoreAcqExc?
    requires UInt(FootprintEvents.AccessAddress(i, s)) == Location(i, s)
    ensures ExecMemory(c, i, s).Done? <==> Accepts(c, i, s)
  {
    var s1 := StatusWritten(c, s, i);
    BaseFound(c, i, s, s1, true);
    ExclusiveIs(c, i, s, s1);
    if i.memop == Load {
      ExclusiveLoadAllowed(c, i, s1, FootprintEvents.AccessAddress(i, s));
    } else if i.memop == Store {
      ExclusiveStoreAllowed(c, i, s1, FootprintEvents.AccessAddress(i, s));
    }
  }

  lemma ExclusiveIs(c: Config, i: MemoryOp, s: State, s1: State)
    requires WellFormedMemory(i) && i.LoadStoreAcqExc? && s1 == StatusWritten(c, s, i)
    ensures ExecMemory(c, i, s)
         == if Conflicts(i) then Exit
            else if i.memop == Store && i.excl && !c.exclusiveSucceeds then Done(s1, [])
            else if BaseAddress(c, s1, i.n, true).None? || i.memop == Prefetch then Exit
            else if i.memop == Load then ExecExclusiveLoad(c, s1, i, FootprintEvents.AccessAddress(i, s))
            else ExecExclusiveStore(c, s1, i, FootprintEvents.AccessAddress(i, s))
  {
    FootprintEvents.BaseIs(c, s1, i.n, true);
  }

  lemma ExclusiveStoreAllowed(c: Config, i: MemoryOp, s: State, address: Word)
    requires WellFormedMemory(i) && i.LoadStoreAcqExc?
    ensures ExecExclusiveStore(c, s, i, address).Done?
       <==> ((i.pair ==> i.excl) && Allowed(c, UInt(address), i.datasize / 8, i.acctype, i.excl))
  {
    WordNumber(address);
    AlignedRemainder(UInt(address), i.datasize / 8);
    ExecStoreAllowed(c, s, address, i.acctype, StoreValue(c, s, i), i.excl, i.datasize / 8);
  }

  lemma ExclusiveLoadAllowed(c: Config, i: MemoryOp, s: State, address: Word)
    requires WellFormedMemory(i) && i.LoadStoreAcqExc?
    ensures ExecExclusiveLoad(c, s, i, address).Done?
       <==> ((i.pair ==> i.excl) && Allowed(c, UInt(address), i.datasize / 8, i.acctype, i.excl))
  {
    if !i.pair {
      LoadBitsAllowed(c, s, address, i.datasize, i.acctype, i.excl, i.datasize / 8);
    } else if i.excl {
      ExclusivePairAllowed(c, i, s, address);
    }
  }

  lemma ExclusivePairAllowed(c: Config, i: MemoryOp, s: State, address: Word)
    requires WellFormedMemory(i) && i.LoadStoreAcqExc? && i.pair && i.excl
    ensures ExecExclusiveLoad(c, s, i, address).Done? <==> Allowed(c, UInt(address), i.datasize / 8, i.acctype, true)
  {
    if i.elsize == 32 {
      LoadBitsAllowed(c, s, address, 64, i.acctype, true, 8);
    } else {
      DoublesAllowed(c, s, address, i.acctype);
    }
  }

  lemma DoublesAllowed(c: Config, s: State, address: Word, acctype: AccType)
    ensures Aligned(AddressOf(address), 16) && LoadPairBits(c, s, address, 64, acctype, true).Some?
       <==> Allowed(c, UInt(address), 16, acctype, true)
  {
    WordNumber(address);
    AlignedRemainder(UInt(address), 16);
    LoadTwoSucceeds(c.checkAlignment, c.bigEndian, s.mem, UInt(address), 8, acctype, true);
    if UInt(address) % 16 == 0 && acctype in {Atomic, Ordered} {
      AlignedPairPasses(c.checkAlignment, UInt(address), acctype);
    }
  }
}
