/** A store instruction followed by a load instruction of the same place: what comes back, for single
    registers, pairs and exclusive pairs, in both endiannesses. */
module StoreLoad {
  import opened Wrappers
  import opened BitVectors
  import opened Rts
  import opened Ram
  import opened MemAccess
  import opened Instructions
  import opened Semantics
  import AccessMeanings

  lemma TwoWrittenRead(s: State, t: RegIndex, v: Bits, t2: RegIndex, v2: Bits, w: nat)
    requires t != 31 && t2 != 31 && t != t2 && |v| == |v2| == w <= 64
    ensures RX(WX(WX(s, t, v), t2, v2), t, w) == v && RX(WX(WX(s, t, v), t2, v2), t2, w) == v2
  {
    WrittenReads(s, t, v, w);
    WrittenReads(WX(s, t, v), t2, v2, w);
    assert RX(WX(WX(s, t, v), t2, v2), t, w) == RX(WX(s, t, v), t, w);
    assert v[..w] == v && v2[..w] == v2;
  }

  // ----- single registers -----

  function StoreOp(n: RegIndex, t: RegIndex, acctype: AccType, offset: Word, width: nat): MemoryOp {
    LoadImmediate(n, t, acctype, Store, false, false, false, offset, if width == 64 then 64 else 32, width)
  }

  function LoadOp(n: RegIndex, t: RegIndex, acctype: AccType, signed: bool, offset: Word, regsize: nat,
                  width: nat): MemoryOp {
    LoadImmediate(n, t, acctype, Load, signed, false, false, offset, regsize, width)
  }

  /** What STR does when it finishes: its oriented value is in memory, nothing else changed. */
  lemma StoreEffect(c: Config, s: State, n: RegIndex, t: RegIndex, acctype: AccType, offset: Word, width: nat)
    requires DataWidth(width)
    ensures match ExecMemory(c, StoreOp(n, t, acctype, offset, width), s)
            case Exit => true
            case Done(s', _) =>
              BaseAddress(c, s, n, true).Some?
              && var a := AddressOf(Plus(BaseAddress(c, s, n, true).value, offset));
                 var m := StoreOne(c.checkAlignment, c.bigEndian, s.mem, a, width / 8, acctype, RX(s, t, width), false);
                 m.Some? && s' == s.(mem := m.value)
  {
  }

  /** STR then LDR from the same base and offset: the register loaded holds the number stored, read signed or
      unsigned as the load says, in both endiannesses, aligned or not, for every pair of access types that gets
      through; a load of the store's own type always does. */
  lemma StoreThenLoadRegister(c: Config, s: State, n: RegIndex, t: RegIndex, wtype: AccType, offset: Word, width: nat,
                              t': RegIndex, rtype: AccType, signed: bool, regsize: nat)
    requires DataWidth(width) && Width(regsize) && width <= regsize
    requires ExecMemory(c, StoreOp(n, t, wtype, offset, width), s).Done?
    ensures var s1 := ExecMemory(c, StoreOp(n, t, wtype, offset, width), s).state;
            var o := ExecMemory(c, LoadOp(n, t', rtype, signed, offset, regsize, width), s1);
            && (rtype == wtype ==> o.Done?)
            && (o.Done? && t' != 31 ==> RX(o.state, t', regsize) == ExtendTo(RX(s, t, width), regsize, signed))
            && (o.Done? && t' != 31 && signed ==> SInt(RX(o.state, t', regsize)) == SInt(RX(s, t, width)))
            && (o.Done? && t' != 31 && !signed ==> UInt(RX(o.state, t', regsize)) == UInt(RX(s, t, width)))
  {
    StoreEffect(c, s, n, t, wtype, offset, width);
    var address := Plus(BaseAddress(c, s, n, true).value, offset);
    var s1 := ExecMemory(c, StoreOp(n, t, wtype, offset, width), s).state;
    ValueStored(c, s, s1, address, width, RX(s, t, width), wtype, rtype);
    LoadEffect(c, s1, n, t', rtype, signed, offset, regsize, width, address);
    if t' != 31 { ExtendedReads(s1, t', RX(s, t, width), regsize, signed); }
  }

  lemma ValueStored(c: Config, s: State, s1: State, address: Word, width: nat, v: Bits, wtype: AccType, rtype: AccType)
    requires DataWidth(width) && |v| == width
    requires var m := StoreOne(c.checkAlignment, c.bigEndian, s.mem, AddressOf(address), width / 8, wtype, v, false);
             m.Some? && s1.mem == m.value
    ensures var load := LoadBits(c, s1, address, width, rtype, false);
            (load.Some? ==> load.value.1 == v) && (rtype == wtype ==> load.Some?)
  {
    StoreThenLoad(c.checkAlignment, c.bigEndian, s.mem, AddressOf(address), width / 8, v, wtype, false, rtype, false);
  }

  lemma ExtendedReads(s: State, t: RegIndex, v: Bits, regsize: nat, signed: bool)
    requires t != 31 && 0 < |v| <= regsize <= 64
    ensures var r := RX(WX(s, t, ExtendTo(v, regsize, signed)), t, regsize);
            r == ExtendTo(v, regsize, signed) && (if signed then SInt(r) == SInt(v) else UInt(r) == UInt(v))
  {
    var e := ExtendTo(v, regsize, signed);
    AccessMeanings.ExtendToReading(v, regsize, signed);
    WrittenReads(s, t, e, regsize);
    assert e[..regsize] == e;
  }

  lemma LoadEffect(c: Config, s: State, n: RegIndex, t: RegIndex, acctype: AccType, signed: bool, offset: Word,
                   regsize: nat, width: nat, address: Word)
    requires DataWidth(width) && Width(regsize) && width <= regsize
    requires BaseAddress(c, s, n, true).Some? && address == Plus(BaseAddress(c, s, n, true).value, offset)
    ensures var o := ExecMemory(c, LoadOp(n, t, acctype, signed, offset, regsize, width), s);
            var load := LoadBits(c, s, address, width, acctype, false);
            && (o.Done? <==> load.Some?)
            && (o.Done? ==> o.state == WX(s, t, ExtendTo(load.value.1, regsize, signed)))
  {
  }

  // ----- pairs -----

  function StorePairOp(n: RegIndex, t: RegIndex, t2: RegIndex, offset: Word, width: nat): MemoryOp {
    LoadStorePair(false, false, n, t, t2, Normal, Store, false, width, offset)
  }

  function LoadPairOp(n: RegIndex, t: RegIndex, t2: RegIndex, offset: Word, width: nat): MemoryOp {
    LoadStorePair(false, false, n, t, t2, Normal, Load, false, width, offset)
  }

  lemma StorePairEffect(c: Config, s: State, n: RegIndex, t: RegIndex, t2: RegIndex, offset: Word, width: nat)
    requires Width(width)
    ensures match ExecMemory(c, StorePairOp(n, t, t2, offset, width), s)
            case Exit => true
            case Done(s', _) =>
              BaseAddress(c, s, n, true).Some?
              && var a := AddressOf(Plus(BaseAddress(c, s, n, true).value, offset));
                 var m := StoreTwo(c.checkAlignment, c.bigEndian, s.mem, a, width / 8, Normal, RX(s, t, width),
                                   RX(s, t2, width));
                 m == Some(s'.mem) && s' == s.(mem := s'.mem)
  {
  }

  lemma LoadPairEffect(c: Config, s: State, n: RegIndex, t: RegIndex, t2: RegIndex, offset: Word, width: nat,
                       address: Word)
    requires Width(width)
    requires BaseAddress(c, s, n, true).Some? && address == Plus(BaseAddress(c, s, n, true).value, offset)
    ensures var o := ExecMemory(c, LoadPairOp(n, t, t2, offset, width), s);
            var load := LoadPairBits(c, s, address, width, Normal, false);
            && (o.Done? <==> load.Some? && t != t2)
            && (o.Done? ==> o.state == WX(WX(s, t, load.value.1[..width]), t2, load.value.1[width..]))
  {
    var load := LoadPairBits(c, s, address, width, Normal, false);
    if load.Some? {
      SameWidth(load.value.1[..width]);
      SameWidth(load.value.1[width..]);
    }
  }

  lemma SameWidth(v: Bits)
    requires |v| > 0
    ensures ExtendTo(v, |v|, false) == v
  {
  }

  /** STP then LDP of the same place into two different registers always gets through: little-endian memory
      returns the pair, big-endian memory returns it with the two registers exchanged. */
  lemma StorePairThenLoadPair(c: Config, s: State, n: RegIndex, t: RegIndex, t2: RegIndex, offset: Word, width: nat,
                              r: RegIndex, r2: RegIndex)
    requires Width(width) && r != 31 && r2 != 31 && r != r2
    requires ExecMemory(c, StorePairOp(n, t, t2, offset, width), s).Done?
    ensures var s1 := ExecMemory(c, StorePairOp(n, t, t2, offset, width), s).state;
            var o := ExecMemory(c, LoadPairOp(n, r, r2, offset, width), s1);
            var (first, second) := if c.bigEndian then (t2, t) else (t, t2);
            o.Done? && RX(o.state, r, width) == RX(s, first, width) && RX(o.state, r2, width) == RX(s, second, width)
  {
    StorePairEffect(c, s, n, t, t2, offset, width);
    var address := Plus(BaseAddress(c, s, n, true).value, offset);
    var s1 := ExecMemory(c, StorePairOp(n, t, t2, offset, width), s).state;
    LoadPairEffect(c, s1, n, r, r2, offset, width, address);
    PairLoaded(c, s, s1, address, width, RX(s, t, width), RX(s, t2, width), r, r2);
  }

  lemma PairLoaded(c: Config, s: State, s1: State, address: Word, width: nat, v: Bits, v2: Bits, r: RegIndex,
                   r2: RegIndex)
    requires Width(width) && |v| == |v2| == width && r != 31 && r2 != 31 && r != r2
    requires StoreTwo(c.checkAlignment, c.bigEndian, s.mem, AddressOf(address), width / 8, Normal, v, v2)
          == Some(s1.mem)
    ensures var load := LoadPairBits(c, s1, address, width, Normal, false);
            && load.Some?
            && var s2 := WX(WX(s1, r, load.value.1[..width]), r2, load.value.1[width..]);
               var (first, second) := if c.bigEndian then (v2, v) else (v, v2);
               RX(s2, r, width) == first && RX(s2, r2, width) == second
  {
    PairStoreThenLoad(c.checkAlignment, c.bigEndian, s.mem, AddressOf(address), width / 8, v, v2, Normal, Normal,
                      false);
    ReadBackHalves(c.bigEndian, v, v2);
    TwoWrittenRead(s1, r, if c.bigEndian then v2 else v, r2, if c.bigEndian then v else v2, width);
  }

  lemma ReadBackHalves(bigEndian: bool, v: Bits, v2: Bits)
    requires |v| == |v2|
    ensures PairReadBack(bigEndian, v, v2)[..|v|] == (if bigEndian then v2 else v)
    ensures PairReadBack(bigEndian, v, v2)[|v|..] == (if bigEndian then v else v2)
  {
  }

  // ----- exclusive pairs -----

  function ExclusivePair(n: RegIndex, t: RegIndex, t2: RegIndex, st: RegIndex, acctype: AccType, memop: MemOp,
                         width: nat): MemoryOp {
    LoadStoreAcqExc(n, t, t2, st, acctype, true, true, memop, width, width, 2 * width)
  }

  /** The memory of a finished store. */
  lemma StoreLeaves(c: Config, s: State, address: Word, acctype: AccType, value: Bits, excl: bool)
    requires DataWidth(|value|) || |value| == 128
    requires ExecStore(c, s, address, acctype, value, excl).Done?
    ensures StoreOne(c.checkAlignment, c.bigEndian, s.mem, AddressOf(address), |value| / 8, acctype, value, excl)
         == Some(ExecStore(c, s, address, acctype, value, excl).state.mem)
  {
  }

  lemma WordsReadBack(c: Config, s: State, s1: State, address: Word, v: Bits, v2: Bits, wtype: AccType, rtype: AccType,
                      r: RegIndex, r2: RegIndex)
    requires |v| == |v2| == 32 && r != 31 && r2 != 31 && r != r2
    requires StoreOne(c.checkAlignment, c.bigEndian, s.mem, AddressOf(address), 8, wtype,
                      PairData(c.bigEndian, v, v2), true)
          == Some(s1.mem)
    ensures var o := ExecLoadWords(c, s1, rtype, address, r, r2);
            (rtype == wtype ==> o.Done?) && (o.Done? ==> RX(o.state, r, 32) == v && RX(o.state, r2, 32) == v2)
  {
    var data := PairData(c.bigEndian, v, v2);
    StoreThenLoad(c.checkAlignment, c.bigEndian, s.mem, AddressOf(address), 8, data, wtype, true, rtype, true);
    var load := LoadBits(c, s1, address, 64, rtype, true);
    assert load.Some? ==> load.value.1 == data;
    assert c.bigEndian ==> data[32..] == v && data[..32] == v2;
    assert !c.bigEndian ==> data[..32] == v && data[32..] == v2;
    TwoWrittenRead(s1, r, v, r2, v2, 32);
  }

  /** Sixteen bytes stored at once and loaded as two doublewords of one buffer. */
  lemma DoublesStored(checked: bool, bigEndian: bool, m: Mem, m': Mem, a: Address, data: Bits, wtype: AccType,
                      rtype: AccType)
    requires |data| == 128 && StoreOne(checked, bigEndian, m, a, 16, wtype, data, true) == Some(m')
    ensures var load := LoadTwo(checked, bigEndian, m', a, 8, rtype, true); load.Some? ==> load.value.1 == data
  {
    StoreOneMemory(checked, bigEndian, m, a, 16, wtype, data, true);
    LoadTwoValue(checked, bigEndian, m', a, 8, rtype, true);
    DataReadBack(bigEndian, m, a, data);
  }

  lemma DataReadBack(bigEndian: bool, m: Mem, a: Address, data: Bits)
    requires |data| == 128
    ensures Oriented(bigEndian, ToBits(128, Loaded(Stored(m, a, 16, UInt(Oriented(bigEndian, data))), a, 16))) == data
  {
    LoadStored(m, a, 16, Oriented(bigEndian, data));
    OrientedTwice(bigEndian, data);
  }

  lemma DoublesLoad(checked: bool, bigEndian: bool, m': Mem, a: Address, acctype: AccType)
    requires Aligned(a, 16) && WriteKindOf(acctype, true).Some?
    ensures LoadTwo(checked, bigEndian, m', a, 8, acctype, true).Some?
  {
    AlignedPairPasses(checked, a, acctype);
    LoadTwoSucceeds(checked, bigEndian, m', a, 8, acctype, true);
  }

  lemma DoublesReadBack(c: Config, s: State, s1: State, address: Word, v: Bits, v2: Bits, wtype: AccType,
                        rtype: AccType, r: RegIndex, r2: RegIndex)
    requires |v| == |v2| == 64 && r != 31 && r2 != 31 && r != r2 && Aligned(AddressOf(address), 16)
    requires StoreOne(c.checkAlignment, c.bigEndian, s.mem, AddressOf(address), 16, wtype,
                      PairData(c.bigEndian, v, v2), true)
          == Some(s1.mem)
    ensures var o := ExecLoadPair(c, s1, address, 64, rtype, true, r, r2, 64, false);
            var (first, second) := if c.bigEndian then (v2, v) else (v, v2);
            (rtype == wtype ==> o.Done?) && (o.Done? ==> RX(o.state, r, 64) == first && RX(o.state, r2, 64) == second)
  {
    var data := PairData(c.bigEndian, v, v2);
    var a := AddressOf(address);
    DoublesStored(c.checkAlignment, c.bigEndian, s.mem, s1.mem, a, data, wtype, rtype);
    if rtype == wtype {
      StoreSucceeds(c.checkAlignment, c.bigEndian, s.mem, a, 16, data, wtype, true);
      DoublesLoad(c.checkAlignment, c.bigEndian, s1.mem, a, rtype);
    }
    var first, second := data[..64], data[64..];
    assert first == (if c.bigEndian then v2 else v) && second == (if c.bigEndian then v else v2);
    SameWidth(first);
    SameWidth(second);
    TwoWrittenRead(s1, r, first, r2, second, 64);
  }

  /** STXP (or STLXP) that succeeds, then LDXP (or LDAXP) from the same base register. The two 32-bit registers
      come back in both endiannesses; two 64-bit registers come back exchanged in big-endian memory, because only
      the 32-bit load looks at the endianness when it splits the value. A load of the store's own access type
      always gets through. */
  lemma StoreExclusiveThenLoad(c: Config, s: State, n: RegIndex, t: RegIndex, t2: RegIndex, st: RegIndex,
                               wtype: AccType, rtype: AccType, width: nat, r: RegIndex, r2: RegIndex)
    requires Width(width) && r != 31 && r2 != 31 && r != r2 && c.exclusiveSucceeds
    requires ExecAcqExc(c, s, ExclusivePair(n, t, t2, st, wtype, Store, width)).Done?
    ensures var s1 := ExecAcqExc(c, s, ExclusivePair(n, t, t2, st, wtype, Store, width)).state;
            var o := ExecAcqExc(c, s1, ExclusivePair(n, r, r2, 31, rtype, Load, width));
            var (first, second) := if c.bigEndian && width == 64 then (t2, t) else (t, t2);
            && (rtype == wtype ==> o.Done?)
            && (o.Done? ==>
                  RX(o.state, r, width) == RX(s, first, width) && RX(o.state, r2, width) == RX(s, second, width))
  {
    var i, j := ExclusivePair(n, t, t2, st, wtype, Store, width), ExclusivePair(n, r, r2, 31, rtype, Load, width);
    var s0 := StatusWritten(c, s, i);
    StatusLeavesOperands(c, s, i);
    var address := BaseAddress(c, s0, n, true).value;
    StoreExclusiveEffect(c, s, i, address);
    var s1 := ExecAcqExc(c, s, i).state;
    StoreLeaves(c, s0, address, wtype, PairData(c.bigEndian, RX(s0, t, width), RX(s0, t2, width)), true);
    LoadExclusiveEffect(c, s1, j, address);
    ExclusiveReadBack(c, s0, s1, address, width, RX(s0, t, width), RX(s0, t2, width), wtype, rtype, r, r2,
                      ExecAcqExc(c, s1, j));
  }

  lemma ExclusiveReadBack(c: Config, s: State, s1: State, address: Word, width: nat, v: Bits, v2: Bits, wtype: AccType,
                          rtype: AccType, r: RegIndex, r2: RegIndex, o: Outcome)
    requires Width(width) && |v| == |v2| == width && r != 31 && r2 != 31 && r != r2
    requires Aligned(AddressOf(address), 2 * width / 8)
    requires StoreOne(c.checkAlignment, c.bigEndian, s.mem, AddressOf(address), 2 * width / 8, wtype,
                      PairData(c.bigEndian, v, v2), true) == Some(s1.mem)
    requires o == if width == 32 then ExecLoadWords(c, s1, rtype, address, r, r2)
                  else ExecLoadPair(c, s1, address, 64, rtype, true, r, r2, 64, false)
    ensures var (first, second) := if c.bigEndian && width == 64 then (v2, v) else (v, v2);
            && (rtype == wtype ==> o.Done?)
            && (o.Done? ==> RX(o.state, r, width) == first && RX(o.state, r2, width) == second)
  {
    if width == 32 {
      WordsReadBack(c, s, s1, address, v, v2, wtype, rtype, r, r2);
    } else {
      DoublesReadBack(c, s, s1, address, v, v2, wtype, rtype, r, r2);
    }
  }

  /** A store-exclusive that is defined never overwrites its own operands with the status. */
  lemma StatusLeavesOperands(c: Config, s: State, i: MemoryOp)
    requires i.LoadStoreAcqExc? && WellFormedMemory(i) && i.memop == Store && i.pair && i.excl
    requires ExecAcqExc(c, s, i).Done?
    ensures var s0 := StatusWritten(c, s, i);
            RX(s0, i.t, i.regsize) == RX(s, i.t, i.regsize) && RX(s0, i.t2, i.regsize) == RX(s, i.t2, i.regsize)
  {
  }

  /** What the store does once the status says success; the address was found aligned. */
  lemma StoreExclusiveEffect(c: Config, s: State, i: MemoryOp, address: Word)
    requires i.LoadStoreAcqExc? && WellFormedMemory(i) && i.memop == Store && i.pair && i.excl && c.exclusiveSucceeds
    requires BaseAddress(c, StatusWritten(c, s, i), i.n, true) == Some(address)
    requires ExecAcqExc(c, s, i).Done?
    ensures var s0 := StatusWritten(c, s, i);
            Aligned(AddressOf(address), i.datasize / 8)
            && ExecAcqExc(c, s, i)
               == ExecStore(c, s0, address, i.acctype,
                            PairData(c.bigEndian, RX(s0, i.t, i.regsize), RX(s0, i.t2, i.regsize)), true)
  {
  }

  /** The load splits the words of one read, or fills its buffer with two doublewords. */
  lemma LoadExclusiveEffect(c: Config, s: State, j: MemoryOp, address: Word)
    requires j.LoadStoreAcqExc? && WellFormedMemory(j) && j.memop == Load && j.pair && j.excl && j.t != j.t2
    requires BaseAddress(c, s, j.n, true) == Some(address) && (j.elsize == 64 ==> Aligned(AddressOf(address), 16))
    ensures ExecAcqExc(c, s, j)
         == if j.elsize == 32 then ExecLoadWords(c, s, j.acctype, address, j.t, j.t2)
            else ExecLoadPair(c, s, address, 64, j.acctype, true, j.t, j.t2, 64, false)
  {
  }
}
