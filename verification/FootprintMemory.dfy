/** Footprint soundness of loads and stores. */
module FootprintMemory {
  import opened Wrappers
  import opened BitVectors
  import opened A64Lib
  import opened MemAccess
  import opened Instructions
  import opened Semantics
  import opened Footprint
  import opened Agreement

  // ----- elementary steps -----

  lemma BaseAgrees(c: Config, s: State, t: State, F: set<Reg>, n: RegIndex, check: bool)
    requires Agree(s, t, F) && BaseFP(n) <= F
    ensures BaseAddress(c, s, n, check) == BaseAddress(c, t, n, check)
  {
    if n == 31 { assert SpEl0 in RSP_FP; AgreeSp(s, t, F); } else { AgreeX(s, t, F, n, 64); }
  }

  lemma WriteBackAgrees(s: State, t: State, F: set<Reg>, wback: bool, n: RegIndex, v: Word)
    requires Agree(s, t, F)
    ensures Agree(WriteBack(s, wback, n, v), WriteBack(t, wback, n, v), F + WriteBackWrites(wback, n))
  {
    if wback { if n == 31 { WriteSp(s, t, F, v); } else { WriteX(s, t, F, n, v); } }
  }

  lemma WriteBackOnly(s: State, wback: bool, n: RegIndex, v: Word)
    ensures Only(s, WriteBack(s, wback, n, v), WriteBackWrites(wback, n))
  {
  }

  lemma StoreMatching(c: Config, s: State, t: State, F: set<Reg>, address: Word, acctype: AccType, value: Bits,
                      excl: bool)
    requires Agree(s, t, F) && (DataWidth(|value|) || |value| == 128)
    ensures Matching(ExecStore(c, s, address, acctype, value, excl), ExecStore(c, t, address, acctype, value, excl), F)
    ensures Frame(s, ExecStore(c, s, address, acctype, value, excl), {})
  {
  }

  lemma StorePairMatching(c: Config, s: State, t: State, F: set<Reg>, address: Word, acctype: AccType, v1: Bits,
                          v2: Bits)
    requires Agree(s, t, F) && Width(|v1|) && |v1| == |v2|
    ensures Matching(ExecStorePair(c, s, address, acctype, v1, v2), ExecStorePair(c, t, address, acctype, v1, v2), F)
    ensures Frame(s, ExecStorePair(c, s, address, acctype, v1, v2), {})
  {
  }

  lemma LoadMatching(c: Config, s: State, u: State, F: set<Reg>, address: Word, datasize: nat, acctype: AccType,
                     excl: bool, t: RegIndex, signed: bool, regsize: nat)
    requires Agree(s, u, F) && DataWidth(datasize) && Width(regsize) && datasize <= regsize
    ensures Matching(ExecLoad(c, s, address, datasize, acctype, excl, t, signed, regsize),
                     ExecLoad(c, u, address, datasize, acctype, excl, t, signed, regsize), F + XFP(t))
    ensures Frame(s, ExecLoad(c, s, address, datasize, acctype, excl, t, signed, regsize), XFP(t))
  {
    var load := LoadBits(c, s, address, datasize, acctype, excl);
    assert load == LoadBits(c, u, address, datasize, acctype, excl);
    if load.Some? { OneWrite(s, u, F, t, ExtendTo(load.value.1, regsize, signed)); }
  }

  lemma OneWrite(s: State, u: State, F: set<Reg>, t: RegIndex, v: Bits)
    requires Agree(s, u, F) && |v| <= 64
    ensures Agree(WX(s, t, v), WX(u, t, v), F + XFP(t)) && Only(s, WX(s, t, v), XFP(t))
  {
    WriteX(s, u, F, t, v);
    OnlyX(s, t, v);
  }

  lemma TwoWrites(s: State, u: State, F: set<Reg>, t: RegIndex, v: Bits, t2: RegIndex, v2: Bits)
    requires Agree(s, u, F) && |v| <= 64 && |v2| <= 64
    ensures Agree(WX(WX(s, t, v), t2, v2), WX(WX(u, t, v), t2, v2), F + (XFP(t) + XFP(t2)))
    ensures Only(s, WX(WX(s, t, v), t2, v2), XFP(t) + XFP(t2))
  {
    WriteX(s, u, F, t, v);
    WriteX(WX(s, t, v), WX(u, t, v), F + XFP(t), t2, v2);
    assert F + XFP(t) + XFP(t2) == F + (XFP(t) + XFP(t2));
    OnlyX(s, t, v);
    OnlyX(WX(s, t, v), t2, v2);
    OnlyTrans(s, WX(s, t, v), WX(WX(s, t, v), t2, v2), XFP(t), XFP(t2));
  }

  lemma LoadPairMatching(c: Config, s: State, u: State, F: set<Reg>, address: Word, datasize: nat, acctype: AccType,
                         excl: bool, t: RegIndex, t2: RegIndex, regsize: nat, signed: bool)
    requires Agree(s, u, F) && Width(datasize) && datasize <= regsize <= 64
    ensures Matching(ExecLoadPair(c, s, address, datasize, acctype, excl, t, t2, regsize, signed),
                     ExecLoadPair(c, u, address, datasize, acctype, excl, t, t2, regsize, signed),
                     F + (XFP(t) + XFP(t2)))
    ensures Frame(s, ExecLoadPair(c, s, address, datasize, acctype, excl, t, t2, regsize, signed), XFP(t) + XFP(t2))
  {
    var load := LoadPairBits(c, s, address, datasize, acctype, excl);
    assert load == LoadPairBits(c, u, address, datasize, acctype, excl);
    if load.Some? {
      var data := load.value.1;
      TwoWrites(s, u, F, t, ExtendTo(data[..datasize], regsize, signed), t2,
                ExtendTo(data[datasize..], regsize, signed));
    }
  }

  lemma FrameAfter(s: State, s1: State, o: Outcome, W1: set<Reg>, W2: set<Reg>)
    requires Only(s, s1, W1) && Frame(s1, o, W2)
    ensures Frame(s, o, W1 + W2)
  {
    if o.Done? { OnlyTrans(s, s1, o.state, W1, W2); }
  }

  // ----- single registers -----

  function SingleWrites(wback: bool, n: RegIndex, memop: MemOp, t: RegIndex): set<Reg> {
    WriteBackWrites(wback, n) + If(memop == Load, XFP(t))
  }

  lemma SingleMatching(c: Config, s: State, u: State, F: set<Reg>, n: RegIndex, t: RegIndex, acctype: AccType,
                       memop: MemOp, signed: bool, wback: bool, postindex: bool, offset: Word, regsize: nat,
                       datasize: nat)
    requires Agree(s, u, F) && Width(regsize) && DataWidth(datasize) && datasize <= regsize
    requires BaseFP(n) <= F && (memop == Store ==> XFP(t) <= F)
    ensures Matching(ExecSingle(c, s, n, t, acctype, memop, signed, wback, postindex, offset, regsize, datasize),
                     ExecSingle(c, u, n, t, acctype, memop, signed, wback, postindex, offset, regsize, datasize),
                     F + SingleWrites(wback, n, memop, t))
    ensures Frame(s, ExecSingle(c, s, n, t, acctype, memop, signed, wback, postindex, offset, regsize, datasize),
                  SingleWrites(wback, n, memop, t))
  {
    BaseAgrees(c, s, u, F, n, memop != Prefetch);
    var base := BaseAddress(c, s, n, memop != Prefetch);
    SingleIs(c, s, base, n, t, acctype, memop, signed, wback, postindex, offset, regsize, datasize);
    SingleIs(c, u, base, n, t, acctype, memop, signed, wback, postindex, offset, regsize, datasize);
    if !(memop != Prefetch && wback && n == t && n != 31) && base.Some? {
      AfterBase(c, s, u, F, base.value, n, t, acctype, memop, signed, wback, postindex, offset, regsize, datasize);
    }
  }

  lemma SingleIs(c: Config, s: State, base: Option<Word>, n: RegIndex, t: RegIndex, acctype: AccType, memop: MemOp,
                 signed: bool, wback: bool, postindex: bool, offset: Word, regsize: nat, datasize: nat)
    requires Width(regsize) && DataWidth(datasize) && datasize <= regsize
    requires base == BaseAddress(c, s, n, memop != Prefetch)
    ensures ExecSingle(c, s, n, t, acctype, memop, signed, wback, postindex, offset, regsize, datasize)
         == if (memop != Prefetch && wback && n == t && n != 31) || base.None? then Exit
            else SingleAt(c, s, base.value, n, t, acctype, memop, signed, wback, postindex, offset, regsize, datasize)
  {
  }

  lemma AfterBase(c: Config, s: State, u: State, F: set<Reg>, base: Word, n: RegIndex, t: RegIndex, acctype: AccType,
                  memop: MemOp, signed: bool, wback: bool, postindex: bool, offset: Word, regsize: nat, datasize: nat)
    requires Agree(s, u, F) && Width(regsize) && DataWidth(datasize) && datasize <= regsize
    requires memop == Store ==> XFP(t) <= F
    ensures Matching(SingleAt(c, s, base, n, t, acctype, memop, signed, wback, postindex, offset, regsize, datasize),
                     SingleAt(c, u, base, n, t, acctype, memop, signed, wback, postindex, offset, regsize, datasize),
                     F + SingleWrites(wback, n, memop, t))
    ensures Frame(s, SingleAt(c, s, base, n, t, acctype, memop, signed, wback, postindex, offset, regsize, datasize),
                  SingleWrites(wback, n, memop, t))
  {
    var address := Offset(base, offset, !postindex);
    var back := Offset(address, offset, postindex);
    var s1, u1 := WriteBack(s, wback, n, back), WriteBack(u, wback, n, back);
    var W := WriteBackWrites(wback, n);
    WriteBackAgrees(s, u, F, wback, n, back);
    WriteBackOnly(s, wback, n, back);
    SingleEnds(c, s, s1, base, n, t, acctype, memop, signed, wback, postindex, offset, address, regsize, datasize);
    SingleEnds(c, u, u1, base, n, t, acctype, memop, signed, wback, postindex, offset, address, regsize, datasize);
    AccessMatching(c, s1, u1, F + W, t, acctype, memop, signed, address, regsize, datasize);
    AfterBoth(s, s1, AccessSingle(c, s1, t, acctype, memop, signed, address, regsize, datasize),
              AccessSingle(c, u1, t, acctype, memop, signed, address, regsize, datasize), F, W,
              If(memop == Load, XFP(t)));
  }

  lemma AfterBoth(s: State, s1: State, o: Outcome, p: Outcome, F: set<Reg>, W1: set<Reg>, W2: set<Reg>)
    requires Only(s, s1, W1) && Frame(s1, o, W2) && Matching(o, p, F + W1 + W2)
    ensures Matching(o, p, F + (W1 + W2)) && Frame(s, o, W1 + W2)
  {
    FrameAfter(s, s1, o, W1, W2);
    assert F + W1 + W2 == F + (W1 + W2);
  }

  lemma AccessMatching(c: Config, s: State, u: State, F: set<Reg>, t: RegIndex, acctype: AccType, memop: MemOp,
                       signed: bool, address: Word, regsize: nat, datasize: nat)
    requires Agree(s, u, F) && Width(regsize) && DataWidth(datasize) && datasize <= regsize
    requires memop == Store ==> XFP(t) <= F
    ensures Matching(AccessSingle(c, s, t, acctype, memop, signed, address, regsize, datasize),
                     AccessSingle(c, u, t, acctype, memop, signed, address, regsize, datasize),
                     F + If(memop == Load, XFP(t)))
    ensures Frame(s, AccessSingle(c, s, t, acctype, memop, signed, address, regsize, datasize),
                  If(memop == Load, XFP(t)))
  {
    if memop == Store {
      AgreeX(s, u, F, t, datasize);
      StoreMatching(c, s, u, F, address, acctype, RX(s, t, datasize), false);
      assert F + {} == F;
    } else if memop == Load {
      LoadMatching(c, s, u, F, address, datasize, acctype, false, t, signed, regsize);
    }
  }

  // ----- pairs -----

  function PairWrites(wback: bool, n: RegIndex, memop: MemOp, t: RegIndex, t2: RegIndex): set<Reg> {
    WriteBackWrites(wback, n) + If(memop == Load, XFP(t) + XFP(t2))
  }

  lemma PairMatching(c: Config, s: State, u: State, F: set<Reg>, undefined: bool, wback: bool, postindex: bool,
                     n: RegIndex, t: RegIndex, t2: RegIndex, acctype: AccType, memop: MemOp, signed: bool,
                     datasize: nat, offset: Word)
    requires Agree(s, u, F) && Width(datasize)
    requires BaseFP(n) <= F && (memop == Store ==> XFP(t) <= F && XFP(t2) <= F)
    ensures Matching(ExecPair(c, s, undefined, wback, postindex, n, t, t2, acctype, memop, signed, datasize, offset),
                     ExecPair(c, u, undefined, wback, postindex, n, t, t2, acctype, memop, signed, datasize, offset),
                     F + PairWrites(wback, n, memop, t, t2))
    ensures Frame(s, ExecPair(c, s, undefined, wback, postindex, n, t, t2, acctype, memop, signed, datasize, offset),
                  PairWrites(wback, n, memop, t, t2))
  {
    BaseAgrees(c, s, u, F, n, true);
    var base := BaseAddress(c, s, n, true);
    if !undefined && base.Some? {
      AfterPairBase(c, s, u, F, base.value, wback, postindex, n, t, t2, acctype, memop, signed, datasize, offset);
    }
  }

  lemma AfterPairBase(c: Config, s: State, u: State, F: set<Reg>, base: Word, wback: bool, postindex: bool, n: RegIndex,
                      t: RegIndex, t2: RegIndex, acctype: AccType, memop: MemOp, signed: bool, datasize: nat,
                      offset: Word)
    requires Agree(s, u, F) && Width(datasize)
    requires memop == Store ==> XFP(t) <= F && XFP(t2) <= F
    ensures Matching(PairAt(c, s, base, wback, postindex, n, t, t2, acctype, memop, signed, datasize, offset),
                     PairAt(c, u, base, wback, postindex, n, t, t2, acctype, memop, signed, datasize, offset),
                     F + PairWrites(wback, n, memop, t, t2))
    ensures Frame(s, PairAt(c, s, base, wback, postindex, n, t, t2, acctype, memop, signed, datasize, offset),
                  PairWrites(wback, n, memop, t, t2))
  {
    var address := Offset(base, offset, !postindex);
    var back := Offset(address, offset, postindex);
    var s1, u1 := WriteBack(s, wback, n, back), WriteBack(u, wback, n, back);
    var W := WriteBackWrites(wback, n);
    WriteBackAgrees(s, u, F, wback, n, back);
    WriteBackOnly(s, wback, n, back);
    PairEnds(c, s, s1, base, wback, postindex, n, t, t2, acctype, memop, signed, datasize, offset, address);
    PairEnds(c, u, u1, base, wback, postindex, n, t, t2, acctype, memop, signed, datasize, offset, address);
    PairAccessMatching(c, s1, u1, F + W, t, t2, acctype, memop, signed, address, datasize);
    AfterBoth(s, s1, AccessPair(c, s1, t, t2, acctype, memop, signed, address, datasize),
              AccessPair(c, u1, t, t2, acctype, memop, signed, address, datasize), F, W,
              If(memop == Load, XFP(t) + XFP(t2)));
  }

  lemma PairAccessMatching(c: Config, s: State, u: State, F: set<Reg>, t: RegIndex, t2: RegIndex, acctype: AccType,
                           memop: MemOp, signed: bool, address: Word, datasize: nat)
    requires Agree(s, u, F) && Width(datasize)
    requires memop == Store ==> XFP(t) <= F && XFP(t2) <= F
    ensures Matching(AccessPair(c, s, t, t2, acctype, memop, signed, address, datasize),
                     AccessPair(c, u, t, t2, acctype, memop, signed, address, datasize),
                     F + If(memop == Load, XFP(t) + XFP(t2)))
    ensures Frame(s, AccessPair(c, s, t, t2, acctype, memop, signed, address, datasize),
                  If(memop == Load, XFP(t) + XFP(t2)))
  {
    match memop
    case Store =>
      AgreeX(s, u, F, t, datasize);
      AgreeX(s, u, F, t2, datasize);
      StorePairMatching(c, s, u, F, address, acctype, RX(s, t, datasize), RX(s, t2, datasize));
      assert F + {} == F;
    case Load =>
      LoadPairMatching(c, s, u, F, address, datasize, acctype, false, t, t2, if signed then 64 else datasize, signed);
    case Prefetch =>
  }

  // ----- acquire, release and exclusive -----

  lemma LoadWordsMatching(c: Config, s: State, u: State, F: set<Reg>, acctype: AccType, address: Word,
                          t: RegIndex, t2: RegIndex)
    requires Agree(s, u, F)
    ensures Matching(ExecLoadWords(c, s, acctype, address, t, t2), ExecLoadWords(c, u, acctype, address, t, t2),
                     F + (XFP(t) + XFP(t2)))
    ensures Frame(s, ExecLoadWords(c, s, acctype, address, t, t2), XFP(t) + XFP(t2))
  {
    var load := LoadBits(c, s, address, 64, acctype, true);
    assert load == LoadBits(c, u, address, 64, acctype, true);
    if load.Some? {
      var data := load.value.1;
      var (first, second) := if c.bigEndian then (data[32..], data[..32]) else (data[..32], data[32..]);
      TwoWrites(s, u, F, t, first, t2, second);
    }
  }

  lemma ExclusiveLoadMatching(c: Config, s: State, u: State, F: set<Reg>, i: MemoryOp, address: Word)
    requires i.LoadStoreAcqExc? && WellFormedMemory(i) && Agree(s, u, F)
    ensures Matching(ExecExclusiveLoad(c, s, i, address), ExecExclusiveLoad(c, u, i, address),
                     F + (XFP(i.t) + If(i.pair, XFP(i.t2))))
    ensures Frame(s, ExecExclusiveLoad(c, s, i, address), XFP(i.t) + If(i.pair, XFP(i.t2)))
  {
    if !i.pair {
      LoadMatching(c, s, u, F, address, i.datasize, i.acctype, i.excl, i.t, false, i.regsize);
    } else if i.elsize == 32 {
      LoadWordsMatching(c, s, u, F, i.acctype, address, i.t, i.t2);
    } else {
      LoadPairMatching(c, s, u, F, address, 64, i.acctype, true, i.t, i.t2, 64, false);
    }
  }

  lemma ExclusiveStoreMatching(c: Config, s: State, u: State, F: set<Reg>, i: MemoryOp, address: Word)
    requires i.LoadStoreAcqExc? && WellFormedMemory(i) && Agree(s, u, F)
    requires XFP(i.t) <= F && (i.pair ==> XFP(i.t2) <= F)
    ensures Matching(ExecExclusiveStore(c, s, i, address), ExecExclusiveStore(c, u, i, address), F)
    ensures Frame(s, ExecExclusiveStore(c, s, i, address), {})
  {
    if i.pair {
      AgreeX(s, u, F, i.t, i.regsize);
      AgreeX(s, u, F, i.t2, i.regsize);
      StoreMatching(c, s, u, F, address, i.acctype,
                    PairData(c.bigEndian, RX(s, i.t, i.regsize), RX(s, i.t2, i.regsize)), i.excl);
    } else {
      AgreeX(s, u, F, i.t, i.datasize);
      StoreMatching(c, s, u, F, address, i.acctype, RX(s, i.t, i.datasize), i.excl);
    }
  }

  function StatusWrites(i: MemoryOp): set<Reg>
    requires i.LoadStoreAcqExc?
  {
    If(i.memop == Store && i.excl, XFP(i.s))
  }

  lemma StatusAgrees(c: Config, s: State, u: State, F: set<Reg>, i: MemoryOp)
    requires i.LoadStoreAcqExc? && Agree(s, u, F)
    ensures Agree(StatusWritten(c, s, i), StatusWritten(c, u, i), F + StatusWrites(i))
    ensures Only(s, StatusWritten(c, s, i), StatusWrites(i))
  {
    if i.memop == Store && i.excl {
      WriteX(s, u, F, i.s, ZeroExtend([!c.exclusiveSucceeds], 32));
      OnlyX(s, i.s, ZeroExtend([!c.exclusiveSucceeds], 32));
    }
  }

  /** What runs once the status is written and the base address is known. */
  function Accessed(c: Config, s: State, i: MemoryOp, address: Word): Outcome
    requires i.LoadStoreAcqExc? && WellFormedMemory(i)
  {
    if i.memop == Store then ExecExclusiveStore(c, s, i, address)
    else if i.memop == Load then ExecExclusiveLoad(c, s, i, address)
    else Exit
  }

  lemma AcqExcIs(c: Config, s: State, i: MemoryOp, s1: State)
    requires i.LoadStoreAcqExc? && WellFormedMemory(i) && s1 == StatusWritten(c, s, i)
    ensures ExecAcqExc(c, s, i)
         == if ExclusiveUndefined(i.n, i.t, i.t2, i.s, i.excl, i.pair, i.memop) then Exit
            else if i.memop == Store && i.excl && !c.exclusiveSucceeds then Done(s1, [])
            else if BaseAddress(c, s1, i.n, true).None? then Exit
            else Accessed(c, s1, i, BaseAddress(c, s1, i.n, true).value)
  {
  }

  lemma AccessedMatching(c: Config, s: State, s1: State, u1: State, F: set<Reg>, W: set<Reg>, i: MemoryOp,
                         address: Word)
    requires i.LoadStoreAcqExc? && WellFormedMemory(i) && W == StatusWrites(i)
    requires Agree(s1, u1, F + W) && Only(s, s1, W) && MemoryReads(i) <= F
    ensures Matching(Accessed(c, s1, i, address), Accessed(c, u1, i, address), F + MemoryWrites(i))
    ensures Frame(s, Accessed(c, s1, i, address), MemoryWrites(i))
  {
    if i.memop == Store {
      ExclusiveStoreMatching(c, s1, u1, F + W, i, address);
      FrameAfter(s, s1, ExecExclusiveStore(c, s1, i, address), W, {});
      assert F + W == F + MemoryWrites(i);
    } else if i.memop == Load {
      ExclusiveLoadMatching(c, s1, u1, F + W, i, address);
      assert F + W + (XFP(i.t) + If(i.pair, XFP(i.t2))) == F + MemoryWrites(i);
    }
  }

  lemma AcqExcMatching(c: Config, s: State, u: State, F: set<Reg>, i: MemoryOp)
    requires i.LoadStoreAcqExc? && WellFormedMemory(i) && Agree(s, u, F) && MemoryReads(i) <= F
    ensures Matching(ExecAcqExc(c, s, i), ExecAcqExc(c, u, i), F + MemoryWrites(i))
    ensures Frame(s, ExecAcqExc(c, s, i), MemoryWrites(i))
  {
    var s1, u1 := StatusWritten(c, s, i), StatusWritten(c, u, i);
    var W := StatusWrites(i);
    AcqExcIs(c, s, i, s1);
    AcqExcIs(c, u, i, u1);
    StatusAgrees(c, s, u, F, i);
    BaseAgrees(c, s1, u1, F + W, i.n, true);
    var base := BaseAddress(c, s1, i.n, true);
    if base.Some? { AccessedMatching(c, s, s1, u1, F, W, i, base.value); }
  }

  // ----- all of them -----

  /** The registers of `MemoryWrites` that a load or store really writes: a literal prefetch writes nothing. */
  function MemoryWritten(i: MemoryOp): set<Reg> {
    if i.LoadLiteral? && i.memop != Load then {} else MemoryWrites(i)
  }

  lemma LiteralMatching(c: Config, i: MemoryOp, s: State, u: State, F: set<Reg>)
    requires i.LoadLiteral? && WellFormedMemory(i) && Agree(s, u, F) && MemoryReads(i) <= F
    ensures Matching(ExecMemory(c, i, s), ExecMemory(c, i, u), F + MemoryWritten(i))
    ensures Frame(s, ExecMemory(c, i, s), MemoryWrites(i))
  {
    AgreePc(s, u, F);
    if i.memop == Load {
      LoadMatching(c, s, u, F, Plus(s.pc, i.offset), i.datasize, Normal, false, i.t, i.signed,
                   if i.signed then 64 else i.datasize);
    }
  }

  lemma MemoryMatching(c: Config, i: MemoryOp, s: State, u: State, F: set<Reg>)
    requires WellFormedMemory(i) && Agree(s, u, F) && MemoryReads(i) <= F
    ensures Matching(ExecMemory(c, i, s), ExecMemory(c, i, u), F + MemoryWritten(i))
    ensures Frame(s, ExecMemory(c, i, s), MemoryWrites(i))
  {
    match i
    case LoadLiteral(_, _, _, _, _, _) => LiteralMatching(c, i, s, u, F);
    case LoadStoreAcqExc(_, _, _, _, _, _, _, _, _, _, _) => AcqExcMatching(c, s, u, F, i);
    case LoadStorePairNonTemp(wback, postindex, n, t, t2, acctype, memop, _, datasize, offset) =>
      PairMatching(c, s, u, F, memop == Load && t == t2, wback, postindex, n, t, t2, acctype, memop, false, datasize,
                   offset);
    case LoadStorePair(wback, postindex, n, t, t2, acctype, memop, signed, datasize, offset) =>
      PairMatching(c, s, u, F, PairUndefined(memop, wback, n, t, t2), wback, postindex, n, t, t2, acctype, memop,
                   signed, datasize, offset);
    case LoadImmediate(n, t, acctype, memop, signed, wback, postindex, offset, regsize, datasize) =>
      SingleMatching(c, s, u, F, n, t, acctype, memop, signed, wback, postindex, offset, regsize, datasize);
    case LoadRegister(n, t, m, acctype, memop, signed, wback, postindex, etype, shift, regsize, datasize) =>
      AgreeX(s, u, F, m, 64);
      SingleMatching(c, s, u, F, n, t, acctype, memop, signed, wback, postindex,
                     ExtendReg(RX(s, m, 64), etype, shift), regsize, datasize);
  }
}
