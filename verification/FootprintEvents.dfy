/** The analysis covers what an instruction does outside its registers: the addresses it uses follow from the
    announced address registers, and its accesses are of the announced kind. */
module FootprintEvents {
  import opened Wrappers
  import opened BitVectors
  import opened A64Lib
  import opened MemAccess
  import opened Instructions
  import opened Semantics
  import opened Footprint
  import opened Agreement
  import opened FootprintMemory
  import FootprintData

  // ----- the events of an access, from its address alone -----

  function ReadKindOr(acctype: AccType, exclusive: bool): ReadKind {
    var k := ReadKindOf(acctype, exclusive);
    if k.Some? then k.value else ReadPlain
  }

  function WriteKindOr(acctype: AccType, exclusive: bool): WriteKind {
    var k := WriteKindOf(acctype, exclusive);
    if k.Some? then k.value else WritePlain
  }

  function StoreEvents(acctype: AccType, exclusive: bool, address: Word, size: nat): seq<Event> {
    [WriteAddress(WriteKindOr(acctype, exclusive), address, size), WriteValue(exclusive, size)]
  }

  function LoadEvents(acctype: AccType, exclusive: bool, address: Word, size: nat): seq<Event> {
    [MemRead(ReadKindOr(acctype, exclusive), address, size)]
  }

  function AccessEvents(memop: MemOp, acctype: AccType, exclusive: bool, address: Word, size: nat): seq<Event> {
    match memop
    case Store => StoreEvents(acctype, exclusive, address, size)
    case Load => LoadEvents(acctype, exclusive, address, size)
    case Prefetch => []
  }

  /** Bytes moved by one instruction. */
  function AccessBytes(i: MemoryOp): nat {
    if i.LoadStorePairNonTemp? || i.LoadStorePair? then 2 * (i.datasize / 8) else i.datasize / 8
  }

  predicate ExclusiveAccess(i: MemoryOp) { i.LoadStoreAcqExc? && (i.excl || (i.pair && i.memop == Load)) }

  function TypeOf(i: MemoryOp): AccType { if i.LoadLiteral? then Normal else i.acctype }

  /** The effective address. */
  function AccessAddress(i: MemoryOp, s: State): Word
    requires WellFormedMemory(i)
  {
    match i
    case LoadLiteral(_, _, _, _, offset, _) => Plus(s.pc, offset)
    case LoadStoreAcqExc(n, _, _, _, _, _, _, _, _, _, _) => RXorSP(s, n, 64)
    case LoadStorePairNonTemp(_, postindex, n, _, _, _, _, _, _, offset) => Offset(RXorSP(s, n, 64), offset, !postindex)
    case LoadStorePair(_, postindex, n, _, _, _, _, _, _, offset) => Offset(RXorSP(s, n, 64), offset, !postindex)
    case LoadImmediate(n, _, _, _, _, _, postindex, offset, _, _) => Offset(RXorSP(s, n, 64), offset, !postindex)
    case LoadRegister(n, _, m, _, _, _, _, postindex, etype, shift, _, _) =>
      Offset(RXorSP(s, n, 64), ExtendReg(RX(s, m, 64), etype, shift), !postindex)
  }

  function ExpectedEvents(c: Config, i: MemoryOp, address: Word): seq<Event> {
    if ExclusiveAccess(i) && i.memop == Store && !c.exclusiveSucceeds then []
    else AccessEvents(i.memop, TypeOf(i), ExclusiveAccess(i), address, AccessBytes(i))
  }

  /** The access kind exists whenever an access is made. */
  predicate KindExists(memop: MemOp, acctype: AccType, exclusive: bool) {
    match memop
    case Store => WriteKindOf(acctype, exclusive).Some?
    case Load => ReadKindOf(acctype, exclusive).Some?
    case Prefetch => true
  }

  ghost predicate Made(o: Outcome, memop: MemOp, acctype: AccType, exclusive: bool, address: Word, size: nat) {
    o.Done? ==>
      KindExists(memop, acctype, exclusive) && o.events == AccessEvents(memop, acctype, exclusive, address, size)
  }

  lemma StoreMade(c: Config, s: State, address: Word, acctype: AccType, value: Bits, exclusive: bool)
    requires DataWidth(|value|) || |value| == 128
    ensures Made(ExecStore(c, s, address, acctype, value, exclusive), Store, acctype, exclusive, address, |value| / 8)
  {
  }

  lemma LoadMade(c: Config, s: State, address: Word, datasize: nat, acctype: AccType, exclusive: bool,
                 t: RegIndex, signed: bool, regsize: nat)
    requires DataWidth(datasize) && Width(regsize) && datasize <= regsize
    ensures Made(ExecLoad(c, s, address, datasize, acctype, exclusive, t, signed, regsize),
                 Load, acctype, exclusive, address, datasize / 8)
  {
    LoadOneKind(c, s, address, datasize, acctype, exclusive);
  }

  lemma LoadOneKind(c: Config, s: State, address: Word, datasize: nat, acctype: AccType, exclusive: bool)
    requires DataWidth(datasize)
    ensures var l := LoadBits(c, s, address, datasize, acctype, exclusive);
            l.Some? ==> ReadKindOf(acctype, exclusive) == Some(l.value.0)
  {
  }

  lemma LoadTwoKind(c: Config, s: State, address: Word, datasize: nat, acctype: AccType, exclusive: bool)
    requires Width(datasize)
    ensures var l := LoadPairBits(c, s, address, datasize, acctype, exclusive);
            l.Some? ==> ReadKindOf(acctype, exclusive) == Some(l.value.0)
  {
    var rb := FilledTwo(c.checkAlignment, AddressOf(address), datasize / 8, acctype, exclusive);
    FilledTwoKind(c.checkAlignment, AddressOf(address), datasize / 8, acctype, exclusive);
    LoadPairBitsAre(c, s, address, datasize, acctype, exclusive, rb);
  }

  lemma StorePairMade(c: Config, s: State, address: Word, acctype: AccType, v1: Bits, v2: Bits)
    requires Width(|v1|) && |v1| == |v2|
    ensures Made(ExecStorePair(c, s, address, acctype, v1, v2), Store, acctype, false, address, 2 * (|v1| / 8))
  {
  }

  lemma LoadPairMade(c: Config, s: State, address: Word, datasize: nat, acctype: AccType, exclusive: bool,
                     t: RegIndex, t2: RegIndex, regsize: nat, signed: bool)
    requires Width(datasize) && datasize <= regsize <= 64
    ensures Made(ExecLoadPair(c, s, address, datasize, acctype, exclusive, t, t2, regsize, signed),
                 Load, acctype, exclusive, address, 2 * (datasize / 8))
  {
    LoadTwoKind(c, s, address, datasize, acctype, exclusive);
  }

  lemma BaseIs(c: Config, s: State, n: RegIndex, check: bool)
    ensures BaseAddress(c, s, n, check).Some? ==> BaseAddress(c, s, n, check).value == RXorSP(s, n, 64)
  {
    assert s.sp[..64] == s.sp;
  }

  lemma SingleMade(c: Config, s: State, n: RegIndex, t: RegIndex, acctype: AccType, memop: MemOp, signed: bool,
                   wback: bool, postindex: bool, offset: Word, regsize: nat, datasize: nat)
    requires Width(regsize) && DataWidth(datasize) && datasize <= regsize
    ensures Made(ExecSingle(c, s, n, t, acctype, memop, signed, wback, postindex, offset, regsize, datasize),
                 memop, acctype, false, Offset(RXorSP(s, n, 64), offset, !postindex), datasize / 8)
  {
    var base := BaseAddress(c, s, n, memop != Prefetch);
    BaseIs(c, s, n, memop != Prefetch);
    if base.Some? {
      var address := Offset(base.value, offset, !postindex);
      var s1 := WriteBack(s, wback, n, Offset(address, offset, postindex));
      match memop
      case Store => StoreMade(c, s1, address, acctype, RX(s1, t, datasize), false);
      case Load => LoadMade(c, s1, address, datasize, acctype, false, t, signed, regsize);
      case Prefetch =>
    }
  }

  lemma PairMade(c: Config, s: State, undefined: bool, wback: bool, postindex: bool, n: RegIndex, t: RegIndex,
                 t2: RegIndex, acctype: AccType, memop: MemOp, signed: bool, datasize: nat, offset: Word)
    requires Width(datasize)
    ensures Made(ExecPair(c, s, undefined, wback, postindex, n, t, t2, acctype, memop, signed, datasize, offset),
                 memop, acctype, false, Offset(RXorSP(s, n, 64), offset, !postindex), 2 * (datasize / 8))
  {
    var base := BaseAddress(c, s, n, true);
    BaseIs(c, s, n, true);
    if base.Some? {
      var address := Offset(base.value, offset, !postindex);
      var s1 := WriteBack(s, wback, n, Offset(address, offset, postindex));
      match memop
      case Store => StorePairMade(c, s1, address, acctype, RX(s1, t, datasize), RX(s1, t2, datasize));
      case Load => LoadPairMade(c, s1, address, datasize, acctype, false, t, t2, if signed then 64 else datasize,
                                signed);
      case Prefetch =>
    }
  }

  lemma LoadWordsMade(c: Config, s: State, acctype: AccType, address: Word, t: RegIndex, t2: RegIndex)
    ensures Made(ExecLoadWords(c, s, acctype, address, t, t2), Load, acctype, true, address, 8)
  {
    LoadOneKind(c, s, address, 64, acctype, true);
  }

  lemma ExclusiveLoadMade(c: Config, s: State, i: MemoryOp, address: Word)
    requires i.LoadStoreAcqExc? && WellFormedMemory(i) && i.memop == Load
    ensures Made(ExecExclusiveLoad(c, s, i, address), Load, i.acctype, ExclusiveAccess(i), address, i.datasize / 8)
  {
    if !i.pair {
      LoadMade(c, s, address, i.datasize, i.acctype, i.excl, i.t, false, i.regsize);
    } else if i.elsize == 32 {
      LoadWordsMade(c, s, i.acctype, address, i.t, i.t2);
    } else {
      assert i.datasize / 8 == 16;
      LoadPairMade(c, s, address, 64, i.acctype, true, i.t, i.t2, 64, false);
    }
  }

  lemma ExclusiveStoreMade(c: Config, s: State, i: MemoryOp, address: Word)
    requires i.LoadStoreAcqExc? && WellFormedMemory(i) && i.memop == Store
    ensures Made(ExecExclusiveStore(c, s, i, address), Store, i.acctype, ExclusiveAccess(i), address, i.datasize / 8)
  {
    if i.pair {
      StoreMade(c, s, address, i.acctype, PairData(c.bigEndian, RX(s, i.t, i.regsize), RX(s, i.t2, i.regsize)), i.excl);
    } else {
      StoreMade(c, s, address, i.acctype, RX(s, i.t, i.datasize), i.excl);
    }
  }

  ghost predicate EventsAre(c: Config, o: Outcome, i: MemoryOp, address: Word) {
    o.Done? ==> (o.events == [] || KindExists(i.memop, TypeOf(i), ExclusiveAccess(i)))
                && o.events == ExpectedEvents(c, i, address)
  }

  lemma AcqExcEvents(c: Config, i: MemoryOp, s: State)
    requires i.LoadStoreAcqExc? && WellFormedMemory(i)
    ensures EventsAre(c, ExecAcqExc(c, s, i), i, RXorSP(s, i.n, 64))
  {
    var s1 := StatusWritten(c, s, i);
    var base := BaseAddress(c, s1, i.n, true);
    BaseIs(c, s1, i.n, true);
    if ExecAcqExc(c, s, i).Done? && base.Some? {
      if i.memop == Load { ExclusiveLoadMade(c, s1, i, base.value); } else { ExclusiveStoreMade(c, s1, i, base.value); }
    }
  }

  /** The events of a load or store are those its effective address gives, one read, or one announced address
      and one value. */
  lemma MemoryEventsExact(c: Config, i: MemoryOp, s: State)
    requires WellFormedMemory(i)
    ensures EventsAre(c, ExecMemory(c, i, s), i, AccessAddress(i, s))
  {
    if i.LoadLiteral? {
      LiteralEvents(c, i, s);
    } else if i.LoadStoreAcqExc? {
      AcqExcEvents(c, i, s);
    } else if i.LoadStorePairNonTemp? || i.LoadStorePair? {
      PairEvents(c, i, s);
    } else {
      SingleEvents(c, i, s);
    }
  }

  lemma LiteralEvents(c: Config, i: MemoryOp, s: State)
    requires i.LoadLiteral? && WellFormedMemory(i)
    ensures EventsAre(c, ExecMemory(c, i, s), i, AccessAddress(i, s))
  {
    if i.memop == Load {
      LoadMade(c, s, Plus(s.pc, i.offset), i.datasize, Normal, false, i.t, i.signed,
               if i.signed then 64 else i.datasize);
    }
  }

  lemma PairEvents(c: Config, i: MemoryOp, s: State)
    requires (i.LoadStorePairNonTemp? || i.LoadStorePair?) && WellFormedMemory(i)
    ensures EventsAre(c, ExecMemory(c, i, s), i, AccessAddress(i, s))
  {
    if i.LoadStorePair? {
      PairMade(c, s, PairUndefined(i.memop, i.wback, i.n, i.t, i.t2), i.wback, i.postindex, i.n, i.t, i.t2, i.acctype,
               i.memop, i.signed, i.datasize, i.offset);
    } else {
      PairMade(c, s, i.memop == Load && i.t == i.t2, i.wback, i.postindex, i.n, i.t, i.t2, i.acctype, i.memop, false,
               i.datasize, i.offset);
    }
  }

  lemma SingleEvents(c: Config, i: MemoryOp, s: State)
    requires (i.LoadImmediate? || i.LoadRegister?) && WellFormedMemory(i)
    ensures EventsAre(c, ExecMemory(c, i, s), i, AccessAddress(i, s))
  {
    var offset := if i.LoadImmediate? then i.offset else ExtendReg(RX(s, i.m, 64), i.extendType, i.shift);
    SingleMade(c, s, i.n, i.t, i.acctype, i.memop, i.signed, i.wback, i.postindex, offset, i.regsize, i.datasize);
  }

  // ----- address registers -----

  lemma AddressFromFootprint(i: MemoryOp, s: State, t: State, F: set<Reg>)
    requires WellFormedMemory(i) && i.memop != Prefetch && MemoryAddresses(i) <= F && Agree(s, t.(mem := s.mem), F)
    ensures AccessAddress(i, s) == AccessAddress(i, t)
  {
    var u := t.(mem := s.mem);
    match i
    case LoadLiteral(_, _, _, _, _, _) => AgreePc(s, u, F);
    case LoadStoreAcqExc(n, _, _, _, _, _, _, _, _, _, _) => AgreeSource(s, u, F, n, 64);
    case LoadStorePairNonTemp(_, _, n, _, _, _, _, _, _, _) => AgreeSource(s, u, F, n, 64);
    case LoadStorePair(_, _, n, _, _, _, _, _, _, _) => AgreeSource(s, u, F, n, 64);
    case LoadImmediate(n, _, _, _, _, _, _, _, _, _) => AgreeSource(s, u, F, n, 64);
    case LoadRegister(n, _, m, _, _, _, _, _, _, _, _, _) => AgreeSource(s, u, F, n, 64); AgreeX(s, u, F, m, 64);
  }

  /** The announced address registers fix every address an instruction uses, whatever memory and all other
      registers hold. */
  lemma AddressesDetermined(c: Config, i: Instr, s: State, t: State)
    requires WellFormed(i) && i.Memory? && Exec(c, i, s).Done? && Exec(c, i, t).Done?
    requires forall r :: r in Addresses(i) ==> Read(s, r) == Read(t, r)
    ensures Exec(c, i, s).events == Exec(c, i, t).events
  {
    MemoryAddressesDetermined(c, i.memory, s, t);
  }

  lemma MemoryAddressesDetermined(c: Config, i: MemoryOp, s: State, t: State)
    requires WellFormedMemory(i) && ExecMemory(c, i, s).Done? && ExecMemory(c, i, t).Done?
    requires forall r :: r in MemoryAddresses(i) ==> Read(s, r) == Read(t, r)
    ensures ExecMemory(c, i, s).events == ExecMemory(c, i, t).events
  {
    MemoryEventsExact(c, i, s);
    MemoryEventsExact(c, i, t);
    if i.memop != Prefetch {
      OtherMemory(s, t, MemoryAddresses(i));
      AddressFromFootprint(i, s, t, MemoryAddresses(i));
    }
  }

  lemma OtherMemory(s: State, t: State, F: set<Reg>)
    requires forall r :: r in F ==> Read(s, r) == Read(t, r)
    ensures Agree(s, t.(mem := s.mem), F)
  {
    forall r | r in F ensures Read(t.(mem := s.mem), r) == Read(t, r) { }
  }

  // ----- kinds -----

  predicate KindAllows(ik: InstructionKind, e: Event) {
    match ik
    case IkSimple => false
    case IkBranch => false
    case IkMemRead(k) => e.MemRead? && e.readKind == k
    case IkMemWrite(k) =>
      || (e.WriteAddress? && e.writeKind == k)
      || (e.WriteValue? && e.exclusive == (k == WriteExclusive || k == WriteExclusiveRelease))
    case IkBarrier(b) => e == BarrierEvent(b)
    case IkTrans(k) => if k == TransCommit then e.TxCommitted? else e.TxAborted?
  }

  lemma AccessKind(memop: MemOp, acctype: AccType, exclusive: bool, address: Word, size: nat, e: Event)
    requires KindExists(memop, acctype, exclusive) && e in AccessEvents(memop, acctype, exclusive, address, size)
    ensures memop == Store ==> WMemKind(acctype, exclusive).Some? && KindAllows(WMemKind(acctype, exclusive).value, e)
    ensures memop == Load ==> RMemKind(acctype, exclusive).Some? && KindAllows(RMemKind(acctype, exclusive).value, e)
  {
  }

  lemma MemoryKindSound(c: Config, i: MemoryOp, s: State, e: Event)
    requires WellFormedMemory(i) && ExecMemory(c, i, s).Done? && e in ExecMemory(c, i, s).events
    ensures MemoryKind(i).Some? && KindAllows(MemoryKind(i).value, e)
  {
    MemoryEventsExact(c, i, s);
    AccessKind(i.memop, TypeOf(i), ExclusiveAccess(i), AccessAddress(i, s), AccessBytes(i), e);
  }

  lemma SystemKindSound(c: Config, i: SystemOp, s: State)
    requires WellFormedSystem(i) && ExecSystem(c, i, s).Done?
    ensures SystemKind(i).Some? && forall e :: e in ExecSystem(c, i, s).events ==> KindAllows(SystemKind(i).value, e)
  {
  }

  /** Every event of an instruction is of the announced kind. */
  lemma KindSound(c: Config, i: Instr, s: State, e: Event)
    requires WellFormed(i) && Exec(c, i, s).Done? && e in Exec(c, i, s).events
    ensures Kind(i).Some? && KindAllows(Kind(i).value, e)
  {
    if i.Memory? { MemoryKindSound(c, i.memory, s, e); } else if i.System? { SystemKindSound(c, i.system, s); }
  }

  /** An instruction that finishes has an analysis. */
  lemma AnalysisDefined(c: Config, i: Instr, s: State)
    requires WellFormed(i) && Exec(c, i, s).Done?
    requires i.Memory? && i.memory.LoadStoreAcqExc? ==> i.memory.acctype in {Atomic, Ordered}
    ensures Claimed(i, s).Some?
  {
    if i.Memory? {
      MemoryEventsExact(c, i.memory, s);
      MemoryKindDefined(c, i.memory, s);
    } else if i.System? {
      SystemKindSound(c, i.system, s);
    }
  }

  lemma MemoryKindDefined(c: Config, i: MemoryOp, s: State)
    requires WellFormedMemory(i) && ExecMemory(c, i, s).Done?
    requires EventsAre(c, ExecMemory(c, i, s), i, AccessAddress(i, s))
    requires i.LoadStoreAcqExc? ==> i.acctype in {Atomic, Ordered}
    ensures MemoryKind(i).Some?
  {
    if i.memop == Prefetch {
      assert !i.LoadStorePair? && !i.LoadStorePairNonTemp?;
    } else if ExclusiveAccess(i) && i.memop == Store && !c.exclusiveSucceeds {
    } else {
      assert ExpectedEvents(c, i, AccessAddress(i, s)) != [];
      KindFromExistence(i);
    }
  }

  lemma KindFromExistence(i: MemoryOp)
    requires WellFormedMemory(i) && KindExists(i.memop, TypeOf(i), ExclusiveAccess(i)) && i.memop != Prefetch
    requires !(i.LoadLiteral? && i.memop == Store)
    ensures MemoryKind(i).Some?
  {
  }

  // ----- memory changes only by writes -----

  lemma AccessKeepsMemory(c: Config, s: State, t: RegIndex, acctype: AccType, memop: MemOp, signed: bool,
                          address: Word, regsize: nat, datasize: nat)
    requires Width(regsize) && DataWidth(datasize) && datasize <= regsize && memop != Store
    ensures var o := AccessSingle(c, s, t, acctype, memop, signed, address, regsize, datasize);
            o.Done? ==> o.state.mem == s.mem
  {
  }

  lemma SingleKeepsMemory(c: Config, s: State, n: RegIndex, t: RegIndex, acctype: AccType, memop: MemOp, signed: bool,
                          wback: bool, postindex: bool, offset: Word, regsize: nat, datasize: nat)
    requires Width(regsize) && DataWidth(datasize) && datasize <= regsize && memop != Store
    ensures var o := ExecSingle(c, s, n, t, acctype, memop, signed, wback, postindex, offset, regsize, datasize);
            o.Done? ==> o.state.mem == s.mem
  {
    var base := BaseAddress(c, s, n, memop != Prefetch);
    if base.Some? {
      var address := Offset(base.value, offset, !postindex);
      var s1 := WriteBack(s, wback, n, Offset(address, offset, postindex));
      AccessKeepsMemory(c, s1, t, acctype, memop, signed, address, regsize, datasize);
    }
  }

  lemma PairAccessKeepsMemory(c: Config, s: State, t: RegIndex, t2: RegIndex, acctype: AccType, memop: MemOp,
                              signed: bool, address: Word, datasize: nat)
    requires Width(datasize) && memop != Store
    ensures var o := AccessPair(c, s, t, t2, acctype, memop, signed, address, datasize);
            o.Done? ==> o.state.mem == s.mem
  {
  }

  lemma PairKeepsMemory(c: Config, s: State, undefined: bool, wback: bool, postindex: bool, n: RegIndex, t: RegIndex,
                        t2: RegIndex, acctype: AccType, memop: MemOp, signed: bool, datasize: nat, offset: Word)
    requires Width(datasize) && memop != Store
    ensures var o := ExecPair(c, s, undefined, wback, postindex, n, t, t2, acctype, memop, signed, datasize, offset);
            o.Done? ==> o.state.mem == s.mem
  {
    var base := BaseAddress(c, s, n, true);
    if base.Some? {
      var address := Offset(base.value, offset, !postindex);
      var s1 := WriteBack(s, wback, n, Offset(address, offset, postindex));
      PairAccessKeepsMemory(c, s1, t, t2, acctype, memop, signed, address, datasize);
    }
  }

  lemma AccessedKeepsMemory(c: Config, s: State, i: MemoryOp, address: Word)
    requires i.LoadStoreAcqExc? && WellFormedMemory(i) && i.memop != Store
    ensures Accessed(c, s, i, address).Done? ==> Accessed(c, s, i, address).state.mem == s.mem
  {
  }

  lemma AcqExcKeepsMemory(c: Config, s: State, i: MemoryOp)
    requires i.LoadStoreAcqExc? && WellFormedMemory(i) && i.memop != Store
    ensures ExecAcqExc(c, s, i).Done? ==> ExecAcqExc(c, s, i).state.mem == s.mem
  {
    AcqExcIs(c, s, i, s);
    var base := BaseAddress(c, s, i.n, true);
    if base.Some? { AccessedKeepsMemory(c, s, i, base.value); }
  }

  lemma LoadKeepsMemory(c: Config, i: MemoryOp, s: State)
    requires WellFormedMemory(i) && i.memop != Store
    ensures ExecMemory(c, i, s).Done? ==> ExecMemory(c, i, s).state.mem == s.mem
  {
    match i
    case LoadLiteral(_, _, _, _, _, _) =>
    case LoadStoreAcqExc(_, _, _, _, _, _, _, _, _, _, _) => AcqExcKeepsMemory(c, s, i);
    case LoadStorePairNonTemp(wback, postindex, n, t, t2, acctype, memop, _, datasize, offset) =>
      PairKeepsMemory(c, s, memop == Load && t == t2, wback, postindex, n, t, t2, acctype, memop, false, datasize,
                      offset);
    case LoadStorePair(wback, postindex, n, t, t2, acctype, memop, signed, datasize, offset) =>
      PairKeepsMemory(c, s, PairUndefined(memop, wback, n, t, t2), wback, postindex, n, t, t2, acctype, memop, signed,
                      datasize, offset);
    case LoadImmediate(n, t, acctype, memop, signed, wback, postindex, offset, regsize, datasize) =>
      SingleKeepsMemory(c, s, n, t, acctype, memop, signed, wback, postindex, offset, regsize, datasize);
    case LoadRegister(n, t, m, acctype, memop, signed, wback, postindex, etype, shift, regsize, datasize) =>
      SingleKeepsMemory(c, s, n, t, acctype, memop, signed, wback, postindex,
                        ExtendReg(RX(s, m, 64), etype, shift), regsize, datasize);
  }

  /** Only instructions announced as writes change memory. */
  lemma OnlyWritesChangeMemory(c: Config, i: Instr, s: State)
    requires WellFormed(i) && Exec(c, i, s).Done? && Exec(c, i, s).state.mem != s.mem
    ensures i.Memory? && i.memory.memop == Store
    ensures Kind(i).Some? && Kind(i).value.IkMemWrite?
  {
    if i.Data? {
      FootprintData.DataFrame(c, i.data, s);
    } else if i.Memory? {
      if i.memory.memop != Store { LoadKeepsMemory(c, i.memory, s); }
      StoreKindDefined(c, i.memory, s);
    }
  }

  lemma StoreKindDefined(c: Config, i: MemoryOp, s: State)
    requires WellFormedMemory(i) && i.memop == Store && ExecMemory(c, i, s).Done?
    requires ExecMemory(c, i, s).state.mem != s.mem
    ensures MemoryKind(i).Some? && MemoryKind(i).value.IkMemWrite?
  {
    MemoryEventsExact(c, i, s);
  }
}
