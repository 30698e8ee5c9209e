/** The announced inputs and address registers of loads and stores are exactly those they can depend on, apart from the
    cases listed here. */
module NeededMemory {
  import opened Ints
  import opened BitVectors
  import opened CommonLib
  import opened A64Lib
  import opened Ram
  import opened MemAccess
  import opened MemoryNumbers
  import opened Instructions
  import opened Semantics
  import opened Footprint
  import opened Agreement
  import opened FootprintMemory
  import opened FootprintEvents
  import opened FootprintNeeded
  import opened NeededSums
  import opened NeededProducts
  import opened NeededControl
  import opened AccessMeanings

  // ----- needed -----

  /** Changing r alone changes the events: the address. */
  ghost predicate AddressShown(c: Config, i: MemoryOp, r: Reg, s: State, t: State)
    requires WellFormedMemory(i)
  {
    DiffersOnly(s, t, r)
    && var (o, p) := (ExecMemory(c, i, s), ExecMemory(c, i, t)); o.Done? && p.Done? && o.events != p.events
  }

  ghost predicate AddressNeeded(i: MemoryOp, r: Reg)
    requires WellFormedMemory(i)
  {
    exists c: Config, s: State, t: State :: AddressShown(c, i, r, s, t)
  }

  /** Changing r alone changes how the access ends, its events, memory or an output. */
  ghost predicate MemoryShown(c: Config, i: MemoryOp, r: Reg, s: State, t: State)
    requires WellFormedMemory(i)
  {
    DiffersOnly(s, t, r) && !Matching(ExecMemory(c, i, s), ExecMemory(c, i, t), MemoryWrites(i))
  }

  ghost predicate MemoryNeeded(i: MemoryOp, r: Reg)
    requires WellFormedMemory(i)
  {
    exists c: Config, s: State, t: State :: MemoryShown(c, i, r, s, t)
  }

  /** An access that can be made at all. */
  predicate Usable(i: MemoryOp) {
    && !Conflicts(i) && i.memop != Prefetch
    && (i.LoadLiteral? ==> i.memop == Load)
    && (i.LoadStoreAcqExc? && i.pair ==> i.excl)
    && (if i.LoadStoreAcqExc? && i.excl then i.acctype in {Atomic, Ordered}
        else TypeOf(i) in {Normal, Stream, Unpriv, Ordered})
  }

  /** The index register is added only after the access. */
  predicate LateIndex(i: MemoryOp, r: Reg) { i.LoadRegister? && i.postindex && r in XFP(i.m) && r !in XFP(i.n) }

  /** Announced address registers that make no difference. */
  predicate AddressIdle(i: MemoryOp, r: Reg) { r == SpSel || !Usable(i) || LateIndex(i, r) }

  // ----- states to try: the access is at address zero -----

  function BaseReg(i: MemoryOp): (r: Reg)
    ensures Placeable(r)
  {
    if i.LoadLiteral? then Pc else if i.n == 31 then SpEl0 else R(i.n)
  }

  /** The displacement of an immediate form. */
  function Fixed(i: MemoryOp): int { if i.LoadStoreAcqExc? || i.LoadRegister? then 0 else UInt(i.offset) }

  /** The base that makes the location a. */
  function Aim(i: MemoryOp, a: nat): nat { if PostIndexed(i) then a else Wrap(a - Fixed(i)) }

  ghost function Ground(i: MemoryOp): State {
    Place(Uniform(Zeros(64), CLEAR), BaseReg(i), ToBits(64, Aim(i, 0)))
  }

  lemma WordOf(v: nat)
    requires v < Ints.WORD
    ensures UInt(ToBits(64, v)) == v
  {
    WordIsPow2();
    SmallNumber(64, v);
  }

  lemma AimFits(i: MemoryOp, a: nat)
    requires a < 4096
    ensures Aim(i, a) < Ints.WORD
  {
  }

  /** The base register holds what was put there. */
  lemma BasePlaced(i: MemoryOp, s: State, v: nat)
    requires v < Ints.WORD
    ensures Base(i, Place(s, BaseReg(i), ToBits(64, v))) == v
  {
    WordOf(v);
  }

  /** Without an index register the base can be aimed at any location. */
  lemma Aimed(i: MemoryOp, s: State, a: nat)
    requires a < 4096 && (!i.LoadRegister? || i.postindex)
    ensures Location(i, Place(s, BaseReg(i), ToBits(64, Aim(i, a)))) == a
  {
    AimFits(i, a);
    BasePlaced(i, s, Aim(i, a));
    SmallMod(a, Ints.WORD);
    if !PostIndexed(i) { WrapSum(Fixed(i), a - Fixed(i)); }
  }

  /** With an index register the location is base plus index, here zero or sixty-four each. */
  lemma Indexed(i: MemoryOp, s: State)
    requires WellFormedMemory(i) && i.LoadRegister? && !i.postindex
    requires Base(i, s) in {0, 64} && IndexOf(i, s) in {0, 64}
    ensures Location(i, s) % 16 == 0
    ensures Location(i, s) == 0 <==> Base(i, s) == 0 && IndexOf(i, s) == 0
  {
    var v := IndexOf(i, s);
    SmallExtension(v, i.extendType);
    ShiftFactor(i.shift);
    SmallMod(Base(i, s) + v * Pow2(i.shift), Ints.WORD);
  }

  function IndexOf(i: MemoryOp, s: State): nat
    requires i.LoadRegister?
  {
    if i.m == 31 then 0 else UInt(s.x[i.m])
  }

  lemma SmallExtension(v: nat, etype: ExtendType)
    requires v <= 64
    ensures ExtendedNumber(v, etype) == v
  {
  }

  lemma ShiftFactor(k: nat)
    requires k <= 4
    ensures Pow2(k) in {1, 2, 4, 8, 16}
  {
    assert Pow2(1) == 2 && Pow2(2) == 4 && Pow2(3) == 8 && Pow2(4) == 16;
  }

  // ----- when the access is made -----

  lemma SixteenDivides(a: nat, k: nat)
    requires a % 16 == 0 && k in {1, 2, 4, 8, 16}
    ensures a % k == 0
  {
    var d := a / 16;
    if k == 1 { Multiple(16 * d, 1); }
    else if k == 2 { Multiple(8 * d, 2); }
    else if k == 4 { Multiple(4 * d, 4); }
    else if k == 8 { Multiple(2 * d, 8); }
  }

  lemma Multiple(q: int, k: int)
    requires k > 0
    ensures q * k % k == 0
  {
    DivModUnique(q * k, k, q, 0);
  }

  lemma Made(i: MemoryOp, s: State)
    requires WellFormedMemory(i) && Usable(i) && Location(i, s) % 16 == 0
    ensures ExecMemory(PLAIN, i, s).Done?
  {
    SixteenDivides(Location(i, s), if i.LoadLiteral? then i.size else i.datasize / 8);
    AccessFinishes(PLAIN, i, s);
  }

  /** Accesses at different locations have different events. */
  lemma EventsApart(i: MemoryOp, s: State, t: State)
    requires WellFormedMemory(i) && Usable(i) && Location(i, s) % 16 == 0 && Location(i, t) % 16 == 0
    requires Location(i, s) != Location(i, t)
    ensures var (o, p) := (ExecMemory(PLAIN, i, s), ExecMemory(PLAIN, i, t)); o.Done? && p.Done? && o.events != p.events
  {
    AccessMeanings.LocationExact(i, s);
    AccessMeanings.LocationExact(i, t);
    Made(i, s);
    Made(i, t);
    MemoryEventsExact(PLAIN, i, s);
    MemoryEventsExact(PLAIN, i, t);
    AddressesShow(i, AccessAddress(i, s), AccessAddress(i, t));
  }

  lemma AddressesShow(i: MemoryOp, a: Word, b: Word)
    requires Usable(i) && a != b
    ensures ExpectedEvents(PLAIN, i, a) != ExpectedEvents(PLAIN, i, b)
  {
    assert ExpectedEvents(PLAIN, i, a)[0] != ExpectedEvents(PLAIN, i, b)[0];
  }

  // ----- address registers -----

  lemma SameEvents(c: Config, i: MemoryOp, s: State, t: State)
    requires WellFormedMemory(i) && ExecMemory(c, i, s).Done? && ExecMemory(c, i, t).Done?
    requires !Usable(i) || AccessAddress(i, s) == AccessAddress(i, t)
    ensures ExecMemory(c, i, s).events == ExecMemory(c, i, t).events
  {
    MemoryEventsExact(c, i, s);
    MemoryEventsExact(c, i, t);
    if !Usable(i) { UnusableQuiet(c, i, s); }
  }

  /** An access that cannot be made finishes only as a prefetch or a failing store-exclusive. */
  lemma UnusableQuiet(c: Config, i: MemoryOp, s: State)
    requires WellFormedMemory(i) && !Usable(i) && ExecMemory(c, i, s).Done?
    ensures (i.memop == Prefetch && !PairForm(i) && !i.LoadStoreAcqExc?)
         || (i.LoadStoreAcqExc? && i.memop == Store && i.excl && !c.exclusiveSucceeds)
  {
    AccessFinishes(c, i, s);
  }

  /** The stack selection and a late index do not move the access. */
  lemma SameAddress(i: MemoryOp, r: Reg, s: State, t: State)
    requires WellFormedMemory(i) && DiffersOnly(s, t, r) && (r == SpSel || LateIndex(i, r))
    ensures AccessAddress(i, s) == AccessAddress(i, t)
  {
    if r == SpSel { OtherSelection(s, t); } else { SameSource(s, t, r, i.n); }
  }

  lemma SameSource(s: State, t: State, r: Reg, n: RegIndex)
    requires DiffersOnly(s, t, r) && r.R? && r !in XFP(n)
    ensures RXorSP(s, n, 64) == RXorSP(t, n, 64)
  {
    if n == 31 { assert Read(s, SpEl0) == Read(t, SpEl0); } else { assert Read(s, R(n)) == Read(t, R(n)); }
  }

  lemma AddressUnneeded(i: MemoryOp, r: Reg)
    requires WellFormedMemory(i) && (r !in MemoryAddresses(i) || AddressIdle(i, r))
    ensures !AddressNeeded(i, r)
  {
    forall c: Config, s: State, t: State | DiffersOnly(s, t, r) ensures !AddressShown(c, i, r, s, t) {
      if ExecMemory(c, i, s).Done? && ExecMemory(c, i, t).Done? { SameAccess(c, i, r, s, t); }
    }
  }

  lemma SameAccess(c: Config, i: MemoryOp, r: Reg, s: State, t: State)
    requires WellFormedMemory(i) && (r !in MemoryAddresses(i) || AddressIdle(i, r)) && DiffersOnly(s, t, r)
    requires ExecMemory(c, i, s).Done? && ExecMemory(c, i, t).Done?
    ensures ExecMemory(c, i, s).events == ExecMemory(c, i, t).events
  {
    if r !in MemoryAddresses(i) {
      MemoryAddressesDetermined(c, i, s, t);
    } else {
      if Usable(i) { SameAddress(i, r, s, t); }
      SameEvents(c, i, s, t);
    }
  }

  lemma AddressBusy(i: MemoryOp, r: Reg)
    requires WellFormedMemory(i) && r in MemoryAddresses(i) && !AddressIdle(i, r)
    ensures AddressNeeded(i, r)
  {
    if i.LoadRegister? && !i.postindex { IndexedBusy(i, r); } else { AimedBusy(i, r); }
  }

  lemma AimedBusy(i: MemoryOp, r: Reg)
    requires WellFormedMemory(i) && Usable(i) && r == BaseReg(i) && (!i.LoadRegister? || i.postindex)
    ensures AddressNeeded(i, r)
  {
    var u := Uniform(Zeros(64), CLEAR);
    var s, t := Place(u, r, ToBits(64, Aim(i, 0))), Place(u, r, ToBits(64, Aim(i, 64)));
    Aimed(i, u, 0);
    Aimed(i, u, 64);
    AimsDiffer(i);
    PlaceDiffers(u, r, ToBits(64, Aim(i, 0)), ToBits(64, Aim(i, 64)));
    EventsApart(i, s, t);
    assert AddressShown(PLAIN, i, r, s, t);
  }

  lemma AimsDiffer(i: MemoryOp)
    requires !i.LoadRegister? || i.postindex
    ensures ToBits(64, Aim(i, 0)) != ToBits(64, Aim(i, 64))
  {
    Aimed(i, Uniform(Zeros(64), CLEAR), 0);
    Aimed(i, Uniform(Zeros(64), CLEAR), 64);
  }

  lemma IndexedBusy(i: MemoryOp, r: Reg)
    requires WellFormedMemory(i) && Usable(i) && i.LoadRegister? && !i.postindex
    requires r == BaseReg(i) || r in XFP(i.m)
    ensures AddressNeeded(i, r)
  {
    var u := Uniform(Zeros(64), CLEAR);
    var s, t := Place(u, r, ToBits(64, 0)), Place(u, r, ToBits(64, 64));
    WordOf(0);
    WordOf(64);
    PlaceDiffers(u, r, ToBits(64, 0), ToBits(64, 64));
    IndexPlaced(i, r, 0);
    IndexPlaced(i, r, 64);
    Indexed(i, s);
    Indexed(i, t);
    EventsApart(i, s, t);
    assert AddressShown(PLAIN, i, r, s, t);
  }

  lemma IndexPlaced(i: MemoryOp, r: Reg, v: nat)
    requires i.LoadRegister? && (r == BaseReg(i) || r in XFP(i.m)) && v in {0, 64}
    ensures var s := Place(Uniform(Zeros(64), CLEAR), r, ToBits(64, v));
            && Base(i, s) == (if r == BaseReg(i) then v else 0)
            && IndexOf(i, s) == (if r in XFP(i.m) then v else 0)
  {
    WordOf(v);
    UIntZeros(64);
    BaseTried(i, r, ToBits(64, v));
    IndexTried(i, r, ToBits(64, v));
  }

  lemma BaseTried(i: MemoryOp, r: Reg, w: Word)
    requires i.LoadRegister? && (r == BaseReg(i) || r in XFP(i.m))
    ensures Base(i, Place(Uniform(Zeros(64), CLEAR), r, w)) == if r == BaseReg(i) then UInt(w) else UInt(Zeros(64))
  {
    PlacedSource(r, w, i.n, Place(Uniform(Zeros(64), CLEAR), r, w));
  }

  lemma IndexTried(i: MemoryOp, r: Reg, w: Word)
    requires i.LoadRegister? && (r == BaseReg(i) || r in XFP(i.m))
    ensures IndexOf(i, Place(Uniform(Zeros(64), CLEAR), r, w))
         == if i.m == 31 then 0 else if r in XFP(i.m) then UInt(w) else UInt(Zeros(64))
  {
    PlacedSource(r, w, i.m, Place(Uniform(Zeros(64), CLEAR), r, w));
  }

  lemma PlacedSource(r: Reg, w: Word, n: RegIndex, s: State)
    requires Placeable(r) && s == Place(Uniform(Zeros(64), CLEAR), r, w)
    ensures s.sp == if r == SpEl0 then w else Zeros(64)
    ensures n != 31 ==> s.x[n] == if r == R(n) then w else Zeros(64)
  {
  }

  /** For every register: the address of a load or store depends on it exactly when it is announced as an address
      register and is not the stack selection, an index added too late, or of an access that is never made. */
  lemma AddressesExact(i: MemoryOp, r: Reg)
    requires WellFormedMemory(i)
    ensures AddressNeeded(i, r) <==> r in MemoryAddresses(i) && !AddressIdle(i, r)
  {
    if r in MemoryAddresses(i) && !AddressIdle(i, r) { AddressBusy(i, r); } else { AddressUnneeded(i, r); }
  }

  // ----- all inputs -----

  /** A prefetch that moves its base register. */
  predicate MovesOnly(i: MemoryOp) { (i.LoadImmediate? || i.LoadRegister?) && i.memop == Prefetch && i.wback }

  predicate Stores(i: MemoryOp, r: Reg) {
    !i.LoadLiteral? && i.memop == Store && (r in XFP(i.t) || (PairForm(i) && r in XFP(i.t2)))
  }

  /** Announced inputs that make no difference: the stack selection and the exception level; any input of an access that
      is never made, unless it moves its base; an index that is added after the access to a base that is not kept, in a
      register that is not stored. */
  predicate MemoryIdle(i: MemoryOp, r: Reg) {
    || r == SpSel || r == CurrentEl
    || (!Usable(i) && !MovesOnly(i))
    || (LateIndex(i, r) && !i.wback && !Stores(i, r))
  }

  /** A literal prefetch announces a target it does not write. */
  predicate PrefetchKept(i: MemoryOp, r: Reg) { i.LoadLiteral? && i.memop == Prefetch && r in XFP(i.t) }

  lemma MemoryNeededBy(i: MemoryOp, r: Reg, s: State, t: State)
    requires WellFormedMemory(i) && MemoryShown(PLAIN, i, r, s, t)
    ensures MemoryNeeded(i, r)
  {
  }

  /** Different events show. */
  lemma AddressAlsoNeeded(i: MemoryOp, r: Reg)
    requires WellFormedMemory(i) && AddressNeeded(i, r)
    ensures MemoryNeeded(i, r)
  {
    var c: Config, s: State, t: State :| AddressShown(c, i, r, s, t);
    assert MemoryShown(c, i, r, s, t);
  }

  lemma PrefetchKeptNeeded(i: MemoryOp, r: Reg)
    requires WellFormedMemory(i) && PrefetchKept(i, r)
    ensures MemoryNeeded(i, r)
  {
    var s := Uniform(Zeros(64), CLEAR);
    AlteredDiffers(s, r);
    MemoryNeededBy(i, r, s, Altered(s, r));
  }

  // stored registers

  /** At location zero, with zero or one in a register that does not move the access. */
  ghost function Grounded(i: MemoryOp, r: Reg, v: nat): State
    requires r.R?
  {
    Place(Ground(i), r, ToBits(64, v))
  }

  lemma GroundedLocation(i: MemoryOp, r: Reg, v: nat)
    requires WellFormedMemory(i) && r.R? && v in {0, 1} && r != BaseReg(i)
    requires i.LoadRegister? && r in XFP(i.m) ==> i.postindex
    ensures Location(i, Grounded(i, r, v)) == 0
  {
    GroundLocation(i);
    SameLocation(i, r, ToBits(64, v));
  }

  lemma GroundLocation(i: MemoryOp)
    requires WellFormedMemory(i)
    ensures Location(i, Ground(i)) == 0
  {
    if i.LoadRegister? && !i.postindex {
      IndexedGround(i, Ground(i));
    } else {
      Aimed(i, Uniform(Zeros(64), CLEAR), 0);
    }
  }

  lemma IndexedGround(i: MemoryOp, s: State)
    requires WellFormedMemory(i) && i.LoadRegister? && !i.postindex && s == Ground(i)
    ensures Location(i, s) == 0
  {
    AimZero(i);
    IndexPlaced(i, BaseReg(i), 0);
    Indexed(i, s);
  }

  lemma AimZero(i: MemoryOp)
    requires i.LoadRegister?
    ensures Aim(i, 0) == 0
  {
    SmallMod(0, Ints.WORD);
  }

  lemma SameLocation(i: MemoryOp, r: Reg, w: Word)
    requires WellFormedMemory(i) && r.R? && r != BaseReg(i) && (i.LoadRegister? && r in XFP(i.m) ==> i.postindex)
    ensures Location(i, Place(Ground(i), r, w)) == Location(i, Ground(i))
  {
    OtherSources(i, Ground(i), r, w);
  }

  lemma OtherSources(i: MemoryOp, s: State, r: Reg, w: Word)
    requires r.R? && r != BaseReg(i)
    ensures Base(i, Place(s, r, w)) == Base(i, s)
    ensures !(i.LoadRegister? && r in XFP(i.m)) ==> Displacement(i, Place(s, r, w)) == Displacement(i, s)
  {
  }

  lemma GroundedNumber(i: MemoryOp, r: Reg, v: nat, q: RegIndex, n: nat)
    requires r.R? && v in {0, 1} && n >= 8
    ensures r in XFP(q) ==> RegisterNumber(Grounded(i, r, v), q, n) == v
  {
    WordOf(v);
    assert Pow2(1) == 2;
    Pow2Mono(1, n);
    SmallMod(v, Pow2(n));
  }

  lemma StoredBusy(i: MemoryOp, r: Reg)
    requires WellFormedMemory(i) && Usable(i) && Stores(i, r) && r != BaseReg(i)
    requires i.LoadRegister? && r in XFP(i.m) ==> i.postindex
    ensures MemoryNeeded(i, r)
  {
    var s, t := Grounded(i, r, 0), Grounded(i, r, 1);
    GroundedDiffer(i, r);
    GroundedMade(i, r, 0, s);
    GroundedMade(i, r, 1, t);
    if PairForm(i) { PairMemories(i, r, s, t); } else { SingleMemories(i, r, s, t); }
    MemoryNeededBy(i, r, s, t);
  }

  lemma GroundedDiffer(i: MemoryOp, r: Reg)
    requires r.R?
    ensures DiffersOnly(Grounded(i, r, 0), Grounded(i, r, 1), r)
  {
    WordOf(0);
    WordOf(1);
    PlaceDiffers(Ground(i), r, ToBits(64, 0), ToBits(64, 1));
  }

  lemma GroundedMade(i: MemoryOp, r: Reg, v: nat, s: State)
    requires WellFormedMemory(i) && Usable(i) && r.R? && v in {0, 1} && r != BaseReg(i) && s == Grounded(i, r, v)
    requires i.LoadRegister? && r in XFP(i.m) ==> i.postindex
    ensures ExecMemory(PLAIN, i, s).Done? && Location(i, s) == 0
  {
    GroundedLocation(i, r, v);
    Made(i, s);
  }

  lemma SingleMemories(i: MemoryOp, r: Reg, s: State, t: State)
    requires WellFormedMemory(i) && Stores(i, r) && !PairForm(i) && r != BaseReg(i)
    requires s == Grounded(i, r, 0) && t == Grounded(i, r, 1) && Location(i, s) == Location(i, t) == 0
    requires ExecMemory(PLAIN, i, s).Done? && ExecMemory(PLAIN, i, t).Done?
    ensures ExecMemory(PLAIN, i, s).state.mem != ExecMemory(PLAIN, i, t).state.mem
  {
    OperandGrounded(i, r, 0, i.t);
    OperandGrounded(i, r, 1, i.t);
    SingleStoreMeaning(PLAIN, i, s);
    SingleStoreMeaning(PLAIN, i, t);
  }

  lemma PairMemories(i: MemoryOp, r: Reg, s: State, t: State)
    requires WellFormedMemory(i) && Stores(i, r) && PairForm(i) && r != BaseReg(i)
    requires s == Grounded(i, r, 0) && t == Grounded(i, r, 1) && Location(i, s) == Location(i, t) == 0
    requires ExecMemory(PLAIN, i, s).Done? && ExecMemory(PLAIN, i, t).Done?
    ensures ExecMemory(PLAIN, i, s).state.mem != ExecMemory(PLAIN, i, t).state.mem
  {
    var q := if r in XFP(i.t) then i.t else i.t2;
    OperandGrounded(i, r, 0, q);
    OperandGrounded(i, r, 1, q);
    PairStoreMeaning(PLAIN, i, s);
    PairStoreMeaning(PLAIN, i, t);
  }

  lemma OperandGrounded(i: MemoryOp, r: Reg, v: nat, q: RegIndex)
    requires WellFormedMemory(i) && !i.LoadLiteral? && r.R? && r != BaseReg(i) && v in {0, 1}
    ensures r in XFP(q) ==> Operand(i, Grounded(i, r, v), q) == v
  {
    GroundedNumber(i, r, v, q, 8 * UnitBytes(i));
  }

  // moved bases

  lemma BaseShown(i: MemoryOp, r: Reg, s: State, t: State)
    requires WellFormedMemory(i) && (i.LoadImmediate? || i.LoadRegister?) && i.wback && DiffersOnly(s, t, r)
    requires ExecMemory(PLAIN, i, s).Done? && ExecMemory(PLAIN, i, t).Done?
    requires 0 < Base(i, t) + Displacement(i, t) - (Base(i, s) + Displacement(i, s)) < Ints.WORD
    ensures MemoryNeeded(i, r)
  {
    BaseMoves(PLAIN, i, s);
    BaseMoves(PLAIN, i, t);
    ResiduesApart(Base(i, t) + Displacement(i, t), Base(i, s) + Displacement(i, s), Ints.WORD);
    BaseRead(i, ExecMemory(PLAIN, i, s).state, ExecMemory(PLAIN, i, t).state);
    assert MemoryShown(PLAIN, i, r, s, t);
  }

  lemma BaseRead(i: MemoryOp, s: State, t: State)
    requires (i.LoadImmediate? || i.LoadRegister?) && i.wback && Base(i, s) != Base(i, t)
    ensures !Agree(s, t, MemoryWrites(i))
  {
    var q := if i.n == 31 then SpEl0 else R(i.n);
    assert q in MemoryWrites(i) && Read(s, q) != Read(t, q);
  }

  lemma PrefetchFinishes(i: MemoryOp, s: State)
    requires WellFormedMemory(i) && MovesOnly(i)
    ensures ExecMemory(PLAIN, i, s).Done?
  {
    AccessFinishes(PLAIN, i, s);
  }

  /** Zero and sixty-four in register r, zero in all others. */
  ghost predicate Pair064(r: Reg, s: State, t: State) {
    Placeable(r) && s == Place(Uniform(Zeros(64), CLEAR), r, ToBits(64, 0))
    && t == Place(Uniform(Zeros(64), CLEAR), r, ToBits(64, 64))
  }

  lemma PairDiffers(r: Reg, s: State, t: State)
    requires Pair064(r, s, t)
    ensures DiffersOnly(s, t, r)
  {
    WordOf(0);
    WordOf(64);
    PlaceDiffers(Uniform(Zeros(64), CLEAR), r, ToBits(64, 0), ToBits(64, 64));
  }

  lemma PairIndexed(i: MemoryOp, r: Reg, s: State, t: State)
    requires i.LoadRegister? && (r == BaseReg(i) || r in XFP(i.m)) && Pair064(r, s, t)
    ensures Base(i, s) == 0 && IndexOf(i, s) == 0
    ensures Base(i, t) in {0, 64} && IndexOf(i, t) in {0, 64} && Base(i, t) + IndexOf(i, t) > 0
    ensures r != BaseReg(i) ==> Base(i, t) == 0
  {
    IndexPlaced(i, r, 0);
    IndexPlaced(i, r, 64);
  }

  lemma MovesBusy(i: MemoryOp, r: Reg)
    requires WellFormedMemory(i) && MovesOnly(i) && r in MemoryReads(i) && r != SpSel && r != CurrentEl
    ensures MemoryNeeded(i, r)
  {
    var u := Uniform(Zeros(64), CLEAR);
    var s, t := Place(u, r, ToBits(64, 0)), Place(u, r, ToBits(64, 64));
    PairDiffers(r, s, t);
    PrefetchFinishes(i, s);
    PrefetchFinishes(i, t);
    BasesApart(i, r, s, t);
    BaseShown(i, r, s, t);
  }

  lemma BasesApart(i: MemoryOp, r: Reg, s: State, t: State)
    requires WellFormedMemory(i) && MovesOnly(i) && r in MemoryReads(i) && r != SpSel && r != CurrentEl
    requires Pair064(r, s, t)
    ensures 0 < Base(i, t) + Displacement(i, t) - (Base(i, s) + Displacement(i, s)) < Ints.WORD
  {
    if i.LoadRegister? {
      IndexedApart(i, r, s, t);
    } else {
      PairBased(i, r, s, t);
    }
  }

  lemma IndexedApart(i: MemoryOp, r: Reg, s: State, t: State)
    requires WellFormedMemory(i) && i.LoadRegister? && (r == BaseReg(i) || r in XFP(i.m)) && Pair064(r, s, t)
    ensures 0 < Base(i, t) + Displacement(i, t) - (Base(i, s) + Displacement(i, s)) < Ints.WORD
  {
    PairIndexed(i, r, s, t);
    SumsApart(i, s, t);
  }

  lemma PairBased(i: MemoryOp, r: Reg, s: State, t: State)
    requires i.LoadImmediate? && r == BaseReg(i) && Pair064(r, s, t)
    ensures Base(i, t) + Displacement(i, t) - (Base(i, s) + Displacement(i, s)) == 64
  {
    BasePlaced(i, Uniform(Zeros(64), CLEAR), 0);
    BasePlaced(i, Uniform(Zeros(64), CLEAR), 64);
  }

  lemma SumsApart(i: MemoryOp, s: State, t: State)
    requires WellFormedMemory(i) && i.LoadRegister? && Base(i, s) == 0 && IndexOf(i, s) == 0
    requires Base(i, t) in {0, 64} && IndexOf(i, t) in {0, 64} && Base(i, t) + IndexOf(i, t) > 0
    ensures 0 < Base(i, t) + Displacement(i, t) - (Base(i, s) + Displacement(i, s)) < Ints.WORD
  {
    SmallExtension(0, i.extendType);
    SmallExtension(64, i.extendType);
    ShiftFactor(i.shift);
  }

  lemma LateBusy(i: MemoryOp, r: Reg)
    requires WellFormedMemory(i) && Usable(i) && LateIndex(i, r) && i.wback
    ensures MemoryNeeded(i, r)
  {
    var u := Uniform(Zeros(64), CLEAR);
    var s, t := Place(u, r, ToBits(64, 0)), Place(u, r, ToBits(64, 64));
    PairDiffers(r, s, t);
    PairIndexed(i, r, s, t);
    LateMade(i, s);
    LateMade(i, t);
    SumsApart(i, s, t);
    BaseShown(i, r, s, t);
  }

  lemma LateMade(i: MemoryOp, s: State)
    requires WellFormedMemory(i) && Usable(i) && i.LoadRegister? && i.postindex && Base(i, s) == 0
    ensures ExecMemory(PLAIN, i, s).Done?
  {
    SmallMod(0, Ints.WORD);
    Made(i, s);
  }

  lemma MemoryBusy(i: MemoryOp, r: Reg)
    requires WellFormedMemory(i) && r in MemoryReads(i) && !MemoryIdle(i, r)
    ensures MemoryNeeded(i, r)
  {
    if !Usable(i) {
      MovesBusy(i, r);
    } else if r in MemoryAddresses(i) && !AddressIdle(i, r) {
      AddressBusy(i, r);
      AddressAlsoNeeded(i, r);
    } else {
      OtherBusy(i, r);
    }
  }

  lemma OtherBusy(i: MemoryOp, r: Reg)
    requires WellFormedMemory(i) && Usable(i) && r in MemoryReads(i) && !MemoryIdle(i, r)
    requires r !in MemoryAddresses(i) || AddressIdle(i, r)
    ensures MemoryNeeded(i, r)
  {
    OtherInputs(i, r);
    if Stores(i, r) { StoredBusy(i, r); } else { LateBusy(i, r); }
  }

  /** What is not an address register is stored or a late index. */
  lemma OtherInputs(i: MemoryOp, r: Reg)
    requires WellFormedMemory(i) && Usable(i) && r in MemoryReads(i) && !MemoryIdle(i, r)
    requires r !in MemoryAddresses(i) || AddressIdle(i, r)
    ensures r != BaseReg(i) && (Stores(i, r) || (LateIndex(i, r) && i.wback))
    ensures i.LoadRegister? && r in XFP(i.m) ==> i.postindex
  {
  }

  // what makes no difference

  lemma UnreadMemory(c: Config, i: MemoryOp, r: Reg, s: State, t: State)
    requires WellFormedMemory(i) && DiffersOnly(s, t, r) && r !in MemoryReads(i) && !PrefetchKept(i, r)
    ensures Matching(ExecMemory(c, i, s), ExecMemory(c, i, t), MemoryWrites(i))
  {
    if i.LoadLiteral? && i.memop == Store {
    } else {
      var F := MemoryReads(i) + (MemoryWrites(i) - {r});
      AgreeExcept(s, t, r, F);
      MemoryMatching(c, i, s, t, F);
      MatchingMonotone(ExecMemory(c, i, s), ExecMemory(c, i, t), F + MemoryWritten(i), MemoryWrites(i));
    }
  }

  /** An access that is never made ends alike in both states. */
  lemma UnusableMemory(c: Config, i: MemoryOp, r: Reg, s: State, t: State)
    requires WellFormedMemory(i) && DiffersOnly(s, t, r) && r in MemoryReads(i) && !Usable(i) && !MovesOnly(i)
    ensures Matching(ExecMemory(c, i, s), ExecMemory(c, i, t), MemoryWrites(i))
  {
    UnusableFinishes(c, i, s, t);
    if ExecMemory(c, i, s).Done? {
      UnusableQuiet(c, i, s);
      if i.LoadStoreAcqExc? { FailedAlike(c, i, s, t); } else { PrefetchedAlike(c, i, r, s, t); }
    }
  }

  lemma UnusableFinishes(c: Config, i: MemoryOp, s: State, t: State)
    requires WellFormedMemory(i) && !Usable(i)
    ensures ExecMemory(c, i, s).Done? <==> ExecMemory(c, i, t).Done?
  {
    AccessFinishes(c, i, s);
    AccessFinishes(c, i, t);
  }

  lemma FailedAlike(c: Config, i: MemoryOp, s: State, t: State)
    requires WellFormedMemory(i) && i.LoadStoreAcqExc? && i.memop == Store && i.excl && !c.exclusiveSucceeds
    requires s.mem == t.mem && ExecMemory(c, i, s).Done? && ExecMemory(c, i, t).Done?
    ensures Matching(ExecMemory(c, i, s), ExecMemory(c, i, t), MemoryWrites(i))
  {
    assert Agree(s, t, {});
    WriteX(s, t, {}, i.s, ZeroExtend([true], 32));
    assert {} + XFP(i.s) == MemoryWrites(i);
  }

  lemma PrefetchedAlike(c: Config, i: MemoryOp, r: Reg, s: State, t: State)
    requires WellFormedMemory(i) && i.memop == Prefetch && !PairForm(i) && !i.LoadStoreAcqExc? && !MovesOnly(i)
    requires DiffersOnly(s, t, r) && r in MemoryReads(i)
    ensures Matching(ExecMemory(c, i, s), ExecMemory(c, i, t), MemoryWrites(i))
  {
    PrefetchIs(c, i, s);
    PrefetchIs(c, i, t);
  }

  lemma PrefetchIs(c: Config, i: MemoryOp, s: State)
    requires WellFormedMemory(i) && i.memop == Prefetch && !PairForm(i) && !i.LoadStoreAcqExc? && !MovesOnly(i)
    ensures ExecMemory(c, i, s) == Done(s, [])
  {
  }

  /** With an index that is added too late and kept nowhere, the access is that of an immediate form. */
  function Indexless(i: MemoryOp): MemoryOp
    requires i.LoadRegister?
  {
    LoadImmediate(i.n, i.t, i.acctype, i.memop, i.signed, false, true, Zeros(64), i.regsize, i.datasize)
  }

  lemma IndexlessSame(c: Config, i: MemoryOp, s: State)
    requires WellFormedMemory(i) && i.LoadRegister? && i.postindex && !i.wback
    ensures ExecMemory(c, i, s) == ExecMemory(c, Indexless(i), s)
  {
  }

  lemma LateMemory(c: Config, i: MemoryOp, r: Reg, s: State, t: State)
    requires WellFormedMemory(i) && DiffersOnly(s, t, r) && LateIndex(i, r) && !i.wback && !Stores(i, r)
    ensures Matching(ExecMemory(c, i, s), ExecMemory(c, i, t), MemoryWrites(i))
  {
    IndexlessSame(c, i, s);
    IndexlessSame(c, i, t);
    IndexlessOutputs(i, r, Indexless(i));
    UnreadMemory(c, Indexless(i), r, s, t);
  }

  lemma IndexlessOutputs(i: MemoryOp, r: Reg, j: MemoryOp)
    requires LateIndex(i, r) && !i.wback && !Stores(i, r) && j == Indexless(i)
    ensures r !in MemoryReads(j) && MemoryWrites(j) == MemoryWrites(i) && !PrefetchKept(j, r)
  {
  }

  // the stack selection

  function Selected(o: Outcome, b: bool): Outcome {
    match o
    case Exit => Exit
    case Done(s, e) => Done(s.(spSel := b), e)
  }

  lemma LoadIgnores(c: Config, s: State, b: bool, address: Word, datasize: nat, acctype: AccType, excl: bool,
                    t: RegIndex, signed: bool, regsize: nat)
    requires DataWidth(datasize) && Width(regsize) && datasize <= regsize
    ensures ExecLoad(c, s.(spSel := b), address, datasize, acctype, excl, t, signed, regsize)
         == Selected(ExecLoad(c, s, address, datasize, acctype, excl, t, signed, regsize), b)
  {
  }

  lemma StoreIgnores(c: Config, s: State, b: bool, address: Word, acctype: AccType, value: Bits, excl: bool)
    requires DataWidth(|value|) || |value| == 128
    ensures ExecStore(c, s.(spSel := b), address, acctype, value, excl)
         == Selected(ExecStore(c, s, address, acctype, value, excl), b)
  {
  }

  lemma LoadPairIgnores(c: Config, s: State, b: bool, address: Word, datasize: nat, acctype: AccType, excl: bool,
                        t: RegIndex, t2: RegIndex, regsize: nat, signed: bool)
    requires Width(datasize) && datasize <= regsize <= 64
    ensures ExecLoadPair(c, s.(spSel := b), address, datasize, acctype, excl, t, t2, regsize, signed)
         == Selected(ExecLoadPair(c, s, address, datasize, acctype, excl, t, t2, regsize, signed), b)
  {
  }

  lemma StorePairIgnores(c: Config, s: State, b: bool, address: Word, acctype: AccType, v1: Bits, v2: Bits)
    requires Width(|v1|) && |v1| == |v2|
    ensures ExecStorePair(c, s.(spSel := b), address, acctype, v1, v2)
         == Selected(ExecStorePair(c, s, address, acctype, v1, v2), b)
  {
  }

  lemma WordsIgnore(c: Config, s: State, b: bool, acctype: AccType, address: Word, t: RegIndex, t2: RegIndex)
    ensures ExecLoadWords(c, s.(spSel := b), acctype, address, t, t2)
         == Selected(ExecLoadWords(c, s, acctype, address, t, t2), b)
  {
  }

  lemma SingleIgnores(c: Config, s: State, b: bool, t: RegIndex, acctype: AccType, memop: MemOp, signed: bool,
                      address: Word, regsize: nat, datasize: nat)
    requires Width(regsize) && DataWidth(datasize) && datasize <= regsize
    ensures AccessSingle(c, s.(spSel := b), t, acctype, memop, signed, address, regsize, datasize)
         == Selected(AccessSingle(c, s, t, acctype, memop, signed, address, regsize, datasize), b)
  {
    match memop
    case Store => StoreIgnores(c, s, b, address, acctype, RX(s, t, datasize), false);
    case Load => LoadIgnores(c, s, b, address, datasize, acctype, false, t, signed, regsize);
    case Prefetch =>
  }

  lemma PairIgnores(c: Config, s: State, b: bool, t: RegIndex, t2: RegIndex, acctype: AccType, memop: MemOp,
                    signed: bool, address: Word, datasize: nat)
    requires Width(datasize)
    ensures AccessPair(c, s.(spSel := b), t, t2, acctype, memop, signed, address, datasize)
         == Selected(AccessPair(c, s, t, t2, acctype, memop, signed, address, datasize), b)
  {
    match memop
    case Store => StorePairIgnores(c, s, b, address, acctype, RX(s, t, datasize), RX(s, t2, datasize));
    case Load =>
      LoadPairIgnores(c, s, b, address, datasize, acctype, false, t, t2, if signed then 64 else datasize, signed);
    case Prefetch =>
  }

  lemma UpdateIgnores(i: MemoryOp, s: State, b: bool)
    requires WellFormedMemory(i) && !i.LoadLiteral? && !i.LoadStoreAcqExc?
    ensures Updated(i, s.(spSel := b)) == Updated(i, s).(spSel := b)
    ensures AccessAddress(i, s.(spSel := b)) == AccessAddress(i, s)
  {
  }

  lemma BaseIgnores(c: Config, s: State, b: bool, n: RegIndex, check: bool)
    ensures BaseAddress(c, s.(spSel := b), n, check) == BaseAddress(c, s, n, check)
  {
  }

  lemma IndexedIgnores(c: Config, i: MemoryOp, s: State, b: bool)
    requires WellFormedMemory(i) && (i.LoadImmediate? || i.LoadRegister?)
    ensures ExecMemory(c, i, s.(spSel := b)) == Selected(ExecMemory(c, i, s), b)
  {
    IndexedIs(c, i, s);
    IndexedIs(c, i, s.(spSel := b));
    BaseIgnores(c, s, b, i.n, i.memop != Prefetch);
    UpdateIgnores(i, s, b);
    SingleIgnores(c, Updated(i, s), b, i.t, i.acctype, i.memop, i.signed, AccessAddress(i, s), i.regsize, i.datasize);
  }

  lemma PlainPairIgnores(c: Config, i: MemoryOp, s: State, b: bool)
    requires WellFormedMemory(i) && (i.LoadStorePair? || i.LoadStorePairNonTemp?)
    ensures ExecMemory(c, i, s.(spSel := b)) == Selected(ExecMemory(c, i, s), b)
  {
    if i.memop == Prefetch {
      PairPrefetches(c, i, s);
      PairPrefetches(c, i, s.(spSel := b));
    } else {
      PairIs(c, i, s);
      PairIs(c, i, s.(spSel := b));
      BaseIgnores(c, s, b, i.n, true);
      UpdateIgnores(i, s, b);
      PairIgnores(c, Updated(i, s), b, i.t, i.t2, i.acctype, i.memop, Signed(i), AccessAddress(i, s), i.datasize);
    }
  }

  lemma ExclusiveLoadIgnores(c: Config, i: MemoryOp, s: State, b: bool, address: Word)
    requires WellFormedMemory(i) && i.LoadStoreAcqExc?
    ensures ExecExclusiveLoad(c, s.(spSel := b), i, address) == Selected(ExecExclusiveLoad(c, s, i, address), b)
  {
    if !i.pair {
      LoadIgnores(c, s, b, address, i.datasize, i.acctype, i.excl, i.t, false, i.regsize);
    } else if i.elsize == 32 {
      WordsIgnore(c, s, b, i.acctype, address, i.t, i.t2);
    } else {
      LoadPairIgnores(c, s, b, address, 64, i.acctype, true, i.t, i.t2, 64, false);
    }
  }

  lemma ExclusiveStoreIgnores(c: Config, i: MemoryOp, s: State, b: bool, address: Word)
    requires WellFormedMemory(i) && i.LoadStoreAcqExc?
    ensures ExecExclusiveStore(c, s.(spSel := b), i, address) == Selected(ExecExclusiveStore(c, s, i, address), b)
  {
    StoreIgnores(c, s, b, address, i.acctype, StoreValue(c, s, i), i.excl);
    assert StoreValue(c, s.(spSel := b), i) == StoreValue(c, s, i);
  }

  lemma ExclusiveIgnores(c: Config, i: MemoryOp, s: State, b: bool)
    requires WellFormedMemory(i) && i.LoadStoreAcqExc?
    ensures ExecMemory(c, i, s.(spSel := b)) == Selected(ExecMemory(c, i, s), b)
  {
    var s1, address := StatusWritten(c, s, i), AccessAddress(i, s);
    assert StatusWritten(c, s.(spSel := b), i) == s1.(spSel := b);
    assert AccessAddress(i, s.(spSel := b)) == address;
    ExclusiveIs(c, i, s, s1);
    ExclusiveIs(c, i, s.(spSel := b), s1.(spSel := b));
    BaseIgnores(c, s1, b, i.n, true);
    ExclusiveLoadIgnores(c, i, s1, b, address);
    ExclusiveStoreIgnores(c, i, s1, b, address);
  }

  lemma MemoryIgnoresSelection(c: Config, i: MemoryOp, s: State, b: bool)
    requires WellFormedMemory(i)
    ensures ExecMemory(c, i, s.(spSel := b)) == Selected(ExecMemory(c, i, s), b)
  {
    if i.LoadLiteral? {
      if i.memop == Load {
        LoadIgnores(c, s, b, Plus(s.pc, i.offset), i.datasize, Normal, false, i.t, i.signed,
                    if i.signed then 64 else i.datasize);
      }
    } else if i.LoadStoreAcqExc? { ExclusiveIgnores(c, i, s, b); }
    else if i.LoadImmediate? || i.LoadRegister? { IndexedIgnores(c, i, s, b); }
    else { PlainPairIgnores(c, i, s, b); }
  }

  lemma SelectionMemory(c: Config, i: MemoryOp, s: State, t: State)
    requires WellFormedMemory(i) && DiffersOnly(s, t, SpSel)
    ensures Matching(ExecMemory(c, i, s), ExecMemory(c, i, t), MemoryWrites(i))
  {
    OtherSelection(s, t);
    MemoryIgnoresSelection(c, i, s, t.spSel);
    if ExecMemory(c, i, s).Done? { SelectionUnwritten(i, ExecMemory(c, i, s).state, t.spSel); }
  }

  lemma SelectionUnwritten(i: MemoryOp, s: State, b: bool)
    ensures Agree(s, s.(spSel := b), MemoryWrites(i))
  {
  }

  lemma MemoryUnneeded(c: Config, i: MemoryOp, r: Reg, s: State, t: State)
    requires WellFormedMemory(i) && DiffersOnly(s, t, r) && !PrefetchKept(i, r)
    requires r !in MemoryReads(i) || MemoryIdle(i, r)
    ensures Matching(ExecMemory(c, i, s), ExecMemory(c, i, t), MemoryWrites(i))
  {
    if r !in MemoryReads(i) { UnreadMemory(c, i, r, s, t); }
    else if r == SpSel { SelectionMemory(c, i, s, t); }
    else if !Usable(i) && !MovesOnly(i) { UnusableMemory(c, i, r, s, t); }
    else { LateMemory(c, i, r, s, t); }
  }

  /** For every register: a load or store depends on it exactly when it is announced as an input and is not idle, or is
      the target of a literal prefetch. */
  lemma MemoryInputsExact(i: MemoryOp, r: Reg)
    requires WellFormedMemory(i)
    ensures MemoryNeeded(i, r) <==> (r in MemoryReads(i) && !MemoryIdle(i, r)) || PrefetchKept(i, r)
  {
    if PrefetchKept(i, r) {
      PrefetchKeptNeeded(i, r);
    } else if r in MemoryReads(i) && !MemoryIdle(i, r) {
      MemoryBusy(i, r);
    } else {
      forall c: Config, s: State, t: State | DiffersOnly(s, t, r) ensures !MemoryShown(c, i, r, s, t) {
        MemoryUnneeded(c, i, r, s, t);
      }
    }
  }

  // ----- kinds -----

  /** Some state lets the access be made, with its events. */
  ghost predicate MakesEvents(i: MemoryOp)
    requires WellFormedMemory(i)
  {
    exists s: State :: ExecMemory(PLAIN, i, s).Done? && ExecMemory(PLAIN, i, s).events != []
  }

  /** What is announced as a read or a write makes one from some state exactly when the access can be made at all; a
      prefetch makes none. */
  lemma KindReached(i: MemoryOp)
    requires WellFormedMemory(i)
    ensures MakesEvents(i) <==> Usable(i)
    ensures Usable(i) ==> MemoryKind(i).Some? && (i.memop == Load <==> MemoryKind(i).value.IkMemRead?)
                          && (i.memop == Store <==> MemoryKind(i).value.IkMemWrite?)
  {
    if Usable(i) {
      GroundLocation(i);
      Made(i, Ground(i));
      MemoryEventsExact(PLAIN, i, Ground(i));
      KindFromExistence(i);
    } else {
      forall s: State | ExecMemory(PLAIN, i, s).Done? ensures ExecMemory(PLAIN, i, s).events == [] {
        UnusableQuiet(PLAIN, i, s);
        MemoryEventsExact(PLAIN, i, s);
      }
    }
  }
}
