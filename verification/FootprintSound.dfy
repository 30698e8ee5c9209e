/** The analysis covers the semantics: what `execute` changes, what its results depend on, where it goes,
    which addresses it uses and what kind of access it makes (aarch64_small/aarch64_regfp.sail against
    aarch64_small/armV8.sail, at EL0). */
module FootprintSound {
  import opened BitVectors
  import opened CommonLib
  import opened Instructions
  import opened Semantics
  import opened Footprint
  import opened Agreement
  import FootprintData
  import opened FootprintMemory

  // ----- branches -----

  lemma TakenAgrees(i: BranchOp, s: State, t: State, F: set<Reg>)
    requires WellFormedBranch(i) && Agree(s, t, F) && BranchReads(i) <= F && s.pc == t.pc
    ensures Taken(i, s) == Taken(i, t) && Target(i, s) == Target(i, t)
  {
    match i
    case CompareAndBranch(r, N, _, _) => AgreeX(s, t, F, r, N);
    case BranchConditional(_, condition) => AgreeCondition(s, t, F, condition);
    case TestBitAndBranch(r, N, _, _, _) => AgreeX(s, t, F, r, N);
    case BranchImmediate(_, _) =>
    case BranchRegister(n, _) => AgreeX(s, t, F, n, 64);
  }

  lemma LinkAgrees(i: BranchOp, s: State, t: State, F: set<Reg>)
    requires Agree(s, t, F) && s.pc == t.pc
    ensures Agree(BranchLink(i, s), BranchLink(i, t), F + (BranchWrites(i) - {Pc}))
    ensures Only(s, BranchLink(i, s), BranchWrites(i)) && BranchLink(i, s).mem == s.mem
  {
    WriteX(s, t, F, 30, Plus(s.pc, ToBits(64, 4)));
    OnlyX(s, 30, Plus(s.pc, ToBits(64, 4)));
  }

  lemma BranchMatching(c: Config, i: BranchOp, s: State, t: State, F: set<Reg>)
    requires WellFormedBranch(i) && Agree(s, t, F) && BranchReads(i) <= F && s.pc == t.pc
    ensures Matching(ExecBranch(c, i, s), ExecBranch(c, i, t), F + {Pc} + If(Taken(i, s), BranchWrites(i)))
    ensures Frame(s, ExecBranch(c, i, s), BranchWrites(i))
  {
    TakenAgrees(i, s, t, F);
    LinkAgrees(i, s, t, F);
    if Taken(i, s) {
      var s1, t1 := BranchLink(i, s), BranchLink(i, t);
      JumpAgrees(c, s1, t1, F + (BranchWrites(i) - {Pc}), Target(i, s));
      assert F + (BranchWrites(i) - {Pc}) + {Pc} == F + {Pc} + BranchWrites(i);
      OnlyTrans(s, s1, Jump(c, s1, Target(i, s)), BranchWrites(i), {Pc});
      assert BranchWrites(i) + {Pc} == BranchWrites(i);
    } else {
      assert Agree(s, t, F + {Pc});
    }
  }

  lemma JumpAgrees(c: Config, s: State, t: State, F: set<Reg>, target: Word)
    requires Agree(s, t, F)
    ensures Agree(Jump(c, s, target), Jump(c, t, target), F + {Pc})
    ensures Only(s, Jump(c, s, target), {Pc})
  {
  }

  /** A branch that links is always taken. */
  lemma BranchWritesWhenNotTaken(i: BranchOp, s: State)
    requires WellFormedBranch(i) && !Taken(i, s)
    ensures BranchWrites(i) == {Pc}
  {
  }

  // ----- system -----

  lemma SystemGetAgrees(s: State, t: State, F: set<Reg>, r: SysReg)
    requires Agree(s, t, F) && SystemFP(r) <= F
    ensures SystemGet(s, r) == SystemGet(t, r)
  {
    match r
    case SysNzcv =>
      assert FlagN in F && FlagZ in F && FlagC in F && FlagV in F && NzcvRest in F;
      AgreeFlagBits(s, t, F);
      assert Read(s, NzcvRest) == Read(t, NzcvRest);
    case SysDaif =>
      assert DAIF_FP <= DAIF_FULL && DaifRest in DAIF_FULL;
      AgreeMasks(s, t, F);
      assert Read(s, DaifRest) == Read(t, DaifRest);
    case SysTpidr =>
      assert Read(s, Tpidr) == Read(t, Tpidr);
  }

  lemma SystemPutAgrees(s: State, t: State, F: set<Reg>, r: SysReg, v: Word)
    requires Agree(s, t, F)
    ensures Agree(SystemPut(s, r, v), SystemPut(t, r, v), F + SystemFP(r))
    ensures Only(s, SystemPut(s, r, v), SystemFP(r))
  {
    match r
    case SysNzcv => PutNzcv(s, t, F, Flags(v[31], v[30], v[29], v[28]), v[..28]);
    case SysDaif =>
      var daif, rest := Daif(v[9], v[8], v[7], v[6]), v[..6] + v[10..32];
      PutMasks(s, t, F, daif);
      PutDaifRest(s.(daif := daif), t.(daif := daif), F + DAIF_FP, rest);
      assert F + DAIF_FP + {DaifRest} == F + DAIF_FULL && DAIF_FP + {DaifRest} == DAIF_FULL;
      OnlyTrans(s, s.(daif := daif), s.(daif := daif, daifRest := rest), DAIF_FP, {DaifRest});
    case SysTpidr => PutTpidr(s, t, F, v);
  }

  lemma PutNzcv(s: State, t: State, F: set<Reg>, flags: Flags, rest: Reserved)
    requires Agree(s, t, F)
    ensures Agree(s.(flags := flags, nzcvRest := rest), t.(flags := flags, nzcvRest := rest), F + NZCV_FULL)
    ensures Only(s, s.(flags := flags, nzcvRest := rest), NZCV_FULL)
  {
    WriteFlags(s, t, F, flags);
    PutNzcvRest(s.(flags := flags), t.(flags := flags), F + NZCV_FP, rest);
    assert F + NZCV_FP + {NzcvRest} == F + NZCV_FULL && NZCV_FP + {NzcvRest} == NZCV_FULL;
    OnlyTrans(s, s.(flags := flags), s.(flags := flags, nzcvRest := rest), NZCV_FP, {NzcvRest});
  }

  lemma PutNzcvRest(s: State, t: State, F: set<Reg>, rest: Reserved)
    requires Agree(s, t, F)
    ensures Agree(s.(nzcvRest := rest), t.(nzcvRest := rest), F + {NzcvRest})
    ensures Only(s, s.(nzcvRest := rest), {NzcvRest})
  {
  }

  lemma PutDaifRest(s: State, t: State, F: set<Reg>, rest: Reserved)
    requires Agree(s, t, F)
    ensures Agree(s.(daifRest := rest), t.(daifRest := rest), F + {DaifRest})
    ensures Only(s, s.(daifRest := rest), {DaifRest})
  {
  }

  lemma PutMasks(s: State, t: State, F: set<Reg>, daif: Daif)
    requires Agree(s, t, F)
    ensures Agree(s.(daif := daif), t.(daif := daif), F + DAIF_FP)
    ensures Only(s, s.(daif := daif), DAIF_FP)
  {
    forall r | r !in DAIF_FP ensures Read(s.(daif := daif), r) == Read(s, r) { }
    forall r | r in F + DAIF_FP ensures Read(s.(daif := daif), r) == Read(t.(daif := daif), r) {
      MaskRead(s, t, daif, r);
    }
  }

  lemma MaskRead(s: State, t: State, daif: Daif, r: Reg)
    requires r in DAIF_FP || Read(s, r) == Read(t, r)
    ensures Read(s.(daif := daif), r) == Read(t.(daif := daif), r)
  {
  }

  lemma PutSpSel(s: State, t: State, F: set<Reg>, b: bool)
    requires Agree(s, t, F)
    ensures Agree(s.(spSel := b), t.(spSel := b), F + {SpSel})
    ensures Only(s, s.(spSel := b), {SpSel})
  {
  }

  lemma PutTpidr(s: State, t: State, F: set<Reg>, v: Word)
    requires Agree(s, t, F)
    ensures Agree(s.(tpidr := v), t.(tpidr := v), F + {Tpidr})
    ensures Only(s, s.(tpidr := v), {Tpidr})
  {
  }

  lemma MoveSystemRegisterMatching(c: Config, i: SystemOp, s: State, u: State, F: set<Reg>)
    requires i.MoveSystemRegister? && Agree(s, u, F) && SystemReads(i) <= F
    ensures Matching(ExecSystem(c, i, s), ExecSystem(c, i, u), F + SystemWrites(i))
    ensures Frame(s, ExecSystem(c, i, s), SystemWrites(i))
  {
    var r := SystemRegister(i.op0, i.op1, i.crn, i.crm, i.op2);
    if r.Some? {
      if i.read {
        SystemGetAgrees(s, u, F, r.value);
        WriteX(s, u, F, i.t, SystemGet(s, r.value));
        OnlyX(s, i.t, SystemGet(s, r.value));
      } else {
        AgreeX(s, u, F, i.t, 64);
        SystemPutAgrees(s, u, F, r.value, RX(s, i.t, 64));
      }
    }
  }

  lemma WriteDaifAgrees(s: State, t: State, F: set<Reg>, field: PStateField, b: Bits)
    requires Agree(s, t, F) && |b| == 4 && (field != FieldSp ==> DAIF_FP <= F)
    ensures Agree(WriteDaif(s, field, b), WriteDaif(t, field, b), F + if field == FieldSp then {SpSel} else DAIF_FP)
    ensures Only(s, WriteDaif(s, field, b), if field == FieldSp then {SpSel} else DAIF_FP)
  {
    if field == FieldSp {
      PutSpSel(s, t, F, b[0]);
    } else {
      AgreeMasks(s, t, F);
      PutMasks(s, t, F, WriteDaif(s, field, b).daif);
    }
  }

  lemma TMStartMatching(c: Config, t: RegIndex, s: State, u: State, F: set<Reg>)
    requires Agree(s, u, F) && {TxNesting, TxDepth} <= F
    ensures Matching(ExecTMStart(c, t, s), ExecTMStart(c, t, u), F + If(CanStart(s), {TxNesting} + XFP(t)))
    ensures Frame(s, ExecTMStart(c, t, s), {TxNesting} + XFP(t))
  {
    StartedAgrees(c, t, s, u, F);
  }

  lemma StartedAgrees(c: Config, t: RegIndex, s: State, u: State, F: set<Reg>)
    requires Agree(s, u, F) && TxNesting in F && TxDepth in F
    ensures CanStart(s) == CanStart(u)
    ensures Agree(Started(c, t, s), Started(c, t, u), F + ({TxNesting} + XFP(t)))
    ensures Only(s, Started(c, t, s), {TxNesting} + XFP(t))
  {
    AgreeNesting(s, u, F);
    StartAgrees(s, u, F, Deeper(s.txNesting), t, StartStatus(c, s.txNesting));
  }

  lemma StartAgrees(s: State, u: State, F: set<Reg>, nesting: Nesting, t: RegIndex, status: Word)
    requires Agree(s, u, F)
    ensures Agree(WX(s.(txNesting := nesting), t, status), WX(u.(txNesting := nesting), t, status),
                  F + ({TxNesting} + XFP(t)))
    ensures Only(s, WX(s.(txNesting := nesting), t, status), {TxNesting} + XFP(t))
  {
    var s1, u1 := s.(txNesting := nesting), u.(txNesting := nesting);
    NestingAgrees(s, u, F, nesting);
    WriteX(s1, u1, F + {TxNesting}, t, status);
    assert F + {TxNesting} + XFP(t) == F + ({TxNesting} + XFP(t));
    OnlyX(s1, t, status);
    OnlyTrans(s, s1, WX(s1, t, status), {TxNesting}, XFP(t));
  }

  lemma NestingAgrees(s: State, u: State, F: set<Reg>, nesting: Nesting)
    requires Agree(s, u, F)
    ensures Agree(s.(txNesting := nesting), u.(txNesting := nesting), F + {TxNesting})
    ensures Only(s, s.(txNesting := nesting), {TxNesting})
  {
  }

  lemma TMCommitMatching(s: State, t: State, F: set<Reg>)
    requires Agree(s, t, F) && TxNesting in F
    ensures Matching(ExecTMCommit(s), ExecTMCommit(t), F + {TxNesting}) && Frame(s, ExecTMCommit(s), {TxNesting})
  {
    AgreeNesting(s, t, F);
    if UInt(s.txNesting) > 0 { NestingAgrees(s, t, F, ToBits(8, UInt(s.txNesting) - 1)); }
  }

  lemma TestAgrees(s: State, t: State, F: set<Reg>, f: Flags)
    requires Agree(s, t, F)
    ensures Agree(s.(flags := f), t.(flags := f), F + NZCV_FP) && Only(s, s.(flags := f), NZCV_FULL)
  {
    WriteFlags(s, t, F, f);
  }

  /** The registers of `SystemWrites` really written: TSTART writes only when it starts, TTEST leaves the
      reserved bits of NZCV alone. */
  function SystemWritten(i: SystemOp, s: State): set<Reg> {
    match i
    case TMStart(_) => If(CanStart(s), SystemWrites(i))
    case TMTest => NZCV_FP
    case _ => SystemWrites(i)
  }

  lemma SystemMatching(c: Config, i: SystemOp, s: State, t: State, F: set<Reg>)
    requires WellFormedSystem(i) && Agree(s, t, F) && SystemReads(i) <= F
    ensures Matching(ExecSystem(c, i, s), ExecSystem(c, i, t), F + SystemWritten(i, s))
    ensures Frame(s, ExecSystem(c, i, s), SystemWrites(i))
  {
    AgreeNesting(s, t, F);
    match i
    case TMStart(r) => TMStartMatching(c, r, s, t, F);
    case TMCommit => TMCommitMatching(s, t, F);
    case TMAbort(_, _) =>
    case TMTest => TestAgrees(s, t, F, Flags(false, UInt(s.txNesting) == 0, false, false));
    case MoveSystemImmediate(operand, field) => WriteDaifAgrees(s, t, F, field, operand);
    case Hint(_) =>
    case ClearExclusiveMonitor(_) =>
    case Barrier(_, _, _) =>
    case MoveSystemRegister(_, _, _, _, _, _, _) => MoveSystemRegisterMatching(c, i, s, t, F);
  }

  // ----- the theorems -----

  /** The part of the announced writes that is really determined; everything except in three cases. */
  function Written(i: Instr, s: State): set<Reg>
    requires WellFormed(i)
  {
    match i
    case Data(data) => DataWrites(data)
    case Memory(memory) => MemoryWritten(memory)
    case Branch(branch) => If(Taken(branch, s), BranchWrites(branch))
    case System(system) => SystemWritten(system, s)
  }

  /** No instruction changes a register, flag or the PC outside its announced writes. */
  lemma NothingElseChanges(c: Config, i: Instr, s: State, r: Reg)
    requires WellFormed(i) && Exec(c, i, s).Done? && r !in Writes(i)
    ensures Read(Exec(c, i, s).state, r) == Read(s, r)
  {
    match i
    case Data(data) => FootprintData.DataFrame(c, data, s);
    case Memory(memory) => MemoryMatching(c, memory, s, s, MemoryReads(memory));
    case Branch(branch) => BranchMatching(c, branch, s, s, BranchReads(branch));
    case System(system) => SystemMatching(c, system, s, s, SystemReads(system));
  }

  /** Runs from states that agree on the announced reads (for branches also on the PC), on memory and on any
      further registers F end the same way, with the same events, agreeing on F and on all that was written. */
  lemma Parallel(c: Config, i: Instr, s: State, t: State, F: set<Reg>)
    requires WellFormed(i) && Agree(s, t, F) && Reads(i) <= F && (i.Branch? ==> s.pc == t.pc)
    ensures Matching(Exec(c, i, s), Exec(c, i, t), F + Written(i, s))
  {
    match i
    case Data(data) => FootprintData.DataMatching(c, data, s, t, F);
    case Memory(memory) => MemoryMatching(c, memory, s, t, F);
    case Branch(branch) =>
      BranchMatching(c, branch, s, t, F);
      MatchingMonotone(Exec(c, i, s), Exec(c, i, t), F + {Pc} + If(Taken(branch, s), BranchWrites(branch)),
                       F + Written(i, s));
    case System(system) => SystemMatching(c, system, s, t, F);
  }

  /** The cases where the analysis announces a write that need not happen: a TSTART that is refused, TTEST
      (it announces all of NZCV but leaves the reserved bits), and a literal prefetch. */
  predicate Covered(i: Instr, s: State) {
    match i
    case Data(_) => true
    case Branch(_) => true
    case Memory(memory) => !(memory.LoadLiteral? && memory.memop == Prefetch && memory.t != 31)
    case System(system) => !system.TMTest? && !(system.TMStart? && system.t != 31 && !CanStart(s))
  }

  /** The states an observer of the announced inputs cannot tell apart. */
  ghost predicate SameInputs(i: Instr, s: State, t: State) { Agree(s, t, Reads(i)) && s.pc == t.pc }

  /** The announced inputs determine everything announced as output: how the instruction ends, its events,
      memory, and every register it may write. */
  ghost predicate Determined(c: Config, i: Instr, s: State)
    requires WellFormed(i)
  {
    forall t: State :: SameInputs(i, s, t) ==> Matching(Exec(c, i, s), Exec(c, i, t), Writes(i))
  }

  lemma CoveredWrites(c: Config, i: Instr, s: State)
    requires WellFormed(i) && Covered(i, s) && Exec(c, i, s).Done?
    ensures Writes(i) <= Reads(i) + {Pc} + Written(i, s)
  {
    if i.Branch? && !Taken(i.branch, s) { BranchWritesWhenNotTaken(i.branch, s); }
  }

  lemma CoveredDetermined(c: Config, i: Instr, s: State, t: State)
    requires WellFormed(i) && Covered(i, s) && SameInputs(i, s, t) && Exec(c, i, s).Done?
    ensures Matching(Exec(c, i, s), Exec(c, i, t), Writes(i))
  {
    assert Agree(s, t, Reads(i) + {Pc});
    Parallel(c, i, s, t, Reads(i) + {Pc});
    CoveredWrites(c, i, s);
    MatchingMonotone(Exec(c, i, s), Exec(c, i, t), Reads(i) + {Pc} + Written(i, s), Writes(i));
  }

  function Flipped(s: State, n: GeneralIndex): State { s.(x := s.x[n := Not(s.x[n])]) }

  lemma FlippedReads(s: State, n: GeneralIndex, F: set<Reg>)
    requires R(n) !in F
    ensures Read(Flipped(s, n), R(n)) != Read(s, R(n))
    ensures Agree(s, Flipped(s, n), F) && Flipped(s, n).pc == s.pc
  {
    assert Not(s.x[n])[0] != s.x[n][0];
  }

  /** An announced register that is neither read nor written tells two states apart. */
  lemma UncoveredRegister(c: Config, i: Instr, s: State, n: GeneralIndex)
    requires WellFormed(i) && Exec(c, i, s).Done? && Exec(c, i, s).state == s && R(n) in Writes(i) && R(n) !in Reads(i)
    requires Exec(c, i, Flipped(s, n)).Done? && Exec(c, i, Flipped(s, n)).state == Flipped(s, n)
    ensures !Determined(c, i, s)
  {
    FlippedReads(s, n, Reads(i));
    assert SameInputs(i, s, Flipped(s, n));
  }

  lemma UncoveredTest(c: Config, s: State)
    ensures !Determined(c, System(TMTest), s)
  {
    var t := s.(nzcvRest := Not(s.nzcvRest));
    assert Not(s.nzcvRest)[0] != s.nzcvRest[0];
    assert SameInputs(System(TMTest), s, t);
    var s', t' := Exec(c, System(TMTest), s).state, Exec(c, System(TMTest), t).state;
    assert Read(s', NzcvRest) != Read(t', NzcvRest) && NzcvRest in Writes(System(TMTest));
  }

  /** The announced inputs determine the announced outputs exactly in the covered cases. */
  lemma FootprintExact(c: Config, i: Instr, s: State)
    requires WellFormed(i) && Exec(c, i, s).Done?
    ensures Determined(c, i, s) <==> Covered(i, s)
  {
    if Covered(i, s) {
      forall t: State | SameInputs(i, s, t) ensures Matching(Exec(c, i, s), Exec(c, i, t), Writes(i)) {
        CoveredDetermined(c, i, s, t);
      }
    } else if i.Memory? {
      UncoveredRegister(c, i, s, i.memory.t);
    } else if i.system.TMTest? {
      UncoveredTest(c, s);
    } else {
      UncoveredRegister(c, i, s, i.system.t);
    }
  }

  // ----- commutation -----

  /** Instructions without memory accesses or other events. */
  predicate RegisterOnly(i: Instr) {
    || i.Data? || i.Branch?
    || (i.System? && (i.system.MoveSystemImmediate? || i.system.Hint? || i.system.ClearExclusiveMonitor?
                      || i.system.MoveSystemRegister? || i.system.TMTest?))
  }

  predicate Independent(i: Instr, j: Instr) {
    && Writes(i) !! (Reads(j) + Writes(j))
    && Writes(j) !! (Reads(i) + Writes(i))
  }

  ghost function Then(c: Config, o: Outcome, j: Instr): Outcome
    requires WellFormed(j)
  {
    match o
    case Exit => Exit
    case Done(s, e) =>
      match Exec(c, j, s)
      case Exit => Exit
      case Done(t, f) => Done(t, e + f)
  }

  lemma RegisterOnlyQuiet(c: Config, i: Instr, s: State)
    requires WellFormed(i) && RegisterOnly(i) && Exec(c, i, s).Done?
    ensures Exec(c, i, s).events == [] && Exec(c, i, s).state.mem == s.mem
  {
    if i.Data? { FootprintData.DataFrame(c, i.data, s); }
  }

  /** j leaves alone everything i reads or writes, so i does the same before and after j. */
  lemma SameAfter(c: Config, i: Instr, j: Instr, s: State)
    requires WellFormed(i) && WellFormed(j) && RegisterOnly(j) && Independent(i, j) && Exec(c, j, s).Done?
    ensures var t := Exec(c, j, s).state;
            Matching(Exec(c, i, s), Exec(c, i, t), Reads(i) + Writes(i) + Written(i, s))
  {
    var t, F := Exec(c, j, s).state, Reads(i) + Writes(i);
    RegisterOnlyQuiet(c, j, s);
    forall r | r in F + If(i.Branch?, {Pc}) ensures Read(s, r) == Read(t, r) { NothingElseChanges(c, j, s, r); }
    if i.Branch? { assert Read(s, Pc) == Read(t, Pc); }
    Parallel(c, i, s, t, F);
  }

  /** Register-only instructions with independent footprints commute. */
  lemma IndependentCommute(c: Config, i: Instr, j: Instr, s: State)
    requires WellFormed(i) && WellFormed(j) && RegisterOnly(i) && RegisterOnly(j) && Independent(i, j)
    ensures Then(c, Exec(c, i, s), j) == Then(c, Exec(c, j, s), i)
  {
    var o, p := Exec(c, i, s), Exec(c, j, s);
    if o.Done? { SameAfter(c, j, i, s); }
    if p.Done? { SameAfter(c, i, j, s); }
    if o.Done? && p.Done? {
      RegisterOnlyQuiet(c, i, s);
      RegisterOnlyQuiet(c, j, s);
      RegisterOnlyQuiet(c, j, o.state);
      RegisterOnlyQuiet(c, i, p.state);
      var si, sj := Exec(c, j, o.state).state, Exec(c, i, p.state).state;
      forall r ensures Read(si, r) == Read(sj, r) { CommuteAt(c, i, j, s, r); }
      SameState(si, sj);
    }
  }

  lemma CommuteAt(c: Config, i: Instr, j: Instr, s: State, r: Reg)
    requires WellFormed(i) && WellFormed(j) && RegisterOnly(i) && RegisterOnly(j) && Independent(i, j)
    requires Exec(c, i, s).Done? && Exec(c, j, s).Done?
    requires Exec(c, j, Exec(c, i, s).state).Done? && Exec(c, i, Exec(c, j, s).state).Done?
    ensures Read(Exec(c, j, Exec(c, i, s).state).state, r) == Read(Exec(c, i, Exec(c, j, s).state).state, r)
  {
    var o, p := Exec(c, i, s).state, Exec(c, j, s).state;
    SameAfter(c, i, j, s);
    SameAfter(c, j, i, s);
    if r !in Writes(i) { NothingElseChanges(c, i, s, r); NothingElseChanges(c, i, p, r); }
    if r !in Writes(j) { NothingElseChanges(c, j, s, r); NothingElseChanges(c, j, o, r); }
  }

  // ----- where control goes -----

  /** The PC may go from one place to another: unchanged when the successor is announced, at the tag-stripped
      address when a concrete one is announced, anywhere when an indirect target is announced. */
  ghost predicate MayGo(c: Config, nias: set<Nia>, pc: Word, pc': Word) {
    || (pc' == pc && Successor in nias)
    || (exists a :: Concrete(a) in nias && pc' == StripTag(c, a))
    || Indirect in nias
  }

  /** After an instruction the PC is where an announced next address puts it. */
  lemma NextAddressAnnounced(c: Config, i: Instr, s: State)
    requires WellFormed(i) && Exec(c, i, s).Done?
    ensures MayGo(c, NextAddresses(i, s), s.pc, Exec(c, i, s).state.pc)
  {
    if i.Branch? { BranchNextAnnounced(c, i.branch, s); } else { PcKept(c, i, s); }
  }

  lemma PcKept(c: Config, i: Instr, s: State)
    requires WellFormed(i) && Exec(c, i, s).Done? && !i.Branch?
    ensures Exec(c, i, s).state.pc == s.pc
  {
    PcNotWritten(i);
    NothingElseChanges(c, i, s, Pc);
    assert Read(s, Pc) == s.pc;
  }

  lemma PcNotWritten(i: Instr)
    requires !i.Branch?
    ensures Pc !in Writes(i)
  {
  }

  lemma BranchNextAnnounced(c: Config, i: BranchOp, s: State)
    requires WellFormedBranch(i)
    ensures MayGo(c, BranchNext(i, s), s.pc, ExecBranch(c, i, s).state.pc)
  {
    if Taken(i, s) { BranchTarget(c, i, s); }
  }

  lemma BranchTarget(c: Config, i: BranchOp, s: State)
    requires WellFormedBranch(i) && Taken(i, s)
    ensures ExecBranch(c, i, s).state.pc == StripTag(c, Target(i, s))
    ensures Concrete(Target(i, s)) in BranchNext(i, s) || Indirect in BranchNext(i, s)
  {
  }

  /** An announced concrete address is the real one exactly when its tag byte survives. */
  lemma StripTagIdentity(c: Config, a: Word)
    ensures StripTag(c, a) == a
       <==> ((if a[55] then c.tbi1 else c.tbi0) ==> forall k :: 56 <= k < 64 ==> a[k] == a[55])
  {
    var b := StripTag(c, a);
    assert b[..56] == a[..56];
    if (if a[55] then c.tbi1 else c.tbi0) && b == a { assert forall k :: 56 <= k < 64 ==> b[k] == a[55]; }
  }
}
