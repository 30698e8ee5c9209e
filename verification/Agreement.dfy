/** States that agree on some registers, and how each elementary step keeps agreement and leaves other
    registers alone. */
module Agreement {
  import opened BitVectors
  import opened CommonLib
  import opened Instructions
  import opened Semantics
  import opened Footprint

  /** Equal memory, and equal registers of F. */
  ghost predicate Agree(s: State, t: State, F: set<Reg>) {
    s.mem == t.mem && forall r :: r in F ==> Read(s, r) == Read(t, r)
  }

  /** Only registers of W differ; memory may. */
  ghost predicate Only(s: State, s': State, W: set<Reg>) {
    forall r :: r !in W ==> Read(s', r) == Read(s, r)
  }

  lemma AgreeX(s: State, t: State, F: set<Reg>, n: RegIndex, w: nat)
    requires Agree(s, t, F) && XFP(n) <= F && w <= 64
    ensures RX(s, n, w) == RX(t, n, w)
  {
    if n != 31 { assert R(n) in F && Read(s, R(n)) == Read(t, R(n)); }
  }

  lemma AgreeSp(s: State, t: State, F: set<Reg>)
    requires Agree(s, t, F) && SpEl0 in F
    ensures s.sp == t.sp
  {
    assert Read(s, SpEl0) == Read(t, SpEl0);
  }

  lemma AgreePc(s: State, t: State, F: set<Reg>)
    requires Agree(s, t, F) && Pc in F
    ensures s.pc == t.pc
  {
    assert Read(s, Pc) == Read(t, Pc);
  }

  lemma AgreeSource(s: State, t: State, F: set<Reg>, n: RegIndex, w: nat)
    requires Agree(s, t, F) && SourceFP(n) <= F && w <= 64
    ensures RXorSP(s, n, w) == RXorSP(t, n, w)
  {
    if n == 31 { assert SpEl0 in RSP_FP; AgreeSp(s, t, F); } else { AgreeX(s, t, F, n, w); }
  }

  lemma AgreeFlagBits(s: State, t: State, F: set<Reg>)
    requires Agree(s, t, F)
    ensures FlagN in F ==> s.flags.n == t.flags.n
    ensures FlagZ in F ==> s.flags.z == t.flags.z
    ensures FlagC in F ==> s.flags.c == t.flags.c
    ensures FlagV in F ==> s.flags.v == t.flags.v
  {
    if FlagN in F { assert Read(s, FlagN)[0] == Read(t, FlagN)[0]; }
    if FlagZ in F { assert Read(s, FlagZ)[0] == Read(t, FlagZ)[0]; }
    if FlagC in F { assert Read(s, FlagC)[0] == Read(t, FlagC)[0]; }
    if FlagV in F { assert Read(s, FlagV)[0] == Read(t, FlagV)[0]; }
  }

  /** A condition depends only on the flags its footprint names. */
  lemma AgreeCondition(s: State, t: State, F: set<Reg>, cond: Cond)
    requires Agree(s, t, F) && ConditionFP(cond) <= F
    ensures ConditionHolds(cond, s.flags) == ConditionHolds(cond, t.flags)
  {
    AgreeFlagBits(s, t, F);
    assert forall r :: r in ConditionFP(cond) ==> r in F;
  }

  lemma AgreeNesting(s: State, t: State, F: set<Reg>)
    requires Agree(s, t, F)
    ensures TxNesting in F ==> s.txNesting == t.txNesting
    ensures TxDepth in F ==> s.txDepth == t.txDepth
  {
    if TxNesting in F { assert Read(s, TxNesting) == Read(t, TxNesting); }
    if TxDepth in F { assert Read(s, TxDepth) == Read(t, TxDepth); }
  }

  lemma AgreeMasks(s: State, t: State, F: set<Reg>)
    requires Agree(s, t, F) && DAIF_FP <= F
    ensures s.daif == t.daif
  {
    assert MaskD in F && MaskA in F && MaskI in F && MaskF in F;
    assert Read(s, MaskD)[0] == Read(t, MaskD)[0] && Read(s, MaskA)[0] == Read(t, MaskA)[0];
    assert Read(s, MaskI)[0] == Read(t, MaskI)[0] && Read(s, MaskF)[0] == Read(t, MaskF)[0];
  }

  // ----- writing -----

  lemma ReadAfterWX(s: State, n: RegIndex, v: Bits, r: Reg)
    requires |v| <= 64
    ensures Read(WX(s, n, v), r) == if r in XFP(n) then ZeroExtend(v, 64) else Read(s, r)
  {
  }

  lemma WriteX(s: State, t: State, F: set<Reg>, n: RegIndex, v: Bits)
    requires Agree(s, t, F) && |v| <= 64
    ensures Agree(WX(s, n, v), WX(t, n, v), F + XFP(n))
  {
    forall r | r in F + XFP(n) ensures Read(WX(s, n, v), r) == Read(WX(t, n, v), r) {
      ReadAfterWX(s, n, v, r);
      ReadAfterWX(t, n, v, r);
    }
  }

  lemma WriteSp(s: State, t: State, F: set<Reg>, v: Bits)
    requires Agree(s, t, F) && |v| <= 64
    ensures Agree(WSP(s, v), WSP(t, v), F + {SpEl0})
  {
  }

  lemma WriteFlags(s: State, t: State, F: set<Reg>, f: Flags)
    requires Agree(s, t, F)
    ensures Agree(s.(flags := f), t.(flags := f), F + NZCV_FP)
  {
  }

  lemma OnlyX(s: State, n: RegIndex, v: Bits)
    requires |v| <= 64
    ensures Only(s, WX(s, n, v), XFP(n)) && WX(s, n, v).mem == s.mem
  {
  }

  lemma OnlyTrans(s: State, t: State, u: State, W1: set<Reg>, W2: set<Reg>)
    requires Only(s, t, W1) && Only(t, u, W2)
    ensures Only(s, u, W1 + W2)
  {
  }

  /** The registers a write touches. */
  function Targets(w: Write): set<Reg> {
    If(w.flags.Some?, NZCV_FP) + if w.toSp then {SpEl0} else XFP(w.d)
  }

  lemma CommitAgrees(s: State, t: State, F: set<Reg>, w: Write)
    requires Agree(s, t, F) && |w.value| <= 64
    ensures Agree(Commit(s, w), Commit(t, w), F + Targets(w))
  {
    var s1 := if w.flags.Some? then s.(flags := w.flags.value) else s;
    var t1 := if w.flags.Some? then t.(flags := w.flags.value) else t;
    var G := F + If(w.flags.Some?, NZCV_FP);
    if w.flags.Some? { WriteFlags(s, t, F, w.flags.value); }
    assert Agree(s1, t1, G);
    if w.toSp { WriteSp(s1, t1, G, w.value); assert G + {SpEl0} == F + Targets(w); }
    else { WriteX(s1, t1, G, w.d, w.value); assert G + XFP(w.d) == F + Targets(w); }
  }

  lemma CommitOnly(s: State, w: Write)
    requires |w.value| <= 64
    ensures Only(s, Commit(s, w), Targets(w)) && Commit(s, w).mem == s.mem
  {
  }

  // ----- outcomes -----

  /** Two runs end the same way: both exit, or both finish with the same events in agreeing states. */
  ghost predicate Matching(o: Outcome, p: Outcome, F: set<Reg>) {
    match (o, p)
    case (Exit, Exit) => true
    case (Done(s, e), Done(t, f)) => e == f && Agree(s, t, F)
    case _ => false
  }

  ghost predicate Frame(s: State, o: Outcome, W: set<Reg>) {
    o.Done? ==> Only(s, o.state, W)
  }

  lemma MatchingMonotone(o: Outcome, p: Outcome, F: set<Reg>, G: set<Reg>)
    requires Matching(o, p, F) && G <= F
    ensures Matching(o, p, G)
  {
  }
}
