/** The analysis as it is computed against the instruction as it runs: a machine and the analyser side by side,
    the way the memory-model tool uses them (aarch64_small/aarch64_regfp.sail, aarch64_small/armV8.sail). */
module Audit {
  import opened Wrappers
  import opened MemAccess
  import opened Instructions
  import opened Semantics
  import opened Footprint
  import opened Agreement
  import opened FootprintSound
  import opened FootprintEvents
  import opened Machines
  import Analyser

  /** The access types the decoders give to acquire, release and exclusive forms. */
  predicate Decoded(i: Instr) {
    i.Memory? && i.memory.LoadStoreAcqExc? ==> i.memory.acctype == Atomic || i.memory.acctype == Ordered
  }

  /** What happened between two states, with these events, stayed inside the analysis. */
  ghost predicate Covers(a: Analysis, c: Config, s: State, s': State, events: seq<Event>) {
    && (forall r :: r !in a.oR ==> Read(s', r) == Read(s, r))
    && (forall e :: e in events ==> KindAllows(a.ik, e))
    && MayGo(c, a.nias, s.pc, s'.pc)
    && (s'.mem != s.mem ==> a.ik.IkMemWrite?)
  }

  lemma CoversRun(c: Config, i: Instr, s: State)
    requires WellFormed(i) && Exec(c, i, s).Done? && Claimed(i, s).Some?
    ensures Covers(Claimed(i, s).value, c, s, Exec(c, i, s).state, Exec(c, i, s).events)
  {
    var o := Exec(c, i, s);
    forall r | r !in Writes(i) ensures Read(o.state, r) == Read(s, r) { NothingElseChanges(c, i, s, r); }
    forall e | e in o.events ensures KindAllows(Kind(i).value, e) { KindSound(c, i, s, e); }
    NextAddressAnnounced(c, i, s);
    if o.state.mem != s.mem { OnlyWritesChangeMemory(c, i, s); }
  }

  /** Analyse an instruction in the machine's state, then run it. When it finishes there is an analysis, and the
      machine has changed no register outside oR, made only accesses of the announced kind, left memory alone
      unless a write is announced, and gone where a next address says. */
  method Audited(m: Machine, i: Instr) returns (a: Option<Analysis>, ok: bool)
    requires WellFormed(i)
    modifies m
    ensures ok && Decoded(i) ==> a.Some?
    ensures ok ==> old(m.events) <= m.events
    ensures ok && a.Some? ==> Covers(a.value, m.config, old(m.Now()), m.Now(), m.events[|old(m.events)|..])
  {
    ghost var s, before := m.Now(), m.events;
    a := Analyser.InitialAnalysis(i, m.Now());
    ok := m.Execute(i);
    if ok {
      NewEvents(before, Exec(m.config, i, s).events, m.events);
      if Decoded(i) { AnalysisDefined(m.config, i, s); }
      if a.Some? { CoversRun(m.config, i, s); }
    }
  }

  lemma NewEvents(before: seq<Event>, made: seq<Event>, all: seq<Event>)
    requires all == before + made
    ensures before <= all && all[|before|..] == made
  {
  }

  /** Both runs end alike: neither finishes, or both do with equal events and memory, equal in the registers
      announced as inputs and (when every announced write happens) in those announced as outputs. */
  ghost predicate EndAlike(a: Analysis, covered: bool, ok: bool, s: State, e: seq<Event>, ok': bool, s': State,
                           e': seq<Event>) {
    && ok == ok'
    && (ok ==> e == e' && s.mem == s'.mem)
    && (ok ==> forall r :: r in a.iR || (covered && r in a.oR) ==> Read(s, r) == Read(s', r))
  }

  /** The events since `before`. */
  function NewSince(before: seq<Event>, all: seq<Event>): seq<Event> {
    if |before| <= |all| then all[|before|..] else []
  }

  ghost predicate SameAddresses(a: Analysis, s: State, t: State) { forall r :: r in a.aR ==> Read(s, r) == Read(t, r) }

  lemma AlikeBy(c: Config, i: Instr, s: State, t: State)
    requires WellFormed(i) && SameInputs(i, s, t) && Claimed(i, s).Some?
    ensures Matching(Exec(c, i, s), Exec(c, i, t), Reads(i))
    ensures Exec(c, i, s).Done? && Covered(i, s) ==> Matching(Exec(c, i, s), Exec(c, i, t), Writes(i))
  {
    Parallel(c, i, s, t, Reads(i));
    MatchingMonotone(Exec(c, i, s), Exec(c, i, t), Reads(i) + Written(i, s), Reads(i));
    if Exec(c, i, s).Done? && Covered(i, s) { CoveredDetermined(c, i, s, t); }
  }

  /** Two machines that agree on the inputs an analysis announces, on the PC and on memory run an instruction
      alike; and when both finish, agreement on the announced address registers alone makes the accesses equal. */
  method AuditedTwice(m: Machine, n: Machine, i: Instr) returns (a: Option<Analysis>, ok: bool, ok': bool)
    requires WellFormed(i) && m != n && m.config == n.config
    modifies m, n
    ensures a.Some? && Agree(old(m.Now()), old(n.Now()), a.value.iR) && old(m.pc) == old(n.pc) ==>
      EndAlike(a.value, Covered(i, old(m.Now())), ok, m.Now(), NewSince(old(m.events), m.events),
               ok', n.Now(), NewSince(old(n.events), n.events))
    ensures a.Some? && ok && ok' && i.Memory? && SameAddresses(a.value, old(m.Now()), old(n.Now())) ==>
      NewSince(old(m.events), m.events) == NewSince(old(n.events), n.events)
  {
    ghost var s, t, e, f := m.Now(), n.Now(), m.events, n.events;
    a := Analyser.InitialAnalysis(i, m.Now());
    ok := m.Execute(i);
    ok' := n.Execute(i);
    if ok { NewEvents(e, Exec(m.config, i, s).events, m.events); }
    if ok' { NewEvents(f, Exec(n.config, i, t).events, n.events); }
    if a.Some? && SameInputs(i, s, t) { AlikeBy(m.config, i, s, t); }
    if a.Some? && ok && ok' && i.Memory? && SameAddresses(a.value, s, t) {
      AddressesDetermined(m.config, i, s, t);
    }
  }
}
