/** The inputs and address registers the analysis computes are the ones that matter, instruction by instruction. */
module NeededInputs {
  import opened Wrappers
  import opened Instructions
  import opened Footprint
  import Analyser
  import NeededData
  import FootprintNeeded
  import NeededControl
  import NeededMemory

  /** Some instruction of the form depends on register r: states that differ in it alone end, signal, change memory or
      write differently. */
  ghost predicate Needed(i: Instr, r: Reg)
    requires WellFormed(i)
  {
    match i
    case Data(data) => FootprintNeeded.DataNeeded(data, r)
    case Memory(memory) => NeededMemory.MemoryNeeded(memory, r)
    case Branch(branch) => NeededControl.BranchNeeded(branch, r)
    case System(system) => NeededControl.SystemNeeded(system, r)
  }

  /** The announced inputs that make no difference. */
  predicate Idle(i: Instr, r: Reg)
    requires WellFormed(i)
  {
    match i
    case Data(data) => NeededData.DataIdle(data, r)
    case Memory(memory) => NeededMemory.MemoryIdle(memory, r)
    case Branch(_) => r == CurrentEl
    case System(system) => NeededControl.SystemIdle(system, r)
  }

  /** The announced outputs that may keep their old value without being announced as inputs. */
  predicate Kept(i: Instr, r: Reg) {
    (i.Memory? && NeededMemory.PrefetchKept(i.memory, r)) || (i.System? && NeededControl.SystemKept(i.system, r))
  }

  lemma InputsExact(i: Instr, r: Reg)
    requires WellFormed(i)
    ensures Needed(i, r) <==> (r in Reads(i) && !Idle(i, r)) || Kept(i, r)
  {
    match i
    case Data(data) => NeededData.DataInputsExact(data, r);
    case Memory(memory) => NeededMemory.MemoryInputsExact(memory, r);
    case Branch(branch) => NeededControl.BranchInputsExact(branch, r);
    case System(system) => NeededControl.SystemInputsExact(system, r);
  }

  /** The address of a load or store depends on the register. */
  ghost predicate Addressed(i: Instr, r: Reg)
    requires WellFormed(i)
  {
    i.Memory? && NeededMemory.AddressNeeded(i.memory, r)
  }

  /** The inputs are exactly the needed ones, the address registers exactly those that move the access. */
  ghost predicate Tight(i: Instr, a: Analysis)
    requires WellFormed(i)
  {
    && (forall r: Reg :: Needed(i, r) <==> (r in a.iR && !Idle(i, r)) || Kept(i, r))
    && (forall r: Reg :: Addressed(i, r)
          <==> i.Memory? && r in a.aR && !NeededMemory.AddressIdle(i.memory, r))
  }

  lemma ClaimedTight(i: Instr, s: State)
    requires WellFormed(i) && Claimed(i, s).Some?
    ensures Tight(i, Claimed(i, s).value)
  {
    var a := Claimed(i, s).value;
    forall r: Reg ensures Needed(i, r) <==> (r in a.iR && !Idle(i, r)) || Kept(i, r) { InputsExact(i, r); }
    forall r: Reg ensures Addressed(i, r) <==> i.Memory? && r in a.aR && !NeededMemory.AddressIdle(i.memory, r) {
      if i.Memory? { NeededMemory.AddressesExact(i.memory, r); }
    }
  }

  /** The computed analysis announces no input and no address register too many. */
  method TightAnalysis(i: Instr, s: State) returns (r: Option<Analysis>)
    requires WellFormed(i)
    ensures r.Some? ==> Tight(i, r.value)
  {
    r := Analyser.InitialAnalysis(i, s);
    if r.Some? { ClaimedTight(i, s); }
  }
}
