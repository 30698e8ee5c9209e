/** The execute clauses of the model as they run: registers, flags, memory and the access buffers are updated
    step by step, and every clause ends in the state the Semantics module gives (aarch64_small/armV8.sail). */
module Machines {
  import opened Wrappers
  import opened Ints
  import opened BitVectors
  import opened CommonLib
  import opened Shifts
  import opened A64Lib
  import opened Gf2
  import opened SwapNetwork
  import opened Rts
  import opened Ram
  import opened MemAccess
  import opened Instructions
  import Semantics
  import opened Effects
  import Meanings

  class Machine {
    const config: Config
    var x: RegBank
    var sp: Word
    var pc: Word
    var flags: Flags
    var nzcvRest: Reserved
    var daif: Daif
    var daifRest: Reserved
    var spSel: bool
    var tpidr: Word
    var txNesting: Nesting
    var txDepth: Nesting
    var mem: Mem
    /** The address of the last announced write, to which the next written value goes. */
    var announced: Word
    var events: seq<Event>

    constructor (c: Config, s: State)
      ensures config == c && Now() == s && events == []
    {
      config := c;
      x, sp, pc, flags := s.x, s.sp, s.pc, s.flags;
      nzcvRest, daif, daifRest, spSel := s.nzcvRest, s.daif, s.daifRest, s.spSel;
      tpidr, txNesting, txDepth, mem := s.tpidr, s.txNesting, s.txDepth, s.mem;
      announced, events := Zeros(64), [];
    }

    function Now(): State
      reads this
    {
      State(x, sp, pc, flags, nzcvRest, daif, daifRest, spSel, tpidr, txNesting, txDepth, mem)
    }

    /** The clause that ran from state s, with `before` as events so far, ended as o says. */
    ghost predicate Ended(ok: bool, s: State, before: seq<Event>, o: Outcome)
      reads this
    {
      match o
      case Exit => !ok
      case Done(s', e) => ok && Now() == s' && events == before + e
    }

    // ----- register access -----

    function RX(n: RegIndex, width: nat): (r: Bits)
      requires width <= 64
      reads this
      ensures r == Instructions.RX(Now(), n, width)
    {
      if n != 31 then Mask(x[n], width) else Zeros(width)
    }

    function RSP(width: nat): (r: Bits)
      requires width <= 64
      reads this
      ensures r == Instructions.RSP(Now(), width)
    {
      Mask(sp, width)
    }

    method WX(n: RegIndex, value: Bits)
      requires |value| <= 64
      modifies this`x
      ensures Now() == Instructions.WX(old(Now()), n, value)
    {
      if n != 31 { x := x[n := ZeroExtend(value, 64)]; }
    }

    method WSP(value: Bits)
      requires |value| <= 64
      modifies this`sp
      ensures Now() == Instructions.WSP(old(Now()), value)
    {
      sp := ZeroExtend(value, 64);
    }

    /** The tag byte of an address is replaced by copies of bit 55 when the control bit for its half is set. */
    predicate TagRemoved(target: Word) { if target[55] then config.tbi1 else config.tbi0 }

    method BranchTo(target: Word)
      modifies this`pc
      ensures Now() == Semantics.Jump(config, old(Now()), target)
      ensures forall k :: 0 <= k < 64 ==> pc[k] == if k >= 56 && TagRemoved(target) then target[55] else target[k]
    {
      var target' := target;
      if target'[55] && config.tbi1 { target' := target'[..56] + Ones(8); }
      if !target'[55] && config.tbi0 { target' := target'[..56] + Zeros(8); }
      pc := target';
    }

    // ----- additions -----

    /** The common end of the add, subtract and logical clauses: flags, then SP or a register. */
    method WriteResult(d: RegIndex, spAllowed: bool, setflags: bool, result: Bits, nzcv: Flags)
      requires |result| <= 64
      modifies this`x, this`sp, this`flags
      ensures Now() == Semantics.Commit(old(Now()),
        Semantics.Write(d, spAllowed && d == 31 && !setflags, result, if setflags then Some(nzcv) else None))
    {
      if setflags { flags := nzcv; }
      if spAllowed && d == 31 && !setflags { WSP(result); } else { WX(d, result); }
    }

    method AddSub(d: RegIndex, spAllowed: bool, subOp: bool, setflags: bool, operand1: Bits, operand: Bits)
      requires 0 < |operand1| == |operand| <= 64
      modifies this`x, this`sp, this`flags
      ensures Now() == Semantics.Commit(old(Now()),
        Semantics.SumWrite(d, spAllowed, setflags, Semantics.AddOrSub(operand1, operand, subOp)))
      ensures SumEffect(old(Now()), Now(), d, spAllowed, setflags, operand1, operand, subOp, subOp)
    {
      SumHolds(Now(), d, spAllowed, setflags, operand1, operand, subOp, subOp);
      var operand2, carryIn := operand, false;
      if subOp {
        operand2 := Not(operand2);
        carryIn := true;
      } else {
        carryIn := false;
      }
      var (result, nzcv) := AddWithCarry(operand1, operand2, carryIn);
      WriteResult(d, spAllowed, setflags, result, nzcv);
    }

    method AddSubImmediate(i: DataOp)
      requires i.AddSubImmediate? && WellFormedData(i)
      modifies this`x, this`sp, this`flags
      ensures Now() == Semantics.After(i, old(Now())) && SumOpEffect(i, old(Now()), Now())
    {
      SumOpHolds(i, Now());
      var operand1 := if i.n == 31 then RSP(i.datasize) else RX(i.n, i.datasize);
      AddSub(i.d, true, i.subOp, i.setflags, operand1, i.imm);
    }

    method AddSubExtendRegister(i: DataOp)
      requires i.AddSubExtendRegister? && WellFormedData(i)
      modifies this`x, this`sp, this`flags
      ensures Now() == Semantics.After(i, old(Now())) && SumOpEffect(i, old(Now()), Now())
    {
      SumOpHolds(i, Now());
      var operand1 := if i.n == 31 then RSP(i.datasize) else RX(i.n, i.datasize);
      var operand2 := ExtendReg(RX(i.m, i.datasize), i.extendType, i.shift);
      AddSub(i.d, true, i.subOp, i.setflags, operand1, operand2);
    }

    method AddSubShiftedRegister(i: DataOp)
      requires i.AddSubShiftedRegister? && WellFormedData(i)
      modifies this`x, this`sp, this`flags
      ensures Now() == Semantics.After(i, old(Now())) && SumOpEffect(i, old(Now()), Now())
    {
      SumOpHolds(i, Now());
      var operand1 := RX(i.n, i.datasize);
      var operand2 := ShiftReg(RX(i.m, i.datasize), i.shiftType, i.amount);
      AddSub(i.d, false, i.subOp, i.setflags, operand1, operand2);
    }

    method AddSubCarry(i: DataOp)
      requires i.AddSubCarry? && WellFormedData(i)
      modifies this`x, this`sp, this`flags
      ensures Now() == Semantics.After(i, old(Now())) && SumOpEffect(i, old(Now()), Now())
    {
      SumOpHolds(i, Now());
      var operand1 := RX(i.n, i.datasize);
      var operand2 := RX(i.m, i.datasize);
      if i.subOp { operand2 := Not(operand2); }
      var (result, nzcv) := AddWithCarry(operand1, operand2, flags.c);
      WriteResult(i.d, false, i.setflags, result, nzcv);
    }

    method ConditionalCompare(n: RegIndex, datasize: nat, subOp: bool, condition: Cond, otherwise: Flags, operand: Bits)
      requires Width(datasize) && |operand| == datasize
      modifies this`flags
      ensures Now() == Semantics.Commit(old(Now()), Semantics.FlagsWrite(Semantics.CompareFlags(
        ConditionHolds(condition, old(flags)), old(RX(n, datasize)), operand, subOp, otherwise)))
      ensures CompareEffect(old(Now()), Now(), ConditionHolds(condition, old(flags)), old(RX(n, datasize)), operand,
                            subOp, otherwise)
    {
      CompareHolds(Now(), ConditionHolds(condition, flags), RX(n, datasize), operand, subOp, otherwise);
      var operand1 := RX(n, datasize);
      var operand2, carryIn, flags' := operand, false, otherwise;
      if ConditionHolds(condition, flags) {
        if subOp {
          operand2 := Not(operand2);
          carryIn := true;
        }
        flags' := AddWithCarry(operand1, operand2, carryIn).1;
      }
      flags := flags';
    }

    method ConditionalCompareImmediate(i: DataOp)
      requires i.ConditionalCompareImmediate? && WellFormedData(i)
      modifies this`flags
      ensures Now() == Semantics.After(i, old(Now())) && SumOpEffect(i, old(Now()), Now())
    {
      SumOpHolds(i, Now());
      ConditionalCompare(i.n, i.datasize, i.subOp, i.condition, i.flags, i.imm);
    }

    method ConditionalCompareRegister(i: DataOp)
      requires i.ConditionalCompareRegister? && WellFormedData(i)
      modifies this`flags
      ensures Now() == Semantics.After(i, old(Now())) && SumOpEffect(i, old(Now()), Now())
    {
      SumOpHolds(i, Now());
      ConditionalCompare(i.n, i.datasize, i.subOp, i.condition, i.flags, RX(i.m, i.datasize));
    }

    static method Select(holds: bool, operand1: Bits, operand2: Bits, inv: bool, inc: bool) returns (result: Bits)
      requires |operand1| == |operand2|
      ensures result == Semantics.Selected(holds, operand1, operand2, inv, inc)
      ensures UInt(result) == SelectNumber(holds, operand1, operand2, inv, inc)
    {
      SelectedNumber(holds, operand1, operand2, inv, inc);
      result := operand1;
      if !holds {
        result := operand2;
        if inv { result := Not(result); }
        ToBitsUInt(result);
        if inc { result := ToBits(|operand2|, UInt(result) + 1); }
      }
    }

    method ConditionalSelect(i: DataOp)
      requires i.ConditionalSelect? && WellFormedData(i)
      modifies this`x
      ensures Now() == Semantics.After(i, old(Now())) && NumberEffect(i, old(Now()), Now())
    {
      NumberHolds(i, Now());
      var operand1, operand2 := RX(i.n, i.datasize), RX(i.m, i.datasize);
      var result := Select(ConditionHolds(i.condition, flags), operand1, operand2, i.elseInv, i.elseInc);
      WX(i.d, result);
    }

    // ----- moves and logic -----

    method BitfieldMove(i: DataOp)
      requires i.BitfieldMove? && WellFormedData(i)
      modifies this`x
      ensures Now() == Semantics.After(i, old(Now())) && BitOpEffect(i, old(Now()), Now())
    {
      BitOpHolds(i, Now());
      BitfieldWrite(i, Now());
      var dst := if i.inzero then Zeros(i.datasize) else RX(i.d, i.datasize);
      var src := RX(i.n, i.datasize);
      var bot := OrBits(AndBits(dst, Not(i.masks.wmask)), AndBits(ROR(src, i.R), i.masks.wmask));
      var top := dst;
      if i.extend {
        var copies := Replicate([src[i.S]], i.datasize);
        top := copies.value;
      }
      WX(i.d, OrBits(AndBits(top, Not(i.masks.tmask)), AndBits(bot, i.masks.tmask)));
    }

    method ExtractRegister(i: DataOp)
      requires i.ExtractRegister? && WellFormedData(i)
      modifies this`x
      ensures Now() == Semantics.After(i, old(Now())) && NumberEffect(i, old(Now()), Now())
    {
      NumberHolds(i, Now());
      var concat := Concat(RX(i.n, i.datasize), RX(i.m, i.datasize));
      WX(i.d, concat[i.lsb..i.lsb + i.datasize]);
    }

    method Logical(d: RegIndex, spAllowed: bool, setflags: bool, op: BitOp, operand1: Bits, operand2: Bits)
      requires 0 < |operand1| == |operand2| <= 64
      modifies this`x, this`sp, this`flags
      ensures Now() == Semantics.Commit(old(Now()),
        Semantics.LogicalWrite(d, spAllowed, setflags, BitsOp(op, operand1, operand2)))
      ensures LogicalEffect(old(Now()), Now(), d, spAllowed, setflags, op, operand1, operand2)
    {
      LogicalHolds(Now(), d, spAllowed, setflags, op, operand1, operand2);
      var result;
      match op {
        case AndOp => result := AndBits(operand1, operand2);
        case OrOp => result := OrBits(operand1, operand2);
        case XorOp => result := XorBits(operand1, operand2);
      }
      WriteResult(d, spAllowed, setflags, result, Flags(result[|result| - 1], IsZero(result), false, false));
    }

    method LogicalImmediate(i: DataOp)
      requires i.LogicalImmediate? && WellFormedData(i)
      modifies this`x, this`sp, this`flags
      ensures Now() == Semantics.After(i, old(Now())) && BitOpEffect(i, old(Now()), Now())
    {
      BitOpHolds(i, Now());
      Logical(i.d, true, i.setflags, i.bitOp, RX(i.n, i.datasize), i.imm);
    }

    method LogicalShiftedRegister(i: DataOp)
      requires i.LogicalShiftedRegister? && WellFormedData(i)
      modifies this`x, this`sp, this`flags
      ensures Now() == Semantics.After(i, old(Now())) && BitOpEffect(i, old(Now()), Now())
    {
      BitOpHolds(i, Now());
      var operand2 := ShiftReg(RX(i.m, i.datasize), i.shiftType, i.amount);
      if i.invert { operand2 := Not(operand2); }
      Logical(i.d, false, i.setflags, i.bitOp, RX(i.n, i.datasize), operand2);
    }

    method MoveWide(i: DataOp)
      requires i.MoveWide? && WellFormedData(i)
      modifies this`x
      ensures Now() == Semantics.After(i, old(Now())) && BitOpEffect(i, old(Now()), Now())
    {
      BitOpHolds(i, Now());
      var result := if i.opcode == MoveK then RX(i.d, i.datasize) else Zeros(i.datasize);
      result := result[..i.pos] + i.imm + result[i.pos + 16..];
      if i.opcode == MoveN { result := Not(result); }
      WX(i.d, result);
    }

    method Address(i: DataOp)
      requires i.Address?
      modifies this`x
      ensures Now() == Semantics.After(i, old(Now())) && NumberEffect(i, old(Now()), Now())
    {
      NumberHolds(i, Now());
      var base := pc;
      if i.page { base := Zeros(12) + base[12..]; }
      WX(i.d, Semantics.Plus(base, i.offset));
    }

    // ----- bit scans, division, multiplication, CRC -----

    method Reverse(i: DataOp)
      requires i.Reverse? && WellFormedData(i)
      modifies this`x
      ensures Now() == Semantics.After(i, old(Now())) && NumberEffect(i, old(Now()), Now())
    {
      NumberHolds(i, Now());
      var V := 0;
      match i.revOp {
        case REV16 => V := 8;
        case REV32 => V := 24;
        case REV64 => V := 56;
        case RBIT => V := if i.datasize == 64 then 63 else 31;
      }
      assert Pow2(5) == 32 && Pow2(6) == 64;
      var result := Network(RX(i.n, i.datasize), V, if i.datasize == 64 then 6 else 5);
      WX(i.d, result);
    }

    method CountLeading(i: DataOp)
      requires i.CountLeading? && WellFormedData(i)
      modifies this`x
      ensures Now() == Semantics.After(i, old(Now())) && NumberEffect(i, old(Now()), Now())
    {
      NumberHolds(i, Now());
      var operand1 := RX(i.n, i.datasize);
      var result;
      if i.countOp == CLZ {
        result := CountLeadingZeroBits(operand1);
      } else {
        result := CountLeadingSignBits(operand1);
      }
      WX(i.d, ToBits(i.datasize, result));
    }

    method Division(i: DataOp)
      requires i.Division? && WellFormedData(i)
      modifies this`x
      ensures Now() == Semantics.After(i, old(Now())) && ArithmeticEffect(i, old(Now()), Now())
    {
      ArithmeticHolds(i, Now());
      var operand1, operand2 := RX(i.n, i.datasize), RX(i.m, i.datasize);
      var result := 0;
      if !IsZero(operand2) {
        Semantics.ReadingNonzero(operand2, i.unsigned);
        result := Semantics.TruncDiv(Reading(operand1, i.unsigned), Reading(operand2, i.unsigned));
      }
      WX(i.d, ToBits(i.datasize, result));
    }

    method Shift(i: DataOp)
      requires i.Shift? && WellFormedData(i)
      modifies this`x
      ensures Now() == Semantics.After(i, old(Now())) && NumberEffect(i, old(Now()), Now())
    {
      NumberHolds(i, Now());
      var operand2 := RX(i.m, i.datasize);
      WX(i.d, ShiftReg(RX(i.n, i.datasize), i.shiftType, Residue(UInt(operand2), i.datasize)));
    }

    method Crc(i: DataOp)
      requires i.CRC? && WellFormedData(i)
      modifies this`x
      ensures Now() == Semantics.After(i, old(Now())) && ArithmeticEffect(i, old(Now()), Now())
    {
      ArithmeticHolds(i, Now());
      var acc, val := RX(i.n, 32), RX(i.m, i.size);
      var poly := CrcPoly(i.crc32c);
      var racc := BitReverse(acc);
      var rval := BitReverse(val);
      var tempacc := Concat(racc, Zeros(i.size));
      var tempval := Concat(rval, Zeros(32));
      var rem := Poly32Mod2(XorBits(tempacc, tempval), poly);
      var result := BitReverse(rem);
      WX(i.d, result);
    }

    method Accumulate(width: nat, operand1: Bits, operand2: Bits, operand3: Bits, subOp: bool, unsigned: bool)
        returns (r: Bits)
      ensures r == Semantics.ProductSum(width, operand3, operand1, operand2, subOp, unsigned)
      ensures UInt(r) == Accumulated(Reading(operand3, unsigned), Reading(operand1, unsigned),
                                     Reading(operand2, unsigned), subOp) % Pow2(width)
    {
      AccumulatedHolds(width, operand3, operand1, operand2, subOp, unsigned);
      var product := Reading(operand1, unsigned) * Reading(operand2, unsigned);
      var result := Reading(operand3, unsigned);
      if subOp { result := result - product; } else { result := result + product; }
      r := ToBits(width, result);
    }

    method MultiplyAddSub(i: DataOp)
      requires i.MultiplyAddSub? && WellFormedData(i)
      modifies this`x
      ensures Now() == Semantics.After(i, old(Now())) && ArithmeticEffect(i, old(Now()), Now())
    {
      ArithmeticHolds(i, Now());
      var result := Accumulate(i.destsize, RX(i.n, i.datasize), RX(i.m, i.datasize), RX(i.a, i.destsize), i.subOp,
                               true);
      WX(i.d, result);
    }

    method MultiplyAddSubLong(i: DataOp)
      requires i.MultiplyAddSubLong? && WellFormedData(i)
      modifies this`x
      ensures Now() == Semantics.After(i, old(Now())) && ArithmeticEffect(i, old(Now()), Now())
    {
      ArithmeticHolds(i, Now());
      var result := Accumulate(64, RX(i.n, i.datasize), RX(i.m, i.datasize), RX(i.a, i.destsize), i.subOp, i.unsigned);
      MultiplyLongWrite(i, Now(), result);
      WX(i.d, result);
    }

    method MultiplyHigh(i: DataOp)
      requires i.MultiplyHigh? && WellFormedData(i)
      modifies this`x
      ensures Now() == Semantics.After(i, old(Now())) && ArithmeticEffect(i, old(Now()), Now())
    {
      ArithmeticHolds(i, Now());
      var operand1, operand2 := RX(i.n, i.destsize), RX(i.m, i.destsize);
      var result := Reading(operand1, i.unsigned) * Reading(operand2, i.unsigned);
      WX(i.d, ToBits(128, result)[64..]);
    }

    // ----- branches -----

    method CompareAndBranch(i: BranchOp)
      requires i.CompareAndBranch? && WellFormedBranch(i)
      modifies this`pc
      ensures Ended(true, old(Now()), events, Semantics.ExecBranch(config, i, old(Now())))
    {
      var operand1 := RX(i.t, i.datasize);
      if IsZero(operand1) == i.iszero { BranchTo(Semantics.Plus(pc, i.offset)); }
    }

    method BranchConditional(i: BranchOp)
      requires i.BranchConditional?
      modifies this`pc
      ensures Ended(true, old(Now()), events, Semantics.ExecBranch(config, i, old(Now())))
    {
      if ConditionHolds(i.condition, flags) { BranchTo(Semantics.Plus(pc, i.offset)); }
    }

    method TestBitAndBranch(i: BranchOp)
      requires i.TestBitAndBranch? && WellFormedBranch(i)
      modifies this`pc
      ensures Ended(true, old(Now()), events, Semantics.ExecBranch(config, i, old(Now())))
    {
      var operand := RX(i.t, i.datasize);
      if operand[i.bitPos] == i.bitVal { BranchTo(Semantics.Plus(pc, i.offset)); }
    }

    /** A call leaves the address of the next instruction in the link register. */
    method Link(branchType: BranchType)
      modifies this`x
      ensures Now() == Semantics.Linked(old(Now()), branchType)
    {
      if branchType == Call { WX(30, Semantics.Plus(pc, ToBits(64, 4))); }
    }

    method BranchImmediate(i: BranchOp)
      requires i.BranchImmediate?
      modifies this`pc, this`x
      ensures Ended(true, old(Now()), events, Semantics.ExecBranch(config, i, old(Now())))
    {
      Link(i.branchType);
      BranchTo(Semantics.Plus(pc, i.offset));
    }

    method BranchRegister(i: BranchOp)
      requires i.BranchRegister?
      modifies this`pc, this`x
      ensures Ended(true, old(Now()), events, Semantics.ExecBranch(config, i, old(Now())))
    {
      var target := RX(i.n, 64);
      Link(i.branchType);
      BranchTo(target);
    }

    // ----- system -----

    method TMStart(t: RegIndex)
      modifies this`x, this`txNesting, this`events
      ensures Ended(true, old(Now()), old(events), Semantics.ExecTMStart(config, t, old(Now())))
      ensures Meanings.StartEffect(config, t, old(Now()), old(events), Now(), events)
    {
      Meanings.StartHolds(config, t, Now(), events);
      var nesting := txNesting;
      if UInt(nesting) < UInt(txDepth) {
        txNesting := ToBits(8, UInt(nesting) + 1);
        var status := Zeros(64);
        if UInt(nesting) == 0 { status := config.startEffect; }
        WX(t, status);
      } else {
        var status := Zeros(64);
        status := status[10 := true];
        assert status == Semantics.NEST_STATUS;
        events := events + [TxAborted(status)];
      }
    }

    method TMCommit() returns (ok: bool)
      modifies this`txNesting, this`events
      ensures Ended(ok, old(Now()), old(events), Semantics.ExecTMCommit(old(Now())))
    {
      var nesting := txNesting;
      if UInt(nesting) == 1 {
        events := events + [TxCommitted];
      } else if UInt(nesting) == 0 {
        return false;
      }
      txNesting := ToBits(8, UInt(nesting) - 1);
      ok := true;
    }

    method TMAbort(i: SystemOp)
      requires i.TMAbort? && WellFormedSystem(i)
      modifies this`events
      ensures Ended(true, old(Now()), old(events), Semantics.ExecSystem(config, i, old(Now())))
    {
      if UInt(txNesting) > 0 {
        var status := Zeros(64);
        status := i.reason + status[5..];
        status := status[8 := i.retry];
        status := status[9 := true];
        assert status == Semantics.AbortStatus(i.retry, i.reason);
        events := events + [TxAborted(status)];
      }
    }

    method TMTest()
      modifies this`flags
      ensures Ended(true, old(Now()), events, Semantics.ExecSystem(config, SystemOp.TMTest, old(Now())))
    {
      flags := if UInt(txNesting) > 0 then Flags(false, false, false, false) else Flags(false, true, false, false);
    }

    method SetMasks(operand: Bits)
      requires |operand| == 4
      modifies this`daif
      ensures Now() == Semantics.WriteDaif(old(Now()), FieldDaifSet, operand)
    {
      daif := daif.(d := daif.d || operand[3]);
      daif := daif.(a := daif.a || operand[2]);
      daif := daif.(i := daif.i || operand[1]);
      daif := daif.(f := daif.f || operand[0]);
    }

    method ClearMasks(operand: Bits)
      requires |operand| == 4
      modifies this`daif
      ensures Now() == Semantics.WriteDaif(old(Now()), FieldDaifClr, operand)
    {
      daif := daif.(d := daif.d && !operand[3]);
      daif := daif.(a := daif.a && !operand[2]);
      daif := daif.(i := daif.i && !operand[1]);
      daif := daif.(f := daif.f && !operand[0]);
    }

    method MoveSystemImmediate(i: SystemOp)
      requires i.MoveSystemImmediate? && WellFormedSystem(i)
      modifies this`spSel, this`daif
      ensures Ended(true, old(Now()), events, Semantics.ExecSystem(config, i, old(Now())))
    {
      match i.field {
        case FieldSp => spSel := i.operand[0];
        case FieldDaifSet => SetMasks(i.operand);
        case FieldDaifClr => ClearMasks(i.operand);
      }
    }

    method Barrier(i: SystemOp) returns (ok: bool)
      requires i.Barrier?
      modifies this`events
      ensures Ended(ok, old(Now()), old(events), Semantics.ExecBarrier(i.op, i.domain, i.types, old(Now())))
    {
      match i.op {
        case DSB =>
          if i.domain != FullSystem { return false; }
          events := events + [BarrierEvent(BarrierDsb(i.types))];
        case DMB =>
          if i.domain != FullSystem && i.domain != InnerShareable { return false; }
          events := events + [BarrierEvent(BarrierDmb(i.types))];
        case ISB =>
          events := events + [BarrierEvent(BarrierIsb)];
      }
      ok := true;
    }

    method SystemPut(r: Semantics.SysReg, v: Word)
      modifies this`flags, this`nzcvRest, this`daif, this`daifRest, this`tpidr
      ensures Now() == Semantics.SystemPut(old(Now()), r, v)
    {
      match r {
        case SysNzcv =>
          flags := Flags(v[31], v[30], v[29], v[28]);
          nzcvRest := v[..28];
        case SysDaif =>
          daif := Daif(v[9], v[8], v[7], v[6]);
          daifRest := v[..6] + v[10..32];
        case SysTpidr =>
          tpidr := v;
      }
    }

    function RegisterOf(i: SystemOp): Semantics.SysReg
      requires i.MoveSystemRegister? && Semantics.SystemRegister(i.op0, i.op1, i.crn, i.crm, i.op2).Some?
    {
      Semantics.SystemRegister(i.op0, i.op1, i.crn, i.crm, i.op2).value
    }

    /** The part of a value a system register keeps: 32 bits, or all of it for the thread register. */
    function SystemPart(r: Semantics.SysReg, v: Word): Word { if r.SysTpidr? then v else v[..32] + Zeros(32) }

    /** MRS: writing the value read back would change nothing. */
    method ReadSystem(r: Semantics.SysReg, t: RegIndex)
      modifies this`x
      ensures Now() == Instructions.WX(old(Now()), t, Semantics.SystemGet(old(Now()), r))
      ensures t != 31 ==> Semantics.SystemPut(Now(), r, x[t]) == Now()
    {
      Meanings.ReadBack(Now(), r, t);
      var nzcv := nzcvRest + [flags.v, flags.c, flags.z, flags.n] + Zeros(32);
      var masks := daifRest[..6] + [daif.f, daif.i, daif.a, daif.d] + daifRest[6..] + Zeros(32);
      WX(t, match r case SysNzcv => nzcv case SysDaif => masks case SysTpidr => tpidr);
    }

    method MoveSystemRegister(i: SystemOp) returns (ok: bool)
      requires i.MoveSystemRegister?
      modifies this`x, this`flags, this`nzcvRest, this`daif, this`daifRest, this`tpidr
      ensures Ended(ok, old(Now()), events, Semantics.ExecSystem(config, i, old(Now())))
      ensures ok && i.read && i.t != 31 ==>
                Semantics.SystemPut(Now(), RegisterOf(i), x[i.t]) == Now()
      ensures ok && !i.read ==>
                Semantics.SystemGet(Now(), RegisterOf(i)) == SystemPart(RegisterOf(i), RX(i.t, 64))
    {
      var r := Semantics.SystemRegister(i.op0, i.op1, i.crn, i.crm, i.op2);
      if r.None? { return false; }
      if i.read {
        ReadSystem(r.value, i.t);
      } else {
        Meanings.SystemPutGet(Now(), r.value, RX(i.t, 64));
        SystemPut(r.value, RX(i.t, 64));
      }
      ok := true;
    }

    // ----- memory: buffers and events -----

    /** The events of a read that may have failed. */
    function ReadEvents(r: Option<(ReadKind, Bits)>, address: Word, size: nat): seq<Event> {
      if r.Some? then [MemRead(r.value.0, address, size)] else []
    }

    method FlushReadBuffer(rb: ReadBuffer, address: Word, size: nat) returns (r: Option<(ReadKind, Bits)>)
      requires AccessSize(size) && rb.address == Semantics.AddressOf(address)
      modifies this`events
      ensures r == FlushRead(config.bigEndian, mem, rb, size)
      ensures events == old(events) + ReadEvents(r, address, size)
    {
      if rb.size != size { return None; }
      var kind := ReadKindOf(rb.acctype, rb.exclusive);
      if kind.None? { return None; }
      var value := ToBits(8 * size, Loaded(mem, rb.address, rb.size));
      if config.bigEndian { value := BigEndianReverse(value); }
      r := Some((kind.value, value));
      events := events + [MemRead(kind.value, address, size)];
    }

    /** `wMem_Addr`. */
    method AnnounceWrite(address: Word, size: nat, acctype: AccType, exclusive: bool) returns (ok: bool)
      modifies this`announced, this`events
      ensures ok == WriteKindOf(acctype, exclusive).Some?
      ensures ok ==> (announced == address
        && events == old(events) + [WriteAddress(WriteKindOf(acctype, exclusive).value, address, size)])
    {
      var kind := WriteKindOf(acctype, exclusive);
      if kind.None? { return false; }
      announced := address;
      events := events + [WriteAddress(kind.value, address, size)];
      ok := true;
    }

    /** The byte at a after a flush: that of the buffered value as far as a is above the announced address, or
        what was there. */
    function Flushed(wb: WriteBuffer, a: Rts.Address, before: Byte): Byte
      requires Fits(wb, 0)
      reads this`announced
    {
      var address := Semantics.AddressOf(announced);
      if InRange(a, address, wb.size) then ByteOf(UInt(wb.value[..8 * wb.size]), Wrap(a - address)) else before
    }

    lemma FlushedBytes(wb: WriteBuffer, m: Mem)
      requires Fits(wb, 0)
      ensures forall a: Rts.Address ::
        Stored(m, Semantics.AddressOf(announced), wb.size, UInt(wb.value[..8 * wb.size]))[a] == Flushed(wb, a, m[a])
    {
      forall a: Rts.Address
        ensures Stored(m, Semantics.AddressOf(announced), wb.size, UInt(wb.value[..8 * wb.size]))[a]
            == Flushed(wb, a, m[a])
      {
        StoredAt(m, Semantics.AddressOf(announced), wb.size, UInt(wb.value[..8 * wb.size]), a);
      }
    }

    method FlushWriteBuffer(wb: WriteBuffer, exclusive: bool) returns (ok: bool)
      requires Fits(wb, 0)
      modifies this`mem, this`events
      ensures match FlushWrite(old(mem), Semantics.AddressOf(announced), wb, exclusive)
              case None => !ok
              case Some(m) => ok && mem == m && events == old(events) + [WriteValue(exclusive, wb.size)]
      ensures ok ==> forall a: Rts.Address :: a in mem && mem[a] == Flushed(wb, a, old(mem)[a])
    {
      FlushedBytes(wb, mem);
      if wb.exclusive != exclusive { return false; }
      if WriteKindOf(wb.acctype, exclusive).None? { return false; }
      mem := Stored(mem, Semantics.AddressOf(announced), wb.size, UInt(wb.value[..8 * wb.size]));
      events := events + [WriteValue(exclusive, wb.size)];
      ok := true;
    }

    method LoadRegisterBits(address: Word, datasize: nat, acctype: AccType, exclusive: bool)
        returns (r: Option<(ReadKind, Bits)>)
      requires DataWidth(datasize)
      modifies this`events
      ensures r == Semantics.LoadBits(config, old(Now()), address, datasize, acctype, exclusive)
      ensures events == old(events) + ReadEvents(r, address, datasize / 8)
    {
      Semantics.WholeBytes(datasize);
      var size := datasize / 8;
      var rb := FillOne(config.checkAlignment, Semantics.AddressOf(address), size, acctype, exclusive);
      Semantics.LoadBitsAre(config, Now(), address, datasize, acctype, exclusive, rb);
      r := None;
      if rb.Some? { r := FlushReadBuffer(rb.value, address, size); }
    }

    method LoadPairBits(address: Word, datasize: nat, acctype: AccType, exclusive: bool)
        returns (r: Option<(ReadKind, Bits)>)
      requires Width(datasize)
      modifies this`events
      ensures r == Semantics.LoadPairBits(config, old(Now()), address, datasize, acctype, exclusive)
      ensures events == old(events) + ReadEvents(r, address, 2 * (datasize / 8))
    {
      Semantics.WholeBytes(datasize);
      var size := datasize / 8;
      var rb := FillTwo(config.checkAlignment, Semantics.AddressOf(address), size, acctype, exclusive);
      Semantics.LoadPairBitsAre(config, Now(), address, datasize, acctype, exclusive, rb);
      r := None;
      if rb.Some? { r := FlushReadBuffer(rb.value, address, 2 * size); }
    }

    /** A store whose address is the last event announced since `before`; any other access has none. */
    ghost predicate AddressAnnounced(memop: MemOp, acctype: AccType, address: Word, size: nat, before: seq<Event>)
      reads this
    {
      if memop == Store then
        && WriteKindOf(acctype, false).Some? && announced == address
        && events == before + [WriteAddress(WriteKindOf(acctype, false).value, address, size)]
      else events == before
    }

    /** Stores announce their address before anything else happens. */
    method AnnounceStore(memop: MemOp, acctype: AccType, address: Word, size: nat) returns (ok: bool)
      modifies this`announced, this`events
      ensures ok == (memop == Store ==> WriteKindOf(acctype, false).Some?)
      ensures ok ==> AddressAnnounced(memop, acctype, address, size, old(events))
    {
      ok := true;
      if memop == Store { ok := AnnounceWrite(address, size, acctype, false); }
    }

    /** The value part of a store whose address has been announced. */
    method StoreAnnounced(acctype: AccType, value: Bits, exclusive: bool) returns (ok: bool)
      requires DataWidth(|value|) || |value| == 128
      modifies this`mem, this`events
      ensures match StoreOne(config.checkAlignment, config.bigEndian, old(mem), Semantics.AddressOf(announced),
                             |value| / 8, acctype, value, exclusive)
              case None => !ok
              case Some(m) => ok && mem == m && events == old(events) + [WriteValue(exclusive, |value| / 8)]
    {
      var a, size := Semantics.AddressOf(announced), |value| / 8;
      var wb := WMem(config.checkAlignment, config.bigEndian, EMPTY_WRITE, a, size, acctype, value, exclusive);
      if wb.None? { return false; }
      ok := FlushWriteBuffer(wb.value, exclusive);
    }

    /** A store of known kind whose address is the last event announced since `before`. */
    method StoreValue(address: Word, acctype: AccType, value: Bits, exclusive: bool, ghost before: seq<Event>)
        returns (ok: bool)
      requires DataWidth(|value|) || |value| == 128
      requires WriteKindOf(acctype, exclusive).Some? && announced == address
      requires events == before + [WriteAddress(WriteKindOf(acctype, exclusive).value, address, |value| / 8)]
      modifies this`mem, this`events
      ensures Ended(ok, old(Now()), before, Semantics.ExecStore(config, old(Now()), address, acctype, value, exclusive))
    {
      ok := StoreAnnounced(acctype, value, exclusive);
    }

    method StorePairValue(acctype: AccType, data1: Bits, data2: Bits) returns (ok: bool)
      requires Width(|data1|) && |data1| == |data2|
      modifies this`mem, this`events
      ensures match StoreTwo(config.checkAlignment, config.bigEndian, old(mem), Semantics.AddressOf(announced),
                             |data1| / 8, acctype, data1, data2)
              case None => !ok
              case Some(m) => ok && mem == m && events == old(events) + [WriteValue(false, 2 * (|data1| / 8))]
    {
      var size := |data1| / 8;
      assert AccessSize(size);
      var wb := WriteTwo(config.checkAlignment, config.bigEndian, Semantics.AddressOf(announced), size, acctype,
                         data1, data2);
      if wb.None? { return false; }
      ok := FlushWriteBuffer(wb.value, false);
    }

    method StorePairAnnounced(acctype: AccType, data1: Bits, data2: Bits, ghost before: seq<Event>) returns (ok: bool)
      requires Width(|data1|) && |data1| == |data2|
      requires AddressAnnounced(Store, acctype, announced, 2 * (|data1| / 8), before)
      modifies this`mem, this`events
      ensures Ended(ok, old(Now()), before,
                    Semantics.ExecStorePair(config, old(Now()), announced, acctype, data1, data2))
    {
      ok := StorePairValue(acctype, data1, data2);
    }

    // ----- memory: addresses -----

    /** The base register, with `CheckSPAlignment` for the stack pointer. */
    method BaseAddress(n: RegIndex, checkSp: bool) returns (r: Option<Word>)
      ensures r == Semantics.BaseAddress(config, Now(), n, checkSp)
    {
      if n == 31 {
        if checkSp && config.checkStack && UInt(sp) % 16 != 0 { return None; }
        r := Some(sp);
      } else {
        r := Some(RX(n, 64));
      }
    }

    method WriteBack(wback: bool, n: RegIndex, address: Word)
      modifies this`x, this`sp
      ensures Now() == Semantics.WriteBack(old(Now()), wback, n, address)
    {
      if wback { if n == 31 { WSP(address); } else { WX(n, address); } }
    }

    // ----- memory: clauses -----

    method LoadInto(address: Word, datasize: nat, acctype: AccType, exclusive: bool, t: RegIndex, signed: bool,
                    regsize: nat) returns (ok: bool)
      requires DataWidth(datasize) && Width(regsize) && datasize <= regsize
      modifies this`x, this`events
      ensures Ended(ok, old(Now()), old(events),
                    Semantics.ExecLoad(config, old(Now()), address, datasize, acctype, exclusive, t, signed, regsize))
    {
      var data := LoadRegisterBits(address, datasize, acctype, exclusive);
      if data.None? { return false; }
      WX(t, Semantics.ExtendTo(data.value.1, regsize, signed));
      ok := true;
    }

    method LoadPairInto(address: Word, datasize: nat, acctype: AccType, exclusive: bool, t: RegIndex, t2: RegIndex,
                        regsize: nat, signed: bool) returns (ok: bool)
      requires Width(datasize) && datasize <= regsize <= 64
      modifies this`x, this`events
      ensures Ended(ok, old(Now()), old(events),
                    Semantics.ExecLoadPair(config, old(Now()), address, datasize, acctype, exclusive, t, t2,
                                           regsize, signed))
    {
      var data := LoadPairBits(address, datasize, acctype, exclusive);
      if data.None? { return false; }
      var data1, data2 := data.value.1[..datasize], data.value.1[datasize..];
      WX(t, Semantics.ExtendTo(data1, regsize, signed));
      WX(t2, Semantics.ExtendTo(data2, regsize, signed));
      ok := true;
    }

    method LoadLiteral(i: MemoryOp) returns (ok: bool)
      requires i.LoadLiteral? && WellFormedMemory(i)
      modifies this`x, this`events
      ensures Ended(ok, old(Now()), old(events), Semantics.ExecLiteral(config, old(Now()), i))
    {
      var address := Semantics.Plus(pc, i.offset);
      match i.memop {
        case Load =>
          ok := LoadInto(address, i.datasize, Normal, false, i.t, i.signed, if i.signed then 64 else i.datasize);
        case Prefetch => ok := true;
        case Store => ok := false;
      }
    }

    method AccessSingle(t: RegIndex, acctype: AccType, memop: MemOp, signed: bool, address: Word, regsize: nat,
                        datasize: nat, ghost before: seq<Event>) returns (ok: bool)
      requires Width(regsize) && DataWidth(datasize) && datasize <= regsize
      requires AddressAnnounced(memop, acctype, address, datasize / 8, before)
      modifies this`x, this`mem, this`events
      ensures Ended(ok, old(Now()), before, Semantics.AccessSingle(config, old(Now()), t, acctype, memop, signed,
                                                                   address, regsize, datasize))
    {
      match memop {
        case Store => ok := StoreValue(address, acctype, RX(t, datasize), false, before);
        case Load => ok := LoadInto(address, datasize, acctype, false, t, signed, regsize);
        case Prefetch => ok := true;
      }
    }

    /** Writeback to the register that is transferred is undefined. */
    static method WritebackUndefined(memop: MemOp, wback: bool, n: RegIndex, t: RegIndex) returns (undefined: bool)
      ensures undefined == (memop != Prefetch && wback && n == t && n != 31)
    {
      undefined := false;
      if memop == Load && wback && n == t && n != 31 { undefined := true; }
      if memop == Store && wback && n == t && n != 31 { undefined := true; }
    }

    method Single(n: RegIndex, t: RegIndex, acctype: AccType, memop: MemOp, signed: bool, wback: bool,
                  postindex: bool, offset: Word, regsize: nat, datasize: nat) returns (ok: bool)
      requires Width(regsize) && DataWidth(datasize) && datasize <= regsize
      modifies this`x, this`sp, this`mem, this`events, this`announced
      ensures Ended(ok, old(Now()), old(events), Semantics.ExecSingle(config, old(Now()), n, t, acctype, memop, signed,
                                                                      wback, postindex, offset, regsize, datasize))
    {
      var undefined := WritebackUndefined(memop, wback, n, t);
      if undefined { return false; }
      var base := BaseAddress(n, memop != Prefetch);
      if base.None? { return false; }
      ok := SingleAt(base.value, n, t, acctype, memop, signed, wback, postindex, offset, regsize, datasize);
    }

    method SingleAt(base: Word, n: RegIndex, t: RegIndex, acctype: AccType, memop: MemOp, signed: bool, wback: bool,
                    postindex: bool, offset: Word, regsize: nat, datasize: nat) returns (ok: bool)
      requires Width(regsize) && DataWidth(datasize) && datasize <= regsize
      modifies this`x, this`sp, this`mem, this`events, this`announced
      ensures Ended(ok, old(Now()), old(events), Semantics.SingleAt(config, old(Now()), base, n, t, acctype, memop,
                                                                    signed, wback, postindex, offset, regsize,
                                                                    datasize))
    {
      var address := Semantics.Offset(base, offset, !postindex);
      ok := AnnounceStore(memop, acctype, address, datasize / 8);
      if ok {
        WriteBack(wback, n, Semantics.Offset(address, offset, postindex));
        Semantics.SingleEnds(config, old(Now()), Now(), base, n, t, acctype, memop, signed, wback, postindex, offset,
                             address, regsize, datasize);
        ok := AccessSingle(t, acctype, memop, signed, address, regsize, datasize, old(events));
      }
    }

    method LoadImmediate(i: MemoryOp) returns (ok: bool)
      requires i.LoadImmediate? && WellFormedMemory(i)
      modifies this`x, this`sp, this`mem, this`events, this`announced
      ensures Ended(ok, old(Now()), old(events), Semantics.ExecMemory(config, i, old(Now())))
    {
      ok := Single(i.n, i.t, i.acctype, i.memop, i.signed, i.wback, i.postindex, i.offset, i.regsize, i.datasize);
    }

    method LoadRegister(i: MemoryOp) returns (ok: bool)
      requires i.LoadRegister? && WellFormedMemory(i)
      modifies this`x, this`sp, this`mem, this`events, this`announced
      ensures Ended(ok, old(Now()), old(events), Semantics.ExecMemory(config, i, old(Now())))
    {
      var offset := ExtendReg(RX(i.m, 64), i.extendType, i.shift);
      ok := Single(i.n, i.t, i.acctype, i.memop, i.signed, i.wback, i.postindex, offset, i.regsize, i.datasize);
    }

    method AccessPair(t: RegIndex, t2: RegIndex, acctype: AccType, memop: MemOp, signed: bool, address: Word,
                      datasize: nat, ghost before: seq<Event>) returns (ok: bool)
      requires Width(datasize) && AddressAnnounced(memop, acctype, address, 2 * (datasize / 8), before)
      modifies this`x, this`mem, this`events
      ensures Ended(ok, old(Now()), before,
                    Semantics.AccessPair(config, old(Now()), t, t2, acctype, memop, signed, address, datasize))
    {
      match memop {
        case Store => ok := StorePairAnnounced(acctype, RX(t, datasize), RX(t2, datasize), before);
        case Load => ok := LoadPairInto(address, datasize, acctype, false, t, t2, if signed then 64 else datasize,
                                        signed);
        case Prefetch => ok := false;
      }
    }

    method Pair(undefined: bool, wback: bool, postindex: bool, n: RegIndex, t: RegIndex, t2: RegIndex,
                acctype: AccType, memop: MemOp, signed: bool, datasize: nat, offset: Word) returns (ok: bool)
      requires Width(datasize)
      modifies this`x, this`sp, this`mem, this`events, this`announced
      ensures Ended(ok, old(Now()), old(events), Semantics.ExecPair(config, old(Now()), undefined, wback, postindex,
                                                                    n, t, t2, acctype, memop, signed, datasize,
                                                                    offset))
    {
      if undefined { return false; }
      var base := BaseAddress(n, true);
      if base.None? { return false; }
      ok := PairAt(base.value, wback, postindex, n, t, t2, acctype, memop, signed, datasize, offset);
    }

    method PairAt(base: Word, wback: bool, postindex: bool, n: RegIndex, t: RegIndex, t2: RegIndex, acctype: AccType,
                  memop: MemOp, signed: bool, datasize: nat, offset: Word) returns (ok: bool)
      requires Width(datasize)
      modifies this`x, this`sp, this`mem, this`events, this`announced
      ensures Ended(ok, old(Now()), old(events), Semantics.PairAt(config, old(Now()), base, wback, postindex, n, t, t2,
                                                                  acctype, memop, signed, datasize, offset))
    {
      var address := Semantics.Offset(base, offset, !postindex);
      ok := AnnounceStore(memop, acctype, address, 2 * (datasize / 8));
      if !ok { return; }
      WriteBack(wback, n, Semantics.Offset(address, offset, postindex));
      Semantics.PairEnds(config, old(Now()), Now(), base, wback, postindex, n, t, t2, acctype, memop, signed, datasize,
                         offset, address);
      ok := AccessPair(t, t2, acctype, memop, signed, address, datasize, old(events));
    }

    method LoadStorePairNonTemp(i: MemoryOp) returns (ok: bool)
      requires i.LoadStorePairNonTemp? && WellFormedMemory(i)
      modifies this`x, this`sp, this`mem, this`events, this`announced
      ensures Ended(ok, old(Now()), old(events), Semantics.ExecMemory(config, i, old(Now())))
    {
      ok := Pair(i.memop == Load && i.t == i.t2, i.wback, i.postindex, i.n, i.t, i.t2, i.acctype, i.memop, false,
                 i.datasize, i.offset);
    }

    method LoadStorePair(i: MemoryOp) returns (ok: bool)
      requires i.LoadStorePair? && WellFormedMemory(i)
      modifies this`x, this`sp, this`mem, this`events, this`announced
      ensures Ended(ok, old(Now()), old(events), Semantics.ExecMemory(config, i, old(Now())))
    {
      var undefined := false;
      if i.memop == Load && i.wback && (i.t == i.n || i.t2 == i.n) && i.n != 31 { undefined := true; }
      if i.memop == Store && i.wback && (i.t == i.n || i.t2 == i.n) && i.n != 31 { undefined := true; }
      if i.memop == Load && i.t == i.t2 { undefined := true; }
      ok := Pair(undefined, i.wback, i.postindex, i.n, i.t, i.t2, i.acctype, i.memop, i.signed, i.datasize, i.offset);
    }

    method LoadWords(acctype: AccType, address: Word, t: RegIndex, t2: RegIndex) returns (ok: bool)
      modifies this`x, this`events
      ensures Ended(ok, old(Now()), old(events), Semantics.ExecLoadWords(config, old(Now()), acctype, address, t, t2))
    {
      var data := LoadRegisterBits(address, 64, acctype, true);
      if data.None? { return false; }
      WX(t, if config.bigEndian then data.value.1[32..] else data.value.1[..32]);
      WX(t2, if config.bigEndian then data.value.1[..32] else data.value.1[32..]);
      ok := true;
    }

    method ExclusiveLoad(i: MemoryOp, address: Word) returns (ok: bool)
      requires i.LoadStoreAcqExc? && WellFormedMemory(i)
      modifies this`x, this`events
      ensures Ended(ok, old(Now()), old(events), Semantics.ExecExclusiveLoad(config, old(Now()), i, address))
    {
      if i.pair {
        if !i.excl { return false; }
        if i.elsize == 32 {
          ok := LoadWords(i.acctype, address, i.t, i.t2);
        } else {
          if !Aligned(Semantics.AddressOf(address), 16) { return false; }
          ok := LoadPairInto(address, 64, i.acctype, true, i.t, i.t2, 64, false);
        }
      } else {
        ok := LoadInto(address, i.datasize, i.acctype, i.excl, i.t, false, i.regsize);
      }
    }

    /** What a store-exclusive or store-release writes: one register, or two in the order of the endianness. */
    method StoreData(i: MemoryOp) returns (data: Bits)
      requires i.LoadStoreAcqExc? && WellFormedMemory(i)
      ensures data == Semantics.StoreValue(config, Now(), i)
    {
      if i.pair {
        var el1, el2 := RX(i.t, i.regsize), RX(i.t2, i.regsize);
        data := if config.bigEndian then Concat(el1, el2) else Concat(el2, el1);
      } else {
        data := RX(i.t, i.datasize);
      }
    }

    method ExclusiveStore(i: MemoryOp, address: Word) returns (ok: bool)
      requires i.LoadStoreAcqExc? && WellFormedMemory(i)
      modifies this`mem, this`events, this`announced
      ensures Ended(ok, old(Now()), old(events), Semantics.ExecExclusiveStore(config, old(Now()), i, address))
    {
      ok := AnnounceWrite(address, i.datasize / 8, i.acctype, i.excl);
      if !ok { return false; }
      if i.pair && !i.excl { return false; }
      var data := StoreData(i);
      // The exclusive monitors abort on an unaligned address and otherwise pass.
      if i.excl && !Aligned(Semantics.AddressOf(address), i.datasize / 8) { return false; }
      Semantics.ExclusiveStoreEnds(config, Now(), i, address, data);
      ok := StoreValue(address, i.acctype, data, i.excl, old(events));
    }

    method LoadStoreAcqExc(i: MemoryOp) returns (ok: bool)
      requires i.LoadStoreAcqExc? && WellFormedMemory(i)
      modifies this`x, this`mem, this`events, this`announced
      ensures Ended(ok, old(Now()), old(events), Semantics.ExecAcqExc(config, old(Now()), i))
    {
      if i.memop == Load && i.pair && i.t == i.t2 { return false; }
      if i.memop == Store && i.excl {
        if i.s == i.t || (i.pair && i.s == i.t2) { return false; }
        if i.s == i.n && i.n != 31 { return false; }
      }
      var status := false;
      if i.memop == Store && i.excl {
        status := !config.exclusiveSucceeds;
        WX(i.s, ZeroExtend([status], 32));
      }
      if status { return true; }
      var base := BaseAddress(i.n, true);
      if base.None? { return false; }
      match i.memop {
        case Store => ok := ExclusiveStore(i, base.value);
        case Load => ok := ExclusiveLoad(i, base.value);
        case Prefetch => ok := false;
      }
    }

    // ----- dispatch -----

    method ExecuteSum(i: DataOp)
      requires WellFormedData(i)
      requires i.AddSubImmediate? || i.AddSubExtendRegister? || i.AddSubShiftedRegister? || i.AddSubCarry?
            || i.ConditionalCompareImmediate? || i.ConditionalCompareRegister? || i.ConditionalSelect?
            || i.LogicalImmediate? || i.LogicalShiftedRegister?
      modifies this`x, this`sp, this`flags
      ensures Now() == Semantics.After(i, old(Now())) && Effect(i, old(Now()), Now())
    {
      if i.AddSubImmediate? { AddSubImmediate(i); }
      else if i.AddSubExtendRegister? { AddSubExtendRegister(i); }
      else if i.AddSubShiftedRegister? { AddSubShiftedRegister(i); }
      else if i.AddSubCarry? { AddSubCarry(i); }
      else if i.ConditionalCompareImmediate? { ConditionalCompareImmediate(i); }
      else if i.ConditionalCompareRegister? { ConditionalCompareRegister(i); }
      else if i.ConditionalSelect? { ConditionalSelect(i); }
      else if i.LogicalImmediate? { LogicalImmediate(i); }
      else { LogicalShiftedRegister(i); }
    }

    method ExecuteValue(i: DataOp)
      requires WellFormedData(i)
      requires !(i.AddSubImmediate? || i.AddSubExtendRegister? || i.AddSubShiftedRegister? || i.AddSubCarry?
              || i.ConditionalCompareImmediate? || i.ConditionalCompareRegister? || i.ConditionalSelect?
              || i.LogicalImmediate? || i.LogicalShiftedRegister?)
      modifies this`x
      ensures Now() == Semantics.After(i, old(Now())) && Effect(i, old(Now()), Now())
    {
      if i.BitfieldMove? { BitfieldMove(i); }
      else if i.ExtractRegister? { ExtractRegister(i); }
      else if i.MoveWide? { MoveWide(i); }
      else if i.Address? { Address(i); }
      else if i.Reverse? { Reverse(i); }
      else if i.CountLeading? { CountLeading(i); }
      else if i.Division? { Division(i); }
      else if i.Shift? { Shift(i); }
      else if i.CRC? { Crc(i); }
      else if i.MultiplyAddSub? { MultiplyAddSub(i); }
      else if i.MultiplyAddSubLong? { MultiplyAddSubLong(i); }
      else { MultiplyHigh(i); }
    }

    method ExecuteData(i: DataOp)
      requires WellFormedData(i)
      modifies this`x, this`sp, this`flags
      ensures Now() == Semantics.After(i, old(Now())) && Effect(i, old(Now()), Now())
    {
      if i.AddSubImmediate? || i.AddSubExtendRegister? || i.AddSubShiftedRegister? || i.AddSubCarry?
        || i.ConditionalCompareImmediate? || i.ConditionalCompareRegister? || i.ConditionalSelect?
        || i.LogicalImmediate? || i.LogicalShiftedRegister? {
        ExecuteSum(i);
      } else {
        ExecuteValue(i);
      }
    }

    method ExecuteBranch(i: BranchOp)
      requires WellFormedBranch(i)
      modifies this`pc, this`x
      ensures Ended(true, old(Now()), events, Semantics.ExecBranch(config, i, old(Now())))
    {
      if i.CompareAndBranch? { CompareAndBranch(i); }
      else if i.BranchConditional? { BranchConditional(i); }
      else if i.TestBitAndBranch? { TestBitAndBranch(i); }
      else if i.BranchImmediate? { BranchImmediate(i); }
      else { BranchRegister(i); }
    }

    method ExecuteSystem(i: SystemOp) returns (ok: bool)
      requires WellFormedSystem(i)
      modifies this`x, this`flags, this`nzcvRest, this`daif, this`daifRest, this`spSel, this`tpidr, this`txNesting,
               this`events
      ensures Ended(ok, old(Now()), old(events), Semantics.ExecSystem(config, i, old(Now())))
    {
      ok := true;
      match i {
        case TMStart(t) => TMStart(t);
        case TMCommit => ok := TMCommit();
        case TMAbort(_, _) => TMAbort(i);
        case TMTest => TMTest();
        case MoveSystemImmediate(_, _) => MoveSystemImmediate(i);
        case Hint(hint) => ok := hint !in {HintWfe, HintWfi, HintSevl};
        case ClearExclusiveMonitor(_) =>
        case Barrier(_, _, _) => ok := Barrier(i);
        case MoveSystemRegister(_, _, _, _, _, _, _) => ok := MoveSystemRegister(i);
      }
    }

    method ExecuteMemory(i: MemoryOp) returns (ok: bool)
      requires WellFormedMemory(i)
      modifies this`x, this`sp, this`mem, this`events, this`announced
      ensures Ended(ok, old(Now()), old(events), Semantics.ExecMemory(config, i, old(Now())))
    {
      if i.LoadLiteral? { ok := LoadLiteral(i); }
      else if i.LoadStoreAcqExc? { ok := LoadStoreAcqExc(i); }
      else if i.LoadStorePairNonTemp? { ok := LoadStorePairNonTemp(i); }
      else if i.LoadImmediate? { ok := LoadImmediate(i); }
      else if i.LoadRegister? { ok := LoadRegister(i); }
      else { ok := LoadStorePair(i); }
    }

    /** One instruction; false when the source leaves the model. */
    method Execute(i: Instr) returns (ok: bool)
      requires WellFormed(i)
      modifies this
      ensures Ended(ok, old(Now()), old(events), Semantics.Exec(config, i, old(Now())))
    {
      ok := true;
      match i {
        case Data(data) => ExecuteData(data);
        case Memory(memory) => ok := ExecuteMemory(memory);
        case Branch(branch) => ExecuteBranch(branch);
        case System(system) => ok := ExecuteSystem(system);
      }
    }
  }
}
