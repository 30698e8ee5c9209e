/** The bitfield instructions from encoding to effect (aarch64_small/armV8.sail, decodeBitfield and
    BitfieldMove). */
module Bitfields {
  import opened Wrappers
  import opened Ints
  import opened BitVectors
  import opened Shifts
  import opened A64Lib
  import opened Instructions
  import opened Semantics

  /** The reserved encodings of SBFM, BFM and UBFM: opc 3, N different from sf, and in the 32-bit form a
      position above 31. */
  predicate ReservedBitfield(sf: bool, opc: nat, immN: bool, immr: Bits, imms: Bits)
    requires |immr| == 6 && |imms| == 6
  {
    opc == 3 || immN != sf || (!sf && (immr[5] || imms[5]))
  }

  function RegisterWidth(sf: bool): (n: nat) ensures Width(n) { if sf then 64 else 32 }

  /** What an encoding means. */
  function Decoded(sf: bool, opc: nat, immN: bool, immr: Bits, imms: Bits, n: RegIndex, d: RegIndex): Option<DataOp>
    requires |immr| == 6 && |imms| == 6 && opc < 4
  {
    var R, S, N := UInt(immr), UInt(imms), RegisterWidth(sf);
    if ReservedBitfield(sf, opc, immN, immr, imms) then None
    else Some(BitfieldMove(d, n, N, opc != 1, opc == 0, R, S, FieldMasks(N, R, S)))
  }

  /** `decodeBitfield`; None for reserved and unallocated encodings. */
  method DecodeBitfield(sf: bool, opc: nat, immN: bool, immr: Bits, imms: Bits, n: RegIndex, d: RegIndex)
      returns (r: Option<DataOp>)
    requires |immr| == 6 && |imms| == 6 && opc < 4
    ensures r == Decoded(sf, opc, immN, immr, imms, n, d)
  {
    var datasize := if sf then 64 else 32;
    var inzero, extend := false, false;
    match opc {
      case 0 => inzero, extend := true, true;
      case 1 => inzero, extend := false, false;
      case 2 => inzero, extend := true, false;
      case _ => return None;
    }
    if sf && !immN { return None; }
    if !sf && (immN || immr[5] || imms[5]) { return None; }
    WholeElement(sf, immr, imms);
    var masks := DecodeBitMasks(datasize, immN, imms, immr, false);
    r := Some(BitfieldMove(d, n, datasize, inzero, extend, UInt(immr), UInt(imms), masks.value));
  }

  /** Outside the reserved encodings the mask element is the whole register. */
  lemma WholeElement(sf: bool, immr: Bits, imms: Bits)
    requires |immr| == 6 && |imms| == 6 && (!sf ==> !immr[5] && !imms[5])
    ensures UInt(immr) < RegisterWidth(sf) && UInt(imms) < RegisterWidth(sf)
    ensures BitMasks(RegisterWidth(sf), sf, imms, immr, false)
         == Some(FieldMasks(RegisterWidth(sf), UInt(immr), UInt(imms)))
  {
    var N := RegisterWidth(sf);
    ElementIsRegister(sf, imms);
    PositionFits(sf, immr);
    PositionFits(sf, imms);
    SmallMod(UInt(immr), N);
    SmallMod(UInt(imms), N);
    OneElement(N);
  }

  lemma ElementIsRegister(sf: bool, imms: Bits)
    requires |imms| == 6 && (!sf ==> !imms[5])
    ensures ElementLog(sf, imms) == (if sf then 6 else 5) && Pow2(ElementLog(sf, imms)) == RegisterWidth(sf)
  {
    assert Pow2(5) == 32 && Pow2(6) == 64;
  }

  lemma PositionFits(sf: bool, imm: Bits)
    requires |imm| == 6 && (!sf ==> !imm[5])
    ensures UInt(imm) < RegisterWidth(sf)
  {
    assert Pow2(5) == 32 && Pow2(6) == 64;
    UIntRange(imm);
    if !sf {
      assert imm == ZeroExtend(imm[..5], 6);
      UIntZeroExtend(imm[..5], 6);
      UIntRange(imm[..5]);
    }
  }

  lemma OneElement(N: nat)
    requires N > 0
    ensures Residue(N, N) == 0
  {
    ModLess(N, N);
  }

  /** From encoding to effect: a decoded bitfield instruction writes, bit by bit, the moved field, with zeros
      (UBFM), sign copies (SBFM, above) or the old destination (BFM) around it, for all register values. */
  lemma DecodedMovesField(sf: bool, opc: nat, immN: bool, immr: Bits, imms: Bits, n: RegIndex, d: RegIndex, s: State,
                          k: nat)
    requires |immr| == 6 && |imms| == 6 && opc < 4 && Decoded(sf, opc, immN, immr, imms, n, d).Some?
    requires k < RegisterWidth(sf)
    ensures var i := Decoded(sf, opc, immN, immr, imms, n, d).value;
            var N := RegisterWidth(sf);
            var dst := if opc == 1 then RX(s, d, N) else Zeros(N);
            WellFormedData(i)
            && DataWrite(i, s).value[k] == MovedBit(dst, RX(s, n, N), opc == 0, UInt(immr), UInt(imms), k)
  {
    var N := RegisterWidth(sf);
    PositionFits(sf, immr);
    PositionFits(sf, imms);
    MovedAt(if opc == 1 then RX(s, d, N) else Zeros(N), RX(s, n, N), opc == 0, UInt(immr), UInt(imms), k);
  }
}
