/** Memory accesses of the ARMv8 model: alignment, read and write buffers, the splitting of unaligned
    accesses, and what reaches memory (aarch64_small/armV8_common_lib.sail, armV8_A64_lib.sail). */
module MemAccess {
  import opened Wrappers
  import opened Ints
  import opened BitVectors
  import opened SwapNetwork
  import opened Rts
  import opened Ram

  datatype AccType =
    | Normal | Vec | Stream | VecStream | Atomic | Ordered | Unpriv | IFetch | Ptw | Dc | Ic | At

  datatype ReadKind = ReadPlain | ReadStream | ReadAcquire | ReadExclusive | ReadExclusiveAcquire
  datatype WriteKind = WritePlain | WriteRelease | WriteExclusive | WriteExclusiveRelease

  type Mem = m: map<int, Byte> | Total(m) ghost witness map a: int | 0 <= a < WORD :: 0

  datatype ReadBuffer = ReadBuffer(acctype: AccType, exclusive: bool, address: Address, size: nat)
  datatype WriteBuffer = WriteBuffer(acctype: AccType, exclusive: bool, address: Address, value: Bits, size: nat)

  const EMPTY_READ := ReadBuffer(Normal, false, 0, 0)
  const EMPTY_WRITE := WriteBuffer(Normal, false, 0, Zeros(128), 0)

  predicate AccessSize(n: nat) { n == 1 || n == 2 || n == 4 || n == 8 || n == 16 }

  /** The size of a buffer: one access or a pair of accesses. */
  predicate Fits(wb: WriteBuffer, n: nat) { |wb.value| == 128 && wb.size + n <= 16 }

  // ----- alignment -----

  function Align(x: Address, y: nat): int
    requires y > 0
  {
    y * (x / y)
  }

  predicate Aligned(address: Address, size: nat)
    requires size > 0
  {
    address == Align(address, size)
  }

  predicate AlignmentFaults(checked: bool, address: Address, size: nat, acctype: AccType)
    requires size > 0
  {
    !Aligned(address, size) && (acctype == Atomic || acctype == Ordered || checked)
  }

  /** `AArch64_CheckAlignment`: whether the address is aligned, or None when the access aborts. */
  function CheckAlignment(checked: bool, address: Address, size: nat, acctype: AccType): Option<bool>
    requires size > 0
  {
    if AlignmentFaults(checked, address, size, acctype) then None else Some(Aligned(address, size))
  }

  predicate Whole(aligned: bool, size: nat, acctype: AccType) {
    (aligned && !(acctype == Vec || acctype == VecStream)) || size == 1
  }

  /** An access gets past the checks: it does not fault, and it is whole if it is exclusive. */
  predicate Passes(checked: bool, address: Address, size: nat, acctype: AccType, exclusive: bool)
    requires size > 0
  {
    !AlignmentFaults(checked, address, size, acctype) && (exclusive ==> Whole(Aligned(address, size), size, acctype))
  }

  lemma BytesAligned(a: Address)
    ensures Aligned(a, 1)
  {
  }

  // ----- buffers -----

  /** `_rMem`: extend the buffer; None when one of its asserts fails. */
  function AppendRead(rb: ReadBuffer, address: Address, size: nat, acctype: AccType, exclusive: bool)
      : (r: Option<ReadBuffer>)
    ensures r.Some? ==> r.value.size == rb.size + size
  {
    if rb.size == 0 then Some(ReadBuffer(acctype, exclusive, address, size))
    else if rb.acctype != acctype || rb.exclusive != exclusive || Wrap(rb.address + rb.size) != address then None
    else Some(rb.(size := rb.size + size))
  }

  /** `_wMem`. */
  function AppendWrite(wb: WriteBuffer, address: Address, size: nat, acctype: AccType, exclusive: bool, value: Bits)
      : (r: Option<WriteBuffer>)
    requires Fits(wb, size) && |value| == 8 * size
    ensures r.Some? ==> |r.value.value| == 128 && r.value.size == wb.size + size
  {
    if wb.size == 0 then Some(WriteBuffer(acctype, exclusive, address, ZeroExtend(value, 128), size))
    else if wb.acctype != acctype || wb.exclusive != exclusive || Wrap(wb.address + wb.size) != address then None
    else Some(wb.(value := ZeroExtend(Concat(value, wb.value[..8 * wb.size]), 128), size := wb.size + size))
  }

  lemma NextAddress(base: int, done: nat, address: Address, k: nat)
    requires Wrap(base + done) == address
    ensures Wrap(base + (done + k)) == Wrap(address + k)
  {
    DivModForm(base + done, WORD);
    ModShift(address + k, (base + done) / WORD, WORD);
  }

  lemma AppendReadByte(rb: ReadBuffer, address: Address, k: nat, acctype: AccType)
    requires k > 0
    ensures match AppendRead(rb, address, k, acctype, false)
            case None => AppendRead(rb, address, k + 1, acctype, false).None?
            case Some(b) =>
              AppendRead(b, Wrap(address + k), 1, acctype, false) == AppendRead(rb, address, k + 1, acctype, false)
  {
    if rb.size != 0 && Wrap(rb.address + rb.size) == address { NextAddress(rb.address, rb.size, address, k); }
  }

  lemma AppendWriteByte(wb: WriteBuffer, address: Address, k: nat, acctype: AccType, value: Bits)
    requires k > 0 && Fits(wb, k + 1) && |value| >= 8 * (k + 1)
    ensures match AppendWrite(wb, address, k, acctype, false, value[..8 * k])
            case None => AppendWrite(wb, address, k + 1, acctype, false, value[..8 * (k + 1)]).None?
            case Some(b) =>
              AppendWrite(b, Wrap(address + k), 1, acctype, false, value[8 * k..8 * k + 8])
              == AppendWrite(wb, address, k + 1, acctype, false, value[..8 * (k + 1)])
  {
    var next := value[8 * k..8 * k + 8];
    assert value[..8 * k] + next == value[..8 * (k + 1)];
    if wb.size == 0 {
      assert ZeroExtend(value[..8 * k], 128)[..8 * k] == value[..8 * k];
    } else if Wrap(wb.address + wb.size) == address {
      NextAddress(wb.address, wb.size, address, k);
      var low := wb.value[..8 * wb.size];
      assert ZeroExtend(Concat(value[..8 * k], low), 128)[..8 * (wb.size + k)] == low + value[..8 * k];
      assert low + value[..8 * k] + next == low + value[..8 * (k + 1)];
    }
  }

  /** What a read access leaves in the buffer: nothing when it faults or an exclusive access is not whole;
      otherwise one append of the whole access, however it was split. */
  function ReadAccess(checked: bool, rb: ReadBuffer, address: Address, size: nat, acctype: AccType, exclusive: bool)
      : (r: Option<ReadBuffer>)
    requires size > 0
    ensures r.Some? ==> r.value.size == rb.size + size
  {
    if !Passes(checked, address, size, acctype, exclusive) then None
    else AppendRead(rb, address, size, acctype, exclusive)
  }

  /** `AArch64_rMemSingle`: translation is the identity and never faults. */
  function ReadSingle(rb: ReadBuffer, address: Address, size: nat, acctype: AccType, exclusive: bool)
      : Option<ReadBuffer>
    requires size > 0
  {
    if !Aligned(address, size) then None else AppendRead(rb, address, size, acctype, exclusive)
  }

  /** `rMem'`. */
  method RMem(checked: bool, rb: ReadBuffer, address: Address, size: nat, acctype: AccType, exclusive: bool)
      returns (r: Option<ReadBuffer>)
    requires AccessSize(size)
    ensures r == ReadAccess(checked, rb, address, size, acctype, exclusive)
  {
    var aligned := CheckAlignment(checked, address, size, acctype);
    if aligned.None? { return None; }
    if Whole(aligned.value, size, acctype) {
      BytesAligned(address);
      r := ReadSingle(rb, address, size, acctype, exclusive);
    } else {
      if exclusive { return None; }
      r := ReadBytes(rb, address, size, acctype);
    }
  }

  /** The non-atomic branch of `rMem'`: one append per byte. */
  method ReadBytes(rb: ReadBuffer, address: Address, size: nat, acctype: AccType) returns (r: Option<ReadBuffer>)
    requires size > 0
    ensures r == AppendRead(rb, address, size, acctype, false)
  {
    BytesAligned(address);
    r := ReadSingle(rb, address, 1, acctype, false);
    if r.None? { return None; }
    for i := 1 to size
      invariant r == AppendRead(rb, address, i, acctype, false)
      invariant r.Some?
    {
      AppendReadByte(rb, address, i, acctype);
      BytesAligned(Wrap(address + i));
      r := ReadSingle(r.value, Wrap(address + i), 1, acctype, false);
    }
  }

  function Oriented(bigEndian: bool, value: Bits): (r: Bits)
    requires ByteWidth(|value|)
    ensures |r| == |value|
  {
    if bigEndian then BigEndianReverse(value) else value
  }

  function WriteAccess(checked: bool, bigEndian: bool, wb: WriteBuffer, address: Address, size: nat,
                       acctype: AccType, value: Bits, exclusive: bool)
      : (r: Option<WriteBuffer>)
    requires AccessSize(size) && |value| == 8 * size && Fits(wb, size)
    ensures r.Some? ==> |r.value.value| == 128 && r.value.size == wb.size + size
  {
    if !Passes(checked, address, size, acctype, exclusive) then None
    else AppendWrite(wb, address, size, acctype, exclusive, Oriented(bigEndian, value))
  }

  /** `AArch64_wMemSingle`. */
  function WriteSingle(wb: WriteBuffer, address: Address, size: nat, acctype: AccType, exclusive: bool, value: Bits)
      : Option<WriteBuffer>
    requires size > 0 && Fits(wb, size) && |value| == 8 * size
  {
    if !Aligned(address, size) then None else AppendWrite(wb, address, size, acctype, exclusive, value)
  }

  /** `wMem'`. */
  method WMem(checked: bool, bigEndian: bool, wb: WriteBuffer, address: Address, size: nat, acctype: AccType,
              value: Bits, exclusive: bool)
      returns (r: Option<WriteBuffer>)
    requires AccessSize(size) && |value| == 8 * size && Fits(wb, size)
    ensures r == WriteAccess(checked, bigEndian, wb, address, size, acctype, value, exclusive)
  {
    var value' := value;
    if bigEndian { value' := BigEndianReverse(value'); }
    r := WriteChecked(checked, wb, address, size, acctype, value', exclusive);
  }

  /** `wMem'` once the value has its memory order. */
  method WriteChecked(checked: bool, wb: WriteBuffer, address: Address, size: nat, acctype: AccType, value: Bits,
                      exclusive: bool)
      returns (r: Option<WriteBuffer>)
    requires size > 0 && |value| == 8 * size && Fits(wb, size)
    ensures r == if Passes(checked, address, size, acctype, exclusive)
                 then AppendWrite(wb, address, size, acctype, exclusive, value) else None
  {
    var aligned := CheckAlignment(checked, address, size, acctype);
    if aligned.None? { return None; }
    if Whole(aligned.value, size, acctype) {
      BytesAligned(address);
      r := WriteSingle(wb, address, size, acctype, exclusive, value);
    } else {
      if exclusive { return None; }
      r := WriteBytes(wb, address, size, acctype, value);
    }
  }

  /** The non-atomic branch of `wMem'`: one append per byte. */
  method WriteBytes(wb: WriteBuffer, address: Address, size: nat, acctype: AccType, value: Bits)
      returns (r: Option<WriteBuffer>)
    requires size > 0 && |value| == 8 * size && Fits(wb, size)
    ensures r == AppendWrite(wb, address, size, acctype, false, value)
  {
    BytesAligned(address);
    r := WriteSingle(wb, address, 1, acctype, false, value[..8]);
    for i := 1 to size
      invariant r == AppendWrite(wb, address, i, acctype, false, value[..8 * i])
    {
      AppendWriteByte(wb, address, i, acctype, value);
      if r.None? { AppendWriteFails(wb, address, i, size, acctype, value); return None; }
      BytesAligned(Wrap(address + i));
      r := WriteSingle(r.value, Wrap(address + i), 1, acctype, false, value[8 * i..8 * i + 8]);
    }
    assert value[..8 * size] == value;
  }

  lemma AppendWriteFails(wb: WriteBuffer, address: Address, i: nat, size: nat, acctype: AccType, value: Bits)
    requires i <= size && |value| == 8 * size && Fits(wb, size)
    requires AppendWrite(wb, address, i, acctype, false, value[..8 * i]).None?
    ensures AppendWrite(wb, address, size, acctype, false, value).None?
  {
  }

  // ----- flushing -----

  /** The kind of external read a flush performs; None where the source has no such access. */
  function ReadKindOf(acctype: AccType, exclusive: bool): Option<ReadKind> {
    if exclusive then
      match acctype
      case Atomic => Some(ReadExclusive)
      case Ordered => Some(ReadExclusiveAcquire)
      case _ => None
    else
      match acctype
      case Normal | Unpriv => Some(ReadPlain)
      case Stream => Some(ReadStream)
      case Ordered => Some(ReadAcquire)
      case _ => None
  }

  /** `flush_read_buffer`: the external read of the whole buffer, in the order of the current endianness. */
  function FlushRead(bigEndian: bool, m: Mem, rb: ReadBuffer, size: nat): (r: Option<(ReadKind, Bits)>)
    requires AccessSize(size)
    ensures r.Some? ==> |r.value.1| == 8 * size
  {
    var kind := ReadKindOf(rb.acctype, rb.exclusive);
    if rb.size != size || kind.None? then None
    else Some((kind.value, Oriented(bigEndian, ToBits(8 * size, Loaded(m, rb.address, rb.size)))))
  }

  /** `wMem_Addr`: the kind of the announced write. */
  function WriteKindOf(acctype: AccType, exclusive: bool): Option<WriteKind> {
    if exclusive then
      match acctype
      case Atomic => Some(WriteExclusive)
      case Ordered => Some(WriteExclusiveRelease)
      case _ => None
    else
      match acctype
      case Normal | Stream | Unpriv => Some(WritePlain)
      case Ordered => Some(WriteRelease)
      case _ => None
  }

  /** `flush_write_buffer` and `flush_write_buffer_exclusive`: the buffered value goes to the address that
      was announced before; None when the buffer has the wrong kind. */
  function FlushWrite(m: Mem, announced: Address, wb: WriteBuffer, exclusive: bool): Option<Mem>
    requires Fits(wb, 0)
  {
    if wb.exclusive != exclusive || WriteKindOf(wb.acctype, exclusive).None? then None
    else Some(Stored(m, announced, wb.size, UInt(wb.value[..8 * wb.size])))
  }

  // ----- whole accesses -----

  /** A read into an empty buffer. */
  function FilledOne(checked: bool, address: Address, size: nat, acctype: AccType, exclusive: bool)
      : (r: Option<ReadBuffer>)
    requires AccessSize(size)
    ensures r.Some? ==> r.value.address == address
  {
    ReadAccess(checked, EMPTY_READ, address, size, acctype, exclusive)
  }

  method FillOne(checked: bool, address: Address, size: nat, acctype: AccType, exclusive: bool)
      returns (r: Option<ReadBuffer>)
    requires AccessSize(size)
    ensures r == FilledOne(checked, address, size, acctype, exclusive)
  {
    r := RMem(checked, EMPTY_READ, address, size, acctype, exclusive);
  }

  /** A load of one register: fill an empty buffer, flush it. */
  function LoadOne(checked: bool, bigEndian: bool, m: Mem, address: Address, size: nat, acctype: AccType,
                   exclusive: bool)
      : (r: Option<(ReadKind, Bits)>)
    requires AccessSize(size)
    ensures r.Some? ==> |r.value.1| == 8 * size
  {
    match FilledOne(checked, address, size, acctype, exclusive)
    case None => None
    case Some(rb) => FlushRead(bigEndian, m, rb, size)
  }

  /** A store of one register to the announced address. */
  function StoreOne(checked: bool, bigEndian: bool, m: Mem, address: Address, size: nat, acctype: AccType,
                    value: Bits, exclusive: bool)
      : Option<Mem>
    requires AccessSize(size) && |value| == 8 * size
  {
    match WriteAccess(checked, bigEndian, EMPTY_WRITE, address, size, acctype, value, exclusive)
    case None => None
    case Some(wb) => FlushWrite(m, address, wb, exclusive)
  }

  /** Two reads into one buffer: the halves of a register pair. */
  function FilledTwo(checked: bool, address: Address, size: nat, acctype: AccType, exclusive: bool)
      : (r: Option<ReadBuffer>)
    requires AccessSize(size)
    ensures r.Some? ==> r.value.address == address
  {
    match ReadAccess(checked, EMPTY_READ, address, size, acctype, exclusive)
    case None => None
    case Some(rb) => ReadAccess(checked, rb, Wrap(address + size), size, acctype, exclusive)
  }

  lemma FilledTwoKind(checked: bool, address: Address, size: nat, acctype: AccType, exclusive: bool)
    requires AccessSize(size)
    ensures var r := FilledTwo(checked, address, size, acctype, exclusive);
            r.Some? ==> r.value.acctype == acctype && r.value.exclusive == exclusive
  {
  }

  method FillTwo(checked: bool, address: Address, size: nat, acctype: AccType, exclusive: bool)
      returns (r: Option<ReadBuffer>)
    requires AccessSize(size)
    ensures r == FilledTwo(checked, address, size, acctype, exclusive)
  {
    r := RMem(checked, EMPTY_READ, address, size, acctype, exclusive);
    if r.Some? { r := RMem(checked, r.value, Wrap(address + size), size, acctype, exclusive); }
  }

  function WrittenTwo(checked: bool, bigEndian: bool, address: Address, size: nat, acctype: AccType,
                      value1: Bits, value2: Bits)
      : (r: Option<WriteBuffer>)
    requires AccessSize(size) && size <= 8 && |value1| == |value2| == 8 * size
    ensures r.Some? ==> |r.value.value| == 128 && r.value.size == 2 * size
  {
    match WriteAccess(checked, bigEndian, EMPTY_WRITE, address, size, acctype, value1, false)
    case None => None
    case Some(wb) => WriteAccess(checked, bigEndian, wb, Wrap(address + size), size, acctype, value2, false)
  }

  method WriteTwo(checked: bool, bigEndian: bool, address: Address, size: nat, acctype: AccType,
                  value1: Bits, value2: Bits)
      returns (r: Option<WriteBuffer>)
    requires AccessSize(size) && size <= 8 && |value1| == |value2| == 8 * size
    ensures r == WrittenTwo(checked, bigEndian, address, size, acctype, value1, value2)
  {
    r := WMem(checked, bigEndian, EMPTY_WRITE, address, size, acctype, value1, false);
    if r.Some? { r := WMem(checked, bigEndian, r.value, Wrap(address + size), size, acctype, value2, false); }
  }

  function LoadTwo(checked: bool, bigEndian: bool, m: Mem, address: Address, size: nat, acctype: AccType,
                   exclusive: bool)
      : (r: Option<(ReadKind, Bits)>)
    requires AccessSize(size) && size <= 8
    ensures r.Some? ==> |r.value.1| == 16 * size
  {
    match FilledTwo(checked, address, size, acctype, exclusive)
    case None => None
    case Some(rb) => FlushRead(bigEndian, m, rb, 2 * size)
  }

  function StoreTwo(checked: bool, bigEndian: bool, m: Mem, address: Address, size: nat, acctype: AccType,
                    value1: Bits, value2: Bits)
      : Option<Mem>
    requires AccessSize(size) && size <= 8 && |value1| == |value2| == 8 * size
  {
    match WrittenTwo(checked, bigEndian, address, size, acctype, value1, value2)
    case None => None
    case Some(wb) => FlushWrite(m, address, wb, false)
  }

  // ----- round trips -----

  lemma LoadStored(m: Mem, address: Address, size: nat, value: Bits)
    requires size <= 16 && |value| == 8 * size
    ensures ToBits(8 * size, Loaded(Stored(m, address, size, UInt(value)), address, size)) == value
  {
    LoadAfterStore(m, address, size, UInt(value));
    UIntRange(value);
    SmallMod(UInt(value), Pow2(8 * size));
    ToBitsUInt(value);
  }

  lemma OrientedTwice(bigEndian: bool, value: Bits)
    requires ByteWidth(|value|)
    ensures Oriented(bigEndian, Oriented(bigEndian, value)) == value
  {
    BigEndianReverseBytes(value);
    BigEndianReverseBytes(Oriented(bigEndian, value));
    ByteReversedInvolution(value);
  }

  /** What a store leaves in memory: the oriented value, little-endian. */
  lemma StoreOneMemory(checked: bool, bigEndian: bool, m: Mem, address: Address, size: nat, acctype: AccType,
                       value: Bits, exclusive: bool)
    requires AccessSize(size) && |value| == 8 * size
    ensures match StoreOne(checked, bigEndian, m, address, size, acctype, value, exclusive)
            case None => true
            case Some(m') => m' == Stored(m, address, size, UInt(Oriented(bigEndian, value)))
  {
    WrittenOneIs(checked, bigEndian, address, size, acctype, value, exclusive);
    FlushedIs(m, address, address, size, acctype, exclusive, Oriented(bigEndian, value));
  }

  /** The buffer of one write. */
  lemma WrittenOneIs(checked: bool, bigEndian: bool, address: Address, size: nat, acctype: AccType, value: Bits,
                     exclusive: bool)
    requires AccessSize(size) && |value| == 8 * size
    ensures WriteAccess(checked, bigEndian, EMPTY_WRITE, address, size, acctype, value, exclusive)
         == if !Passes(checked, address, size, acctype, exclusive) then None
            else Some(WriteBuffer(acctype, exclusive, address, ZeroExtend(Oriented(bigEndian, value), 128), size))
  {
  }

  /** A flush stores the n-byte value of a buffer. */
  lemma FlushedIs(m: Mem, announced: Address, address: Address, n: nat, acctype: AccType, exclusive: bool, out: Bits)
    requires n <= 16 && |out| == 8 * n
    ensures FlushWrite(m, announced, WriteBuffer(acctype, exclusive, address, ZeroExtend(out, 128), n), exclusive)
         == if WriteKindOf(acctype, exclusive).None? then None else Some(Stored(m, announced, n, UInt(out)))
  {
    LowPart(out, 128);
  }

  lemma LowPart(x: Bits, n: nat)
    requires |x| <= n
    ensures ZeroExtend(x, n)[..|x|] == x
  {
  }

  lemma LoadOneValue(checked: bool, bigEndian: bool, m: Mem, address: Address, size: nat, acctype: AccType,
                     exclusive: bool)
    requires AccessSize(size)
    ensures match LoadOne(checked, bigEndian, m, address, size, acctype, exclusive)
            case None => true
            case Some(load) => load.1 == Oriented(bigEndian, ToBits(8 * size, Loaded(m, address, size)))
  {
  }

  /** When a load gets through: exactly when it passes the checks and is of a known kind. */
  lemma LoadSucceeds(checked: bool, bigEndian: bool, m: Mem, address: Address, size: nat, rtype: AccType, rexcl: bool)
    requires AccessSize(size)
    ensures LoadOne(checked, bigEndian, m, address, size, rtype, rexcl).Some?
       <==> Passes(checked, address, size, rtype, rexcl) && ReadKindOf(rtype, rexcl).Some?
  {
  }

  /** A store followed by a load of the same place and size returns the value, in both endiannesses and for
      every pair of access types that get through, aligned or not; a load of the store's own type does. */
  lemma StoreThenLoad(checked: bool, bigEndian: bool, m: Mem, address: Address, size: nat, value: Bits,
                      wtype: AccType, wexcl: bool, rtype: AccType, rexcl: bool)
    requires AccessSize(size) && |value| == 8 * size
    requires StoreOne(checked, bigEndian, m, address, size, wtype, value, wexcl).Some?
    ensures var m' := StoreOne(checked, bigEndian, m, address, size, wtype, value, wexcl).value;
            var load := LoadOne(checked, bigEndian, m', address, size, rtype, rexcl);
            && (load.Some? ==> load.value.1 == value)
            && (rtype == wtype && rexcl == wexcl ==> load.Some?)
  {
    StoreOneMemory(checked, bigEndian, m, address, size, wtype, value, wexcl);
    var m' := StoreOne(checked, bigEndian, m, address, size, wtype, value, wexcl).value;
    LoadOneValue(checked, bigEndian, m', address, size, rtype, rexcl);
    LoadStored(m, address, size, Oriented(bigEndian, value));
    OrientedTwice(bigEndian, value);
    SameTypeLoads(checked, bigEndian, m, m', address, size, value, wtype, wexcl);
  }

  lemma SameTypeLoads(checked: bool, bigEndian: bool, m: Mem, m': Mem, address: Address, size: nat, value: Bits,
                      acctype: AccType, excl: bool)
    requires AccessSize(size) && |value| == 8 * size
    requires StoreOne(checked, bigEndian, m, address, size, acctype, value, excl).Some?
    ensures LoadOne(checked, bigEndian, m', address, size, acctype, excl).Some?
  {
    StoreSucceeds(checked, bigEndian, m, address, size, value, acctype, excl);
    LoadSucceeds(checked, bigEndian, m', address, size, acctype, excl);
  }

  /** When a store gets through: exactly when it passes the checks and is of a known kind. */
  lemma StoreSucceeds(checked: bool, bigEndian: bool, m: Mem, address: Address, size: nat, value: Bits,
                      wtype: AccType, wexcl: bool)
    requires AccessSize(size) && |value| == 8 * size
    ensures StoreOne(checked, bigEndian, m, address, size, wtype, value, wexcl).Some?
       <==> Passes(checked, address, size, wtype, wexcl) && WriteKindOf(wtype, wexcl).Some?
  {
  }

  /** What StoreTwo leaves in memory: the two oriented halves side by side. */
  lemma StoreTwoMemory(checked: bool, bigEndian: bool, m: Mem, address: Address, size: nat, acctype: AccType,
                       value1: Bits, value2: Bits)
    requires AccessSize(size) && size <= 8 && |value1| == |value2| == 8 * size
    ensures match StoreTwo(checked, bigEndian, m, address, size, acctype, value1, value2)
            case None => true
            case Some(m') => m' == Stored(m, address, 2 * size, UInt(Halves(bigEndian, value1, value2)))
  {
    WrittenTwoIs(checked, bigEndian, address, size, acctype, value1, value2);
    StoreTwoIs(checked, bigEndian, m, address, size, acctype, value1, value2,
               WrittenTwo(checked, bigEndian, address, size, acctype, value1, value2));
    FlushedIs(m, address, address, 2 * size, acctype, false, Halves(bigEndian, value1, value2));
  }

  lemma StoreTwoIs(checked: bool, bigEndian: bool, m: Mem, address: Address, size: nat, acctype: AccType,
                   value1: Bits, value2: Bits, wb: Option<WriteBuffer>)
    requires AccessSize(size) && size <= 8 && |value1| == |value2| == 8 * size
    requires wb == WrittenTwo(checked, bigEndian, address, size, acctype, value1, value2)
    ensures StoreTwo(checked, bigEndian, m, address, size, acctype, value1, value2)
         == if wb.None? then None else FlushWrite(m, address, wb.value, false)
  {
  }

  function Halves(bigEndian: bool, value1: Bits, value2: Bits): (r: Bits)
    requires ByteWidth(|value1|) && ByteWidth(|value2|)
    ensures |r| == |value1| + |value2|
  {
    Concat(Oriented(bigEndian, value2), Oriented(bigEndian, value1))
  }

  /** The buffer of a pair of writes. */
  lemma WrittenTwoIs(checked: bool, bigEndian: bool, address: Address, size: nat, acctype: AccType,
                     value1: Bits, value2: Bits)
    requires AccessSize(size) && size <= 8 && |value1| == |value2| == 8 * size
    ensures WrittenTwo(checked, bigEndian, address, size, acctype, value1, value2)
         == if !BothPass(checked, address, size, acctype, false) then None
            else Some(WriteBuffer(acctype, false, address, ZeroExtend(Halves(bigEndian, value1, value2), 128),
                                  2 * size))
  {
    SecondAppend(address, size, acctype, Oriented(bigEndian, value1), Oriented(bigEndian, value2));
  }

  lemma SecondAppend(address: Address, size: nat, acctype: AccType, lo: Bits, hi: Bits)
    requires 0 < size <= 8 && |lo| == |hi| == 8 * size
    ensures AppendWrite(WriteBuffer(acctype, false, address, ZeroExtend(lo, 128), size), Wrap(address + size), size,
                        acctype, false, hi)
         == Some(WriteBuffer(acctype, false, address, ZeroExtend(Concat(hi, lo), 128), 2 * size))
  {
    LowPart(lo, 128);
  }

  predicate BothPass(checked: bool, address: Address, size: nat, acctype: AccType, exclusive: bool)
    requires size > 0
  {
    && Passes(checked, address, size, acctype, exclusive)
    && Passes(checked, Wrap(address + size), size, acctype, exclusive)
  }

  lemma LoadTwoValue(checked: bool, bigEndian: bool, m: Mem, address: Address, size: nat, acctype: AccType,
                     exclusive: bool)
    requires AccessSize(size) && size <= 8
    ensures match LoadTwo(checked, bigEndian, m, address, size, acctype, exclusive)
            case None => true
            case Some(load) => load.1 == Oriented(bigEndian, ToBits(16 * size, Loaded(m, address, 2 * size)))
  {
  }

  /** Reading a pair back: little-endian returns it; big-endian returns it with the halves exchanged, because
      the halves are reversed one by one when stored and together when loaded. */
  lemma PairStoreThenLoad(checked: bool, bigEndian: bool, m: Mem, address: Address, size: nat,
                          value1: Bits, value2: Bits, wtype: AccType, rtype: AccType, rexcl: bool)
    requires AccessSize(size) && size <= 8 && |value1| == |value2| == 8 * size
    requires StoreTwo(checked, bigEndian, m, address, size, wtype, value1, value2).Some?
    ensures var m' := StoreTwo(checked, bigEndian, m, address, size, wtype, value1, value2).value;
            var load := LoadTwo(checked, bigEndian, m', address, size, rtype, rexcl);
            && (load.Some? ==> load.value.1 == PairReadBack(bigEndian, value1, value2))
            && (rtype == wtype && !rexcl ==> load.Some?)
  {
    var m' := StoreTwo(checked, bigEndian, m, address, size, wtype, value1, value2).value;
    StoreTwoMemory(checked, bigEndian, m, address, size, wtype, value1, value2);
    LoadTwoValue(checked, bigEndian, m', address, size, rtype, rexcl);
    HalvesReadBack(bigEndian, m, address, size, value1, value2);
    if rtype == wtype && !rexcl { SameTypeLoadsTwo(checked, bigEndian, m, m', address, size, wtype, value1, value2); }
  }

  lemma HalvesReadBack(bigEndian: bool, m: Mem, address: Address, size: nat, value1: Bits, value2: Bits)
    requires AccessSize(size) && size <= 8 && |value1| == |value2| == 8 * size
    ensures var m' := Stored(m, address, 2 * size, UInt(Halves(bigEndian, value1, value2)));
            Oriented(bigEndian, ToBits(16 * size, Loaded(m', address, 2 * size)))
            == PairReadBack(bigEndian, value1, value2)
  {
    LoadStored(m, address, 2 * size, Halves(bigEndian, value1, value2));
    HalvesExchanged(value1, value2);
  }

  /** When the two halves of a pair get through: exactly when both pass the checks and the kind is known. */
  lemma PairSucceeds(checked: bool, bigEndian: bool, m: Mem, address: Address, size: nat, acctype: AccType,
                     value1: Bits, value2: Bits)
    requires AccessSize(size) && size <= 8 && |value1| == |value2| == 8 * size
    ensures StoreTwo(checked, bigEndian, m, address, size, acctype, value1, value2).Some?
       <==> BothPass(checked, address, size, acctype, false) && WriteKindOf(acctype, false).Some?
  {
    WrittenTwoIs(checked, bigEndian, address, size, acctype, value1, value2);
  }

  lemma LoadTwoSucceeds(checked: bool, bigEndian: bool, m: Mem, address: Address, size: nat, acctype: AccType,
                        exclusive: bool)
    requires AccessSize(size) && size <= 8
    ensures LoadTwo(checked, bigEndian, m, address, size, acctype, exclusive).Some?
       <==> BothPass(checked, address, size, acctype, exclusive) && ReadKindOf(acctype, exclusive).Some?
  {
    FilledTwoIs(checked, address, size, acctype, exclusive);
  }

  /** The buffer of a pair of reads. */
  lemma FilledTwoIs(checked: bool, address: Address, size: nat, acctype: AccType, exclusive: bool)
    requires AccessSize(size)
    ensures FilledTwo(checked, address, size, acctype, exclusive)
         == if !BothPass(checked, address, size, acctype, exclusive) then None
            else Some(ReadBuffer(acctype, exclusive, address, 2 * size))
  {
  }

  /** A 16-byte aligned pair of exclusive doublewords passes the checks. */
  lemma AlignedPairPasses(checked: bool, address: Address, acctype: AccType)
    requires Aligned(address, 16) && acctype in {Atomic, Ordered}
    ensures BothPass(checked, address, 8, acctype, true)
  {
    assert address % 16 == 0;
    SmallMod(address + 8, WORD);
  }

  lemma SameTypeLoadsTwo(checked: bool, bigEndian: bool, m: Mem, m': Mem, address: Address, size: nat, acctype: AccType,
                         value1: Bits, value2: Bits)
    requires AccessSize(size) && size <= 8 && |value1| == |value2| == 8 * size
    requires StoreTwo(checked, bigEndian, m, address, size, acctype, value1, value2).Some?
    ensures LoadTwo(checked, bigEndian, m', address, size, acctype, false).Some?
  {
    PairSucceeds(checked, bigEndian, m, address, size, acctype, value1, value2);
    LoadTwoSucceeds(checked, bigEndian, m', address, size, acctype, false);
  }

  function PairReadBack(bigEndian: bool, value1: Bits, value2: Bits): Bits {
    if bigEndian then Concat(value1, value2) else Concat(value2, value1)
  }

  lemma HalvesExchanged(value1: Bits, value2: Bits)
    requires ByteWidth(|value1|) && |value1| == |value2| <= 64
    ensures BigEndianReverse(Halves(true, value1, value2)) == Concat(value1, value2)
  {
    var r1, r2 := BigEndianReverse(value1), BigEndianReverse(value2);
    var out := Concat(r2, r1);
    BigEndianReverseBytes(out);
    ByteReversedSplit(out, |value1|);
    assert out[..|value1|] == r1 && out[|value1|..] == r2;
    BigEndianReverseBytes(r1);
    BigEndianReverseBytes(r2);
    OrientedTwice(true, value1);
    OrientedTwice(true, value2);
  }

  /** Hence a pair survives the round trip exactly when memory is little-endian or the halves are equal. */
  lemma PairSurvives(bigEndian: bool, value1: Bits, value2: Bits)
    requires |value1| == |value2|
    ensures PairReadBack(bigEndian, value1, value2) == Concat(value2, value1)
       <==> (!bigEndian || value1 == value2)
  {
    var n := |value1|;
    assert Concat(value1, value2)[..n] == value2 && Concat(value2, value1)[..n] == value1;
  }
}
