/** ELF files from the outside: file and program headers written as their fields one after the other, in class
    and byte order, and what the loader of lib/elf.c makes of a file that holds them. */
module ElfLayout {
  import opened Wrappers
  import opened Ints
  import opened Rts
  import opened Elf

  // ----- fields as bytes -----

  /** A field: its size in bytes and its value. */
  datatype Datum = Datum(size: nat, value: nat)

  predicate Fits(d: Datum) { d.value < Pow2(8 * d.size) }

  function LittleBytes(v: nat, n: nat): (s: seq<Byte>)
    ensures |s| == n
    decreases n
  {
    if n == 0 then [] else [v % 256] + LittleBytes(v / 256, n - 1)
  }

  function BigBytes(v: nat, n: nat): (s: seq<Byte>)
    ensures |s| == n
    decreases n
  {
    if n == 0 then [] else BigBytes(v / 256, n - 1) + [v % 256]
  }

  /** The bytes of a field, lowest first in a little-endian file, highest first otherwise. */
  function Bytes(le: bool, d: Datum): (s: seq<Byte>)
    ensures |s| == d.size
  {
    if le then LittleBytes(d.value, d.size) else BigBytes(d.value, d.size)
  }

  predicate AllFit(ds: seq<Datum>) { forall k :: 0 <= k < |ds| ==> Fits(ds[k]) }

  lemma TailFits(ds: seq<Datum>)
    requires ds != [] && AllFit(ds)
    ensures Fits(ds[0]) && AllFit(ds[1..])
  {
  }

  function Encode(le: bool, ds: seq<Datum>): seq<Byte> {
    if ds == [] then [] else Bytes(le, ds[0]) + Encode(le, ds[1..])
  }

  lemma LowerPart(v: nat, n: nat)
    requires n > 0 && v < Pow2(8 * n)
    ensures v / 256 < Pow2(8 * (n - 1))
  {
    assert Pow2(8) == 256;
    Pow2Add(8, 8 * (n - 1));
  }

  lemma {:induction false} LittleRead(b: seq<Byte>, at: nat, v: nat, n: nat)
    requires at + n <= |b| && b[at..at + n] == LittleBytes(v, n) && v < Pow2(8 * n)
    ensures LittleEndian(b, at, n) == v
    decreases n
  {
    if n > 0 {
      LowerPart(v, n);
      assert b[at] == b[at..at + n][0];
      assert b[at + 1..at + 1 + (n - 1)] == b[at..at + n][1..];
      LittleRead(b, at + 1, v / 256, n - 1);
    }
  }

  lemma {:induction false} BigRead(b: seq<Byte>, at: nat, v: nat, n: nat)
    requires at + n <= |b| && b[at..at + n] == BigBytes(v, n) && v < Pow2(8 * n)
    ensures BigEndian(b, at, n) == v
    decreases n
  {
    if n > 0 {
      LowerPart(v, n);
      assert b[at + n - 1] == b[at..at + n][n - 1];
      assert b[at..at + (n - 1)] == b[at..at + n][..n - 1];
      BigRead(b, at, v / 256, n - 1);
    }
  }

  /** The fields read from b, one after the other from `at` on, are these. */
  predicate Reads(le: bool, b: seq<Byte>, at: nat, ds: seq<Datum>)
    decreases |ds|
  {
    ds == []
    || (at + ds[0].size <= |b| && Field(le, b, at, ds[0].size) == ds[0].value && Reads(le, b, at + ds[0].size, ds[1..]))
  }

  /** What was written is what is read. */
  lemma {:induction false} EncodedReads(le: bool, b: seq<Byte>, at: nat, ds: seq<Datum>)
    requires Written(le, b, at, ds) && AllFit(ds)
    ensures Reads(le, b, at, ds)
    decreases |ds|
  {
    if ds != [] {
      TailFits(ds);
      FirstWritten(le, b, at, ds);
      FieldRead(le, b, at, ds[0]);
      EncodedReads(le, b, at + ds[0].size, ds[1..]);
    }
  }

  /** b holds these bytes from `at` on. */
  predicate HoldsBytes(b: seq<Byte>, at: nat, s: seq<Byte>) { at + |s| <= |b| && b[at..at + |s|] == s }

  /** b holds the encoding of these fields from `at` on. */
  predicate Written(le: bool, b: seq<Byte>, at: nat, ds: seq<Datum>) { HoldsBytes(b, at, Encode(le, ds)) }

  lemma FirstWritten(le: bool, b: seq<Byte>, at: nat, ds: seq<Datum>)
    requires ds != [] && Written(le, b, at, ds)
    ensures HoldsBytes(b, at, Bytes(le, ds[0])) && Written(le, b, at + ds[0].size, ds[1..])
  {
    Halves(b, at, Bytes(le, ds[0]), Encode(le, ds[1..]));
  }

  lemma Halves(b: seq<Byte>, at: nat, x: seq<Byte>, y: seq<Byte>)
    requires HoldsBytes(b, at, x + y)
    ensures HoldsBytes(b, at, x) && HoldsBytes(b, at + |x|, y)
  {
    var z := b[at..at + |x + y|];
    assert b[at..at + |x|] == z[..|x|] && b[at + |x|..at + |x| + |y|] == z[|x|..];
  }

  lemma FieldRead(le: bool, b: seq<Byte>, at: nat, d: Datum)
    requires HoldsBytes(b, at, Bytes(le, d)) && Fits(d)
    ensures Field(le, b, at, d.size) == d.value
  {
    if le { LittleRead(b, at, d.value, d.size); } else { BigRead(b, at, d.value, d.size); }
  }

  /** Where field k starts. */
  function Start(ds: seq<Datum>, k: nat): nat
    requires k <= |ds|
  {
    if k == 0 then 0 else ds[0].size + Start(ds[1..], k - 1)
  }

  lemma {:induction false} StartNext(ds: seq<Datum>, k: nat)
    requires k < |ds|
    ensures Start(ds, k + 1) == Start(ds, k) + ds[k].size
    decreases k
  {
    if k > 0 { StartNext(ds[1..], k - 1); }
  }

  lemma {:induction false} FieldAt(le: bool, b: seq<Byte>, p: nat, ds: seq<Datum>, k: nat, n: nat)
    requires k < |ds| && Reads(le, b, p, ds) && n == Start(ds, k)
    ensures p + n + ds[k].size <= |b| && Field(le, b, p + n, ds[k].size) == ds[k].value
    decreases k
  {
    if k > 0 { FieldAt(le, b, p + ds[0].size, ds[1..], k - 1, n - ds[0].size); }
  }

  /** Field k, when the fields before it take n bytes. */
  lemma Extracted(le: bool, b: seq<Byte>, p: nat, ds: seq<Datum>, k: nat, n: nat)
    requires k < |ds| && Written(le, b, p, ds) && AllFit(ds) && n == Start(ds, k)
    ensures p + n + ds[k].size <= |b| && Field(le, b, p + n, ds[k].size) == ds[k].value
  {
    EncodedReads(le, b, p, ds);
    FieldAt(le, b, p, ds, k, n);
  }

  // ----- program headers -----

  datatype ProgramHeader = ProgramHeader(
    ptype: nat, flags: nat, offset: nat, vaddr: nat, paddr: nat, filesz: nat, memsz: nat, align: nat)

  /** The fields in the order of `Elf64_Phdr` and `Elf32_Phdr`. */
  function HeaderData(wide: bool, h: ProgramHeader): seq<Datum> {
    if wide then
      [Datum(4, h.ptype), Datum(4, h.flags), Datum(8, h.offset), Datum(8, h.vaddr), Datum(8, h.paddr),
       Datum(8, h.filesz), Datum(8, h.memsz), Datum(8, h.align)]
    else
      [Datum(4, h.ptype), Datum(4, h.offset), Datum(4, h.vaddr), Datum(4, h.paddr), Datum(4, h.filesz),
       Datum(4, h.memsz), Datum(4, h.flags), Datum(4, h.align)]
  }

  /** The segment a loadable header describes. */
  function SegmentOf(c: Class, h: ProgramHeader): Segment {
    Segment(c.Modulus(), h.offset, h.paddr, h.filesz, h.memsz)
  }

  /** b holds the encoding of h at p. */
  predicate HoldsHeader(c: Class, b: seq<Byte>, p: nat, h: ProgramHeader) {
    AllFit(HeaderData(c.wide, h)) && Written(c.le, b, p, HeaderData(c.wide, h))
  }

  lemma Starts8(ds: seq<Datum>)
    requires |ds| == 8
    ensures Start(ds, 0) == 0 && Start(ds, 1) == ds[0].size
    ensures Start(ds, 2) == ds[0].size + ds[1].size
    ensures Start(ds, 3) == Start(ds, 2) + ds[2].size && Start(ds, 4) == Start(ds, 3) + ds[3].size
    ensures Start(ds, 5) == Start(ds, 4) + ds[4].size && Start(ds, 6) == Start(ds, 5) + ds[5].size
  {
    StartNext(ds, 0);
    StartNext(ds, 1);
    StartNext(ds, 2);
    StartNext(ds, 3);
    StartNext(ds, 4);
    StartNext(ds, 5);
  }

  lemma WideHeaderReads(le: bool, b: Buffer, p: nat, h: ProgramHeader)
    requires p + 56 <= |b| && HoldsHeader(Class(true, le), b, p, h)
    ensures Field(le, b, p, 4) == h.ptype && Field(le, b, p + 8, 8) == h.offset && Field(le, b, p + 24, 8) == h.paddr
    ensures Field(le, b, p + 32, 8) == h.filesz && Field(le, b, p + 40, 8) == h.memsz
  {
    var ds := HeaderData(true, h);
    Starts8(ds);
    Extracted(le, b, p, ds, 0, 0);
    Extracted(le, b, p, ds, 2, 8);
    Extracted(le, b, p, ds, 4, 24);
    Extracted(le, b, p, ds, 5, 32);
    Extracted(le, b, p, ds, 6, 40);
  }

  lemma NarrowHeaderReads(le: bool, b: Buffer, p: nat, h: ProgramHeader)
    requires p + 32 <= |b| && HoldsHeader(Class(false, le), b, p, h)
    ensures Field(le, b, p, 4) == h.ptype && Field(le, b, p + 4, 4) == h.offset && Field(le, b, p + 12, 4) == h.paddr
    ensures Field(le, b, p + 16, 4) == h.filesz && Field(le, b, p + 20, 4) == h.memsz
  {
    var ds := HeaderData(false, h);
    Starts8(ds);
    Extracted(le, b, p, ds, 0, 0);
    Extracted(le, b, p, ds, 1, 4);
    Extracted(le, b, p, ds, 3, 12);
    Extracted(le, b, p, ds, 4, 16);
    Extracted(le, b, p, ds, 5, 20);
  }

  /** A program header read back from its encoding: its segment when it is loadable (type 1), nothing otherwise. */
  lemma HeaderReadBack(c: Class, b: Buffer, p: nat, h: ProgramHeader)
    requires p + c.PhdrSize() <= |b| && HoldsHeader(c, b, p, h)
    ensures HeaderSegment(c, b, p) == if h.ptype == 1 then Some(SegmentOf(c, h)) else None
  {
    if c.wide { WideHeaderReads(c.le, b, p, h); } else { NarrowHeaderReads(c.le, b, p, h); }
  }

  // ----- file headers -----

  datatype FileHeader = FileHeader(
    ident: seq<Byte>, etype: nat, machine: nat, version: nat, entry: nat, phoff: nat, shoff: nat, flags: nat,
    ehsize: nat, phentsize: nat, phnum: nat, shentsize: nat, shnum: nat, shstrndx: nat)

  /** The fields behind the identification, in the order of `Elf64_Ehdr` and `Elf32_Ehdr`. */
  function FileData(wide: bool, f: FileHeader): seq<Datum> {
    var a := if wide then 8 else 4;
    [Datum(2, f.etype), Datum(2, f.machine), Datum(4, f.version), Datum(a, f.entry), Datum(a, f.phoff),
     Datum(a, f.shoff), Datum(4, f.flags), Datum(2, f.ehsize), Datum(2, f.phentsize), Datum(2, f.phnum),
     Datum(2, f.shentsize), Datum(2, f.shnum), Datum(2, f.shstrndx)]
  }

  /** The sixteen bytes a file of this class and byte order begins with: magic number, class, byte order. */
  predicate Identifies(c: Class, ident: seq<Byte>) {
    && |ident| == 16 && ident[..4] == [0x7f, 0x45, 0x4c, 0x46]
    && ident[4] == (if c.wide then 2 else 1) && (ident[5] == 1 <==> c.le)
  }

  /** b begins with the encoding of f. */
  predicate HoldsFile(c: Class, b: seq<Byte>, f: FileHeader) {
    && Identifies(c, f.ident) && HoldsBytes(b, 0, f.ident)
    && AllFit(FileData(c.wide, f)) && Written(c.le, b, 16, FileData(c.wide, f))
  }

  /** Executable files for the machines the model knows: 32-bit ARM, AArch64, RISC-V. */
  predicate Runnable(c: Class, f: FileHeader) {
    f.etype == 2 && (f.machine == 243 || f.machine == if c.wide then 183 else 40)
  }

  lemma AllStarts(ds: seq<Datum>)
    ensures forall k :: 0 <= k < |ds| ==> Start(ds, k + 1) == Start(ds, k) + ds[k].size
  {
    forall k | 0 <= k < |ds| ensures Start(ds, k + 1) == Start(ds, k) + ds[k].size { StartNext(ds, k); }
  }

  lemma FileStarts(ds: seq<Datum>, a: nat)
    requires |ds| == 13 && ds[0].size == ds[1].size == 2 && ds[2].size == 4
    requires ds[3].size == ds[4].size == ds[5].size == a
    requires ds[6].size == 4 && ds[7].size == ds[8].size == ds[9].size == ds[10].size == ds[11].size == 2
    ensures Start(ds, 0) == 0 && Start(ds, 1) == 2 && Start(ds, 3) == 8 && Start(ds, 4) == 8 + a
    ensures Start(ds, 8) == 14 + 3 * a && Start(ds, 9) == 16 + 3 * a && Start(ds, 12) == 22 + 3 * a
  {
    AllStarts(ds);
    assert Start(ds, 1) == 2 && Start(ds, 2) == 4 && Start(ds, 3) == 8 && Start(ds, 4) == 8 + a;
    assert Start(ds, 5) == 8 + 2 * a && Start(ds, 6) == 8 + 3 * a && Start(ds, 7) == 12 + 3 * a;
    assert Start(ds, 8) == 14 + 3 * a && Start(ds, 9) == 16 + 3 * a && Start(ds, 10) == 18 + 3 * a;
    assert Start(ds, 11) == 20 + 3 * a && Start(ds, 12) == 22 + 3 * a;
  }

  /** The loader reads the fields of f where it looks for them. */
  predicate FieldsRead(c: Class, b: Buffer, f: FileHeader) {
    var a := if c.wide then 8 else 4;
    && |b| >= c.HeaderSize()
    && Field(c.le, b, 16, 2) == f.etype && Field(c.le, b, 18, 2) == f.machine
    && Field(c.le, b, 24, a) == f.entry && Field(c.le, b, 24 + a, a) == f.phoff
    && Field(c.le, b, if c.wide then 54 else 42, 2) == f.phentsize
    && Field(c.le, b, if c.wide then 56 else 44, 2) == f.phnum
  }

  predicate Identified(c: Class, b: Buffer) {
    && |b| >= 16 && b[..4] == [0x7f, 0x45, 0x4c, 0x46]
    && b[4] == (if c.wide then 2 else 1) && (b[5] == 1 <==> c.le)
  }

  lemma WideFileReads(le: bool, b: Buffer, f: FileHeader)
    requires HoldsFile(Class(true, le), b, f)
    ensures FieldsRead(Class(true, le), b, f)
  {
    var ds := FileData(true, f);
    FileStarts(ds, 8);
    Extracted(le, b, 16, ds, 0, 0);
    Extracted(le, b, 16, ds, 1, 2);
    Extracted(le, b, 16, ds, 3, 8);
    Extracted(le, b, 16, ds, 4, 16);
    Extracted(le, b, 16, ds, 8, 38);
    Extracted(le, b, 16, ds, 9, 40);
    Extracted(le, b, 16, ds, 12, 46);
  }

  lemma NarrowFileReads(le: bool, b: Buffer, f: FileHeader)
    requires HoldsFile(Class(false, le), b, f)
    ensures FieldsRead(Class(false, le), b, f)
  {
    var ds := FileData(false, f);
    FileStarts(ds, 4);
    Extracted(le, b, 16, ds, 0, 0);
    Extracted(le, b, 16, ds, 1, 2);
    Extracted(le, b, 16, ds, 3, 8);
    Extracted(le, b, 16, ds, 4, 12);
    Extracted(le, b, 16, ds, 8, 26);
    Extracted(le, b, 16, ds, 9, 28);
    Extracted(le, b, 16, ds, 12, 34);
  }

  lemma IdentRead(c: Class, b: Buffer, f: FileHeader)
    requires HoldsFile(c, b, f)
    ensures Identified(c, b)
  {
    var i := b[0..16];
    assert i == f.ident && b[..4] == i[..4] && b[4] == i[4] && b[5] == i[5];
  }

  /** A file header read back from its encoding: class, byte order, acceptance, where the loader finds the program
      headers, how many it reads, and the entry point it reports. */
  lemma FileReadBack(c: Class, b: Buffer, f: FileHeader, i: nat)
    requires HoldsFile(c, b, f)
    ensures ClassOf(b) == c && (Acceptable(b) <==> Runnable(c, f))
    ensures Runnable(c, f) ==> LaidOut(c, b, f, i)
  {
    IdentRead(c, b, f);
    if c.wide { WideFileReads(c.le, b, f); } else { NarrowFileReads(c.le, b, f); }
    Accepted(c, b, f);
    if Runnable(c, f) { LayoutRead(c, b, f, i); }
  }

  /** Number and places of the program headers, and the entry point of a little-endian file. */
  predicate LaidOut(c: Class, b: Buffer, f: FileHeader, i: nat)
    requires Acceptable(b)
  {
    && HeaderCount(b) == f.phnum && HeaderPosition(b, i) == Position(c, f, i)
    && (c.le ==> Entry(b) == f.entry)
  }

  /** Where the file header puts program header i. */
  function Position(c: Class, f: FileHeader, i: nat): nat { (f.phoff + i * f.phentsize) % c.Modulus() }

  lemma Accepted(c: Class, b: Buffer, f: FileHeader)
    requires Identified(c, b) && FieldsRead(c, b, f)
    ensures ClassOf(b) == c && (Acceptable(b) <==> Runnable(c, f))
  {
  }

  lemma LayoutRead(c: Class, b: Buffer, f: FileHeader, i: nat)
    requires FieldsRead(c, b, f) && ClassOf(b) == c && Acceptable(b)
    ensures LaidOut(c, b, f, i)
  {
    PositionRead(c, b, f, i);
  }

  lemma PositionRead(c: Class, b: Buffer, f: FileHeader, i: nat)
    requires FieldsRead(c, b, f) && ClassOf(b) == c && Acceptable(b)
    ensures HeaderPosition(b, i) == Position(c, f, i)
  {
    PlacesRead(c, b, f);
    PositionIs(c, b, f.phoff, f.phentsize, i);
  }

  lemma PlacesRead(c: Class, b: Buffer, f: FileHeader)
    requires FieldsRead(c, b, f)
    ensures ReadAddr(c, b, if c.wide then 32 else 28) == f.phoff
    ensures ReadHalf(c.le, b, if c.wide then 54 else 42) == f.phentsize
  {
  }

  lemma PositionIs(c: Class, b: Buffer, phoff: nat, phentsize: nat, i: nat)
    requires ClassOf(b) == c && Acceptable(b) && |b| >= c.HeaderSize()
    requires ReadAddr(c, b, if c.wide then 32 else 28) == phoff
    requires ReadHalf(c.le, b, if c.wide then 54 else 42) == phentsize
    ensures HeaderPosition(b, i) == (phoff + i * phentsize) % c.Modulus()
  {
  }

  // ----- whole files -----

  /** b is a file with this header and these program headers, where the header says. */
  predicate IsFile(c: Class, f: FileHeader, hs: seq<ProgramHeader>, b: Buffer) {
    && HoldsFile(c, b, f) && Runnable(c, f) && f.phnum == |hs|
    && forall i :: 0 <= i < |hs| ==> HoldsHeader(c, b, Position(c, f, i), hs[i])
  }

  lemma {:induction false} EncodeLength(le: bool, ds: seq<Datum>)
    ensures |Encode(le, ds)| == Start(ds, |ds|)
    decreases |ds|
  {
    if ds != [] { EncodeLength(le, ds[1..]); }
  }

  lemma HeaderInside(c: Class, b: Buffer, p: nat, h: ProgramHeader)
    requires HoldsHeader(c, b, p, h)
    ensures p + c.PhdrSize() <= |b|
  {
    var ds := HeaderData(c.wide, h);
    EncodeLength(c.le, ds);
    Starts8(ds);
    StartNext(ds, 6);
    StartNext(ds, 7);
  }

  /** What the loader makes of program header h. */
  function GivenOf(c: Class, h: ProgramHeader): Header { if h.ptype == 1 then Loads(SegmentOf(c, h)) else Skips }

  lemma GivenIs(c: Class, b: Buffer, p: nat, h: ProgramHeader)
    requires HoldsHeader(c, b, p, h)
    ensures Given(c, b, p) == GivenOf(c, h)
  {
    HeaderInside(c, b, p, h);
    HeaderReadBack(c, b, p, h);
  }

  /** The headers the loader finds in a file are the headers the file was written with. */
  lemma HeadersFound(c: Class, f: FileHeader, hs: seq<ProgramHeader>, b: Buffer)
    requires IsFile(c, f, hs, b)
    ensures ClassOf(b) == c && Acceptable(b) && HeaderCount(b) == |hs|
    ensures forall i :: 0 <= i < |hs| ==> GivenAll(c, b, Positions(b))[i] == GivenOf(c, hs[i])
  {
    FileReadBack(c, b, f, 0);
    forall i | 0 <= i < |hs| ensures GivenAll(c, b, Positions(b))[i] == GivenOf(c, hs[i]) {
      FileReadBack(c, b, f, i);
      GivenIs(c, b, Position(c, f, i), hs[i]);
    }
  }

  /** How far address a is above the physical address of h, wrapping. */
  function Above(c: Class, h: ProgramHeader, a: Address): nat { (a - h.paddr) % c.Modulus() }

  /** A loadable segment occupies a, with file bytes or the zeros behind them. */
  predicate Occupies(c: Class, h: ProgramHeader, a: Address) {
    h.ptype == 1 && a < c.Modulus() && (Above(c, h, a) < h.filesz || Above(c, h, a) < h.memsz)
  }

  /** The sizes fit 32 bits, and the bytes are in the file. */
  predicate Sized(h: ProgramHeader, b: Buffer) {
    h.ptype == 1 ==> h.filesz < WORD32 && h.memsz < WORD32 && (h.filesz == 0 || h.offset + h.filesz <= |b|)
  }

  /** The byte a loadable segment puts at an address it occupies: from the file at its offset, or zero. */
  function HeaderByte(c: Class, h: ProgramHeader, b: Buffer, a: Address): Byte
    requires h.ptype == 1 && Sized(h, b)
  {
    if Above(c, h, a) < h.filesz then b[h.offset + Above(c, h, a)] else 0
  }

  predicate AllSized(hs: seq<ProgramHeader>, b: Buffer) { forall i :: 0 <= i < |hs| ==> Sized(hs[i], b) }

  /** Header j is the last that occupies a; -1 when none does. */
  predicate LastOccupant(c: Class, hs: seq<ProgramHeader>, a: Address, j: int) {
    -1 <= j < |hs| && (j >= 0 ==> Occupies(c, hs[j], a)) && forall i :: j < i < |hs| ==> !Occupies(c, hs[i], a)
  }

  lemma GoodIs(c: Class, b: Buffer, p: nat, h: ProgramHeader)
    requires HoldsHeader(c, b, p, h) && Sized(h, b)
    ensures var g := GivenOf(c, h); (g.Loads? ==> Proper(g.segment)) && Good(g, b)
  {
    HeaderInside(c, b, p, h);
    HeaderReadBack(c, b, p, h);
  }

  lemma AllGoodIs(c: Class, f: FileHeader, hs: seq<ProgramHeader>, b: Buffer, gs: seq<Header>)
    requires IsFile(c, f, hs, b) && AllSized(hs, b)
    requires |gs| == |hs| && forall i :: 0 <= i < |hs| ==> gs[i] == GivenOf(c, hs[i])
    ensures AllGood(gs, b)
  {
    forall i | 0 <= i < |hs| ensures (gs[i].Loads? ==> Proper(gs[i].segment)) && Good(gs[i], b) {
      GoodIs(c, b, Position(c, f, i), hs[i]);
    }
  }

  lemma CoversIs(c: Class, h: ProgramHeader, g: Header, a: Address)
    requires g == GivenOf(c, h) && (g.Loads? ==> Proper(g.segment))
    ensures HeaderCovers(g, a) == Occupies(c, h, a)
  {
  }

  lemma LastCovers(c: Class, hs: seq<ProgramHeader>, b: Buffer, gs: seq<Header>, a: Address, j: int)
    requires AllGood(gs, b) && LastOccupant(c, hs, a, j)
    requires |gs| == |hs| && forall i :: 0 <= i < |hs| ==> gs[i] == GivenOf(c, hs[i])
    ensures (j >= 0 ==> HeaderCovers(gs[j], a)) && forall i :: j < i < |gs| ==> !HeaderCovers(gs[i], a)
  {
    forall i | 0 <= i < |hs| ensures HeaderCovers(gs[i], a) == Occupies(c, hs[i], a) { CoversIs(c, hs[i], gs[i], a); }
  }

  lemma ByteIs(c: Class, h: ProgramHeader, b: Buffer, a: Address)
    requires Sized(h, b) && Occupies(c, h, a) && Proper(SegmentOf(c, h))
    ensures InFile(SegmentOf(c, h), b) && SegmentByte(SegmentOf(c, h), b, a) == HeaderByte(c, h, b, a)
  {
  }

  /** Loading a file written from headers whose segments are sized and inside it: it loads, and an address holds
      the byte of the last loadable segment that occupies it, or what it held. */
  lemma FileImage(c: Class, f: FileHeader, hs: seq<ProgramHeader>, b: Buffer, a: Address, before: Byte, j: int)
    requires IsFile(c, f, hs, b) && AllSized(hs, b) && LastOccupant(c, hs, a, j)
    ensures Loadable(b)
    ensures ImageByte(b, FileHeaders(b), a, before) == if j < 0 then before else HeaderByte(c, hs[j], b, a)
  {
    HeadersFound(c, f, hs, b);
    var gs := GivenAll(c, b, Positions(b));
    AllGoodIs(c, f, hs, b, gs);
    LastCovers(c, hs, b, gs, a, j);
    GoodFileImage(b, a, before, j);
    if j >= 0 { ByteIs(c, hs[j], b, a); }
  }

  /** The file bytes the loader will read are in the file: it reads as many as the low 32 bits of the size say. */
  predicate Readable(h: ProgramHeader, b: Buffer) {
    h.ptype == 1 ==> h.filesz % WORD32 == 0 || h.offset + h.filesz % WORD32 <= |b|
  }

  /** A file written from headers loads exactly when all its loadable segments can be read. */
  lemma FileLoads(c: Class, f: FileHeader, hs: seq<ProgramHeader>, b: Buffer)
    requires IsFile(c, f, hs, b)
    ensures Loadable(b) <==> forall i :: 0 <= i < |hs| ==> Readable(hs[i], b)
  {
    HeadersFound(c, f, hs, b);
    var cs := FileHeaders(b);
    forall i | 0 <= i < |hs| ensures cs[i].Stops? <==> !Readable(hs[i], b) {
      FileReadBack(c, b, f, i);
      CheckedAt(c, b, Positions(b), i);
      StopsIs(c, b, Position(c, f, i), hs[i]);
    }
  }

  lemma StopsIs(c: Class, b: Buffer, p: nat, h: ProgramHeader)
    requires HoldsHeader(c, b, p, h)
    ensures Checked(Given(c, b, p), b).Stops? <==> !Readable(h, b)
  {
    GivenIs(c, b, p, h);
    if h.ptype == 1 { SegmentErrorExact(Narrowed(SegmentOf(c, h)), b); }
  }

  /** `loadELFHdr` on such a file. */
  method LoadFile(memory: BlockList<Byte>, ghost c: Class, ghost f: FileHeader, ghost hs: seq<ProgramHeader>, b: Buffer)
      returns (error: Option<LoadError>, is32bit: bool, entry: nat)
    requires memory.Valid() && IsFile(c, f, hs, b)
    modifies memory.Repr()
    ensures memory.Valid() && fresh(memory.Repr() - old(memory.Repr()))
    ensures error.None? <==> forall i :: 0 <= i < |hs| ==> Readable(hs[i], b)
    ensures error.None? ==> is32bit == !c.wide && (c.le ==> entry == f.entry)
    ensures AllSized(hs, b) ==> error.None? && forall a: Address, j :: LastOccupant(c, hs, a, j) ==>
              memory.contents[a] == if j < 0 then old(memory.contents)[a] else HeaderByte(c, hs[j], b, a)
  {
    FileLoads(c, f, hs, b);
    FileReadBack(c, b, f, 0);
    IdentRead(c, b, f);
    ghost var before := memory.contents;
    error, is32bit, entry := LoadELFHdr(memory, b);
    if AllSized(hs, b) {
      forall a: Address, j | LastOccupant(c, hs, a, j)
        ensures ImageByte(b, FileHeaders(b), a, before[a]) == if j < 0 then before[a] else HeaderByte(c, hs[j], b, a)
        ensures Loadable(b)
      {
        FileImage(c, f, hs, b, a, before[a], j);
      }
      SizedReadable(hs, b);
    }
  }

  lemma SizedReadable(hs: seq<ProgramHeader>, b: Buffer)
    requires AllSized(hs, b)
    ensures forall i :: 0 <= i < |hs| ==> Readable(hs[i], b)
  {
    forall i | 0 <= i < |hs| ensures Readable(hs[i], b) {
      assert Sized(hs[i], b);
      if hs[i].ptype == 1 { SmallMod(hs[i].filesz, WORD32); }
    }
  }
}
