/** The ELF loader of the C runtime (lib/elf.c) over the block-list memory: header checks, program headers in
    both classes and both byte orders, and what memory holds afterwards. */
module Elf {
  import opened Wrappers
  import opened Ints
  import opened Rts
  import opened ByteOrder

  /** The file; its length is a C `int`. */
  type Buffer = b: seq<Byte> | |b| < 0x8000_0000

  const WORD32: int := 0x1_0000_0000

  datatype LoadError = TooSmall | BadMagic | BadType | BadClass | HeaderOverrun | SectionOverrun | OutsideBuffer

  // ----- fields -----

  function LittleEndian(b: seq<Byte>, at: nat, n: nat): (v: nat)
    requires at + n <= |b|
    decreases n
  {
    if n == 0 then 0 else b[at] + 256 * LittleEndian(b, at + 1, n - 1)
  }

  function BigEndian(b: seq<Byte>, at: nat, n: nat): nat
    requires at + n <= |b|
    decreases n
  {
    if n == 0 then 0 else BigEndian(b, at, n - 1) * 256 + b[at + n - 1]
  }

  /** The n-byte field at `at` in the declared byte order. */
  function Field(le: bool, b: seq<Byte>, at: nat, n: nat): nat
    requires at + n <= |b|
  {
    if le then LittleEndian(b, at, n) else BigEndian(b, at, n)
  }

  lemma {:induction false} LittleEndianByte(b: seq<Byte>, at: nat, n: nat, j: nat)
    requires at + n <= |b| && j < n
    ensures LittleEndian(b, at, n) / Pow2(8 * j) % 256 == b[at + j]
    decreases j
  {
    var x := LittleEndian(b, at, n);
    assert x / 256 == LittleEndian(b, at + 1, n - 1) && x % 256 == b[at];
    if j == 0 {
      assert Pow2(8 * j) == 1;
    } else {
      LittleEndianByte(b, at + 1, n - 1, j - 1);
      assert Pow2(8) == 256;
      DivModSplit(x, 8, 8 * (j - 1));
    }
  }

  lemma {:induction false} LittleEndianRange(b: seq<Byte>, at: nat, n: nat)
    requires at + n <= |b|
    ensures LittleEndian(b, at, n) < Pow2(8 * n)
    decreases n
  {
    if n > 0 {
      LittleEndianRange(b, at + 1, n - 1);
      assert Pow2(8) == 256;
      Pow2Add(8, 8 * (n - 1));
    }
  }

  /** Gathering the bytes of the little-endian reading high byte first is the big-endian reading. */
  lemma {:induction false} SwappedIsBigEndian(b: seq<Byte>, at: nat, n: nat, k: nat)
    requires at + n <= |b| && k <= n
    ensures Gathered(LittleEndian(b, at, n), k) == BigEndian(b, at, k)
    decreases k
  {
    if k > 0 {
      SwappedIsBigEndian(b, at, n, k - 1);
      LittleEndianByte(b, at, n, k - 1);
    }
  }

  /** `rdHalf`, `rdWord` and `rdXword`: a little-endian read, byte-swapped for big-endian files, is the field. */
  function ReadHalf(le: bool, b: seq<Byte>, at: nat): (v: nat)
    requires at + 2 <= |b|
    ensures v == Field(le, b, at, 2) && v < 0x1_0000
  {
    var x := LittleEndian(b, at, 2);
    HalfFacts(b, at);
    if le then x else Rev16(x)
  }

  lemma HalfFacts(b: seq<Byte>, at: nat)
    requires at + 2 <= |b|
    ensures LittleEndian(b, at, 2) < 0x1_0000
    ensures BigEndian(b, at, 2) == Rev16(LittleEndian(b, at, 2)) && BigEndian(b, at, 2) < 0x1_0000
  {
    var x := LittleEndian(b, at, 2);
    assert Pow2(8) == 256;
    Pow2Square(8, 256);
    LittleEndianRange(b, at, 2);
    Rev16IsReversal(x);
    GatheredIsReversal(x, 2);
    SwappedIsBigEndian(b, at, 2, 2);
    ReversedBytesBits(16, x);
  }

  function ReadWord(le: bool, b: seq<Byte>, at: nat): (v: nat)
    requires at + 4 <= |b|
    ensures v == Field(le, b, at, 4) && v < WORD32
  {
    var x := LittleEndian(b, at, 4);
    WordFacts(b, at);
    if le then x else Rev32(x)
  }

  lemma WordFacts(b: seq<Byte>, at: nat)
    requires at + 4 <= |b|
    ensures LittleEndian(b, at, 4) < WORD32
    ensures BigEndian(b, at, 4) == Rev32(LittleEndian(b, at, 4)) && BigEndian(b, at, 4) < WORD32
  {
    var x := LittleEndian(b, at, 4);
    assert Pow2(8) == 256;
    Pow2Square(8, 256);
    Pow2Square(16, 0x1_0000);
    LittleEndianRange(b, at, 4);
    Rev32IsReversal(x);
    GatheredIsReversal(x, 4);
    SwappedIsBigEndian(b, at, 4, 4);
    ReversedBytesBits(32, x);
  }

  function ReadXword(le: bool, b: seq<Byte>, at: nat): (v: nat)
    requires at + 8 <= |b|
    ensures v == Field(le, b, at, 8) && v < WORD
  {
    var x := LittleEndian(b, at, 8);
    XwordFacts(b, at);
    if le then x else Rev64(x)
  }

  lemma XwordFacts(b: seq<Byte>, at: nat)
    requires at + 8 <= |b|
    ensures LittleEndian(b, at, 8) < WORD
    ensures BigEndian(b, at, 8) == Rev64(LittleEndian(b, at, 8)) && BigEndian(b, at, 8) < WORD
  {
    var x := LittleEndian(b, at, 8);
    WordIsPow2();
    LittleEndianRange(b, at, 8);
    Rev64IsReversal(x);
    GatheredIsReversal(x, 8);
    SwappedIsBigEndian(b, at, 8, 8);
    ReversedBytesBits(64, x);
  }

  lemma {:induction false} BigEndianByte(b: seq<Byte>, at: nat, n: nat, j: nat)
    requires at + n <= |b| && j < n
    ensures BigEndian(b, at, n) / Pow2(8 * j) % 256 == b[at + n - 1 - j]
    decreases j
  {
    var x := BigEndian(b, at, n);
    assert x / 256 == BigEndian(b, at, n - 1) && x % 256 == b[at + n - 1];
    if j == 0 {
      assert Pow2(8 * j) == 1;
    } else {
      BigEndianByte(b, at, n - 1, j - 1);
      assert Pow2(8) == 256;
      DivModSplit(x, 8, 8 * (j - 1));
    }
  }

  /** The n bytes of d from k on are the n bytes of b from `at` on, backwards. */
  predicate Mirrors(b: seq<Byte>, at: nat, n: nat, d: seq<Byte>, k: nat)
    requires at + n <= |b| && k + n <= |d|
    decreases n
  {
    n == 0 || (d[k] == b[at + n - 1] && Mirrors(b, at, n - 1, d, k + 1))
  }

  /** The big-endian reading of some bytes is the little-endian reading of those bytes backwards. */
  lemma {:induction false} BackwardsReading(b: seq<Byte>, at: nat, n: nat, d: seq<Byte>, k: nat)
    requires at + n <= |b| && k + n <= |d| && Mirrors(b, at, n, d, k)
    ensures LittleEndian(d, k, n) == BigEndian(b, at, n)
    decreases n
  {
    if n > 0 { BackwardsReading(b, at, n - 1, d, k + 1); }
  }

  /** The n bytes at `at` read the same backwards. */
  predicate Palindrome(b: seq<Byte>, at: nat, n: nat)
    requires at + n <= |b|
  {
    forall i {:trigger b[i]} :: at <= i < at + n ==> b[i] == b[at + n - 1 - (i - at)]
  }

  lemma {:induction false} PalindromeMirrors(b: seq<Byte>, at: nat, n: nat, m: nat)
    requires at + n <= |b| && m <= n && Palindrome(b, at, n)
    ensures Mirrors(b, at, m, b, at + n - m)
    decreases m
  {
    if m > 0 {
      PalindromeMirrors(b, at, n, m - 1);
      assert b[at + n - m] == b[at + m - 1];
    }
  }

  /** A field read little-endian is the declared field exactly in a little-endian file or when its bytes read the
      same backwards. */
  lemma UnswappedExact(le: bool, b: seq<Byte>, at: nat, n: nat)
    requires at + n <= |b|
    ensures LittleEndian(b, at, n) == Field(le, b, at, n) <==> le || Palindrome(b, at, n)
  {
    if !le {
      if Palindrome(b, at, n) {
        PalindromeMirrors(b, at, n, n);
        BackwardsReading(b, at, n, b, at);
      }
      if LittleEndian(b, at, n) == BigEndian(b, at, n) { SameReading(b, at, n); }
    }
  }

  lemma SameReading(b: seq<Byte>, at: nat, n: nat)
    requires at + n <= |b| && LittleEndian(b, at, n) == BigEndian(b, at, n)
    ensures Palindrome(b, at, n)
  {
    forall i | at <= i < at + n ensures b[i] == b[at + n - 1 - (i - at)] {
      LittleEndianByte(b, at, n, i - at);
      BigEndianByte(b, at, n, i - at);
    }
  }

  // ----- headers -----

  /** The file's class (64-bit or not) and byte order. */
  datatype Class = Class(wide: bool, le: bool)
  {
    function HeaderSize(): nat { if wide then 64 else 52 }
    function PhdrSize(): nat { if wide then 56 else 32 }
    /** Addresses and offsets are computed modulo this. */
    function Modulus(): int { if wide then WORD else WORD32 }
  }

  /** An address-sized field. */
  function ReadAddr(c: Class, b: seq<Byte>, at: nat): (v: nat)
    requires at + (if c.wide then 8 else 4) <= |b|
    ensures v == Field(c.le, b, at, if c.wide then 8 else 4) && v < c.Modulus()
  {
    if c.wide then ReadXword(c.le, b, at) else ReadWord(c.le, b, at)
  }

  /** `checkELFHdr`: the class of an acceptable file, or what is wrong with it. */
  function CheckHeader(b: Buffer): (Class, Option<LoadError>) {
    var bad := Class(false, true);
    if |b| < 52 then (bad, Some(TooSmall))
    else if b[..4] != [0x7f, 0x45, 0x4c, 0x46] then (bad, Some(BadMagic))
    else if b[4] == 1 then
      var c := Class(false, b[5] == 1);
      if ReadHalf(c.le, b, 16) != 2 || (ReadHalf(c.le, b, 18) != 0x28 && ReadHalf(c.le, b, 18) != 0xF3)
      then (c, Some(BadType)) else (c, None)
    else if b[4] == 2 then
      var c := Class(true, b[5] == 1);
      if |b| < 64 then (c, Some(TooSmall))
      else if ReadHalf(c.le, b, 16) != 2 || (ReadHalf(c.le, b, 18) != 0xB7 && ReadHalf(c.le, b, 18) != 0xF3)
      then (c, Some(BadType)) else (c, None)
    else (bad, Some(BadClass))
  }

  function ClassOf(b: Buffer): Class { CheckHeader(b).0 }

  predicate Acceptable(b: Buffer) { CheckHeader(b).1.None? }

  lemma HeaderFits(b: Buffer)
    requires Acceptable(b)
    ensures ClassOf(b).HeaderSize() <= |b|
  {
  }

  /** A loadable segment as its program header gives it. */
  datatype Segment = Segment(modulus: int, offset: nat, address: nat, filesz: nat, memsz: nat)

  predicate Proper(g: Segment) {
    (g.modulus == WORD || g.modulus == WORD32) && g.address < g.modulus && g.offset < g.modulus
  }

  /** The sizes the loader works with: `Elf64_Word` parameters keep only 32 bits. */
  function Narrowed(g: Segment): Segment { g.(filesz := g.filesz % WORD32, memsz := g.memsz % WORD32) }

  const PT_LOAD := 1

  /** The segment of the program header at p, if it is loadable. */
  function HeaderSegment(c: Class, b: Buffer, p: nat): (g: Option<Segment>)
    requires p + c.PhdrSize() <= |b|
    ensures g.Some? ==> Proper(g.value)
  {
    if ReadWord(c.le, b, p) != PT_LOAD then None
    else if c.wide then
      Some(Segment(WORD, ReadXword(c.le, b, p + 8), ReadXword(c.le, b, p + 24), ReadXword(c.le, b, p + 32),
                   ReadXword(c.le, b, p + 40)))
    else
      Some(Segment(WORD32, ReadWord(c.le, b, p + 4), ReadWord(c.le, b, p + 12), ReadWord(c.le, b, p + 16),
                   ReadWord(c.le, b, p + 20)))
  }

  function HeaderCount(b: Buffer): nat
    requires Acceptable(b)
  {
    HeaderFits(b);
    ReadHalf(ClassOf(b).le, b, if ClassOf(b).wide then 56 else 44)
  }

  /** File position of program header i. */
  function HeaderPosition(b: Buffer, i: nat): nat
    requires Acceptable(b)
  {
    HeaderFits(b);
    var c := ClassOf(b);
    (ReadAddr(c, b, if c.wide then 32 else 28) + i * ReadHalf(c.le, b, if c.wide then 54 else 42)) % c.Modulus()
  }

  // ----- what loading a segment does -----

  /** How far a is above the segment's base, wrapping. */
  function Distance(g: Segment, a: Address): (i: nat)
    requires Proper(g)
    ensures i < g.modulus
  {
    (a - g.address) % g.modulus
  }

  predicate Covers(g: Segment, a: Address)
    requires Proper(g)
  {
    a < g.modulus && (Distance(g, a) < g.filesz || Distance(g, a) < g.memsz)
  }

  /** The file bytes a segment needs are in the file. */
  predicate InFile(g: Segment, b: Buffer) { g.filesz == 0 || g.offset + g.filesz <= |b| }

  /** The byte a segment puts at an address it covers: from the file, zero behind it. */
  function SegmentByte(g: Segment, b: Buffer, a: Address): Byte
    requires Proper(g) && InFile(g, b) && Covers(g, a)
  {
    if Distance(g, a) < g.filesz then b[g.offset + Distance(g, a)] else 0
  }

  /** The check of the source, with its unsigned wrap-around, and the error a failing one gives. */
  function SegmentError(g: Segment, b: Buffer): Option<LoadError>
    requires Proper(g)
  {
    if g.filesz > (|b| - g.offset) % g.modulus then Some(SectionOverrun)
    else if g.filesz > 0 && g.offset > |b| then Some(OutsideBuffer)
    else None
  }

  /** Loading goes through exactly when the segment's bytes are in the file. */
  lemma SegmentErrorExact(g: Segment, b: Buffer)
    requires Proper(g)
    ensures SegmentError(g, b).None? <==> InFile(g, b)
  {
    if g.offset <= |b| { SmallMod(|b| - g.offset, g.modulus); }
    assert (|b| - g.offset) % g.modulus >= 0;
  }

  lemma DistanceOf(g: Segment, i: nat, a: Address)
    requires Proper(g) && i < g.modulus && a < g.modulus
    ensures (g.address + i) % g.modulus == a <==> Distance(g, a) == i
  {
    var s, m := g.address + i, g.modulus;
    if s < m { SmallMod(s, m); } else { ModLess(s, m); SmallMod(s - m, m); }
    if a >= g.address {
      SmallMod(a - g.address, m);
    } else {
      ModShift(a - g.address, 1, m);
      SmallMod(a - g.address + m, m);
    }
  }

  /** The byte at a when the first `done` bytes of a segment have been written over `before`. */
  function Painted(g: Segment, b: Buffer, done: nat, a: Address, before: Byte): Byte
    requires Proper(g) && InFile(g, b)
  {
    if a < g.modulus && Distance(g, a) < done then
      if Distance(g, a) < g.filesz then b[g.offset + Distance(g, a)] else 0
    else before
  }

  lemma PaintNext(g: Segment, b: Buffer, i: nat, a: Address, before: Byte)
    requires Proper(g) && InFile(g, b) && i < g.modulus
    ensures 0 <= (g.address + i) % g.modulus < g.modulus
    ensures Painted(g, b, i + 1, a, before)
         == if a == (g.address + i) % g.modulus then (if i < g.filesz then b[g.offset + i] else 0)
            else Painted(g, b, i, a, before)
  {
    if a < g.modulus { DistanceOf(g, i, a); }
  }

  /** One iteration of the loops: byte i of the segment. */
  method PutByte(memory: BlockList<Byte>, g: Segment, b: Buffer, i: nat, ghost before: map<int, Byte>)
    requires Proper(g) && InFile(g, b) && i < g.modulus && memory.Valid()
    requires forall a: Address :: a in before
    requires forall a: Address :: memory.contents[a] == Painted(g, b, i, a, before[a])
    modifies memory.Repr()
    ensures memory.Valid() && fresh(memory.Repr() - old(memory.Repr()))
    ensures forall a: Address :: memory.contents[a] == Painted(g, b, i + 1, a, before[a])
  {
    forall a: Address
      ensures Painted(g, b, i + 1, a, before[a])
           == if a == (g.address + i) % g.modulus then (if i < g.filesz then b[g.offset + i] else 0)
              else Painted(g, b, i, a, before[a])
    {
      PaintNext(g, b, i, a, before[a]);
    }
    ModInWord(g, i);
    memory.Write((g.address + i) % g.modulus, if i < g.filesz then b[g.offset + i] else 0);
  }

  lemma ModInWord(g: Segment, i: nat)
    requires Proper(g)
    ensures 0 <= (g.address + i) % g.modulus < WORD
  {
  }

  /** `loadBlock32` and `loadBlock64`: the file bytes, then zeros up to the memory size. */
  method LoadBlock(memory: BlockList<Byte>, g: Segment, b: Buffer)
    requires Proper(g) && InFile(g, b) && g.filesz < WORD32 && g.memsz < WORD32 && memory.Valid()
    modifies memory.Repr()
    ensures memory.Valid() && fresh(memory.Repr() - old(memory.Repr()))
    ensures forall a: Address ::
      memory.contents[a] == if Covers(g, a) then SegmentByte(g, b, a) else old(memory.contents)[a]
  {
    ghost var before := memory.contents;
    var i := 0;
    while i < g.filesz
      invariant 0 <= i <= g.filesz && memory.Valid() && fresh(memory.Repr() - old(memory.Repr()))
      invariant forall a: Address :: memory.contents[a] == Painted(g, b, i, a, before[a])
    {
      PutByte(memory, g, b, i, before);
      i := i + 1;
    }
    while i < g.memsz
      invariant g.filesz <= i <= (if g.memsz > g.filesz then g.memsz else g.filesz)
      invariant memory.Valid() && fresh(memory.Repr() - old(memory.Repr()))
      invariant forall a: Address :: memory.contents[a] == Painted(g, b, i, a, before[a])
    {
      PutByte(memory, g, b, i, before);
      i := i + 1;
    }
  }

  // ----- program headers -----

  /** What the loader makes of a program header: an error, nothing, or a segment to load. */
  datatype Header = Stops(error: LoadError) | Skips | Loads(segment: Segment)

  /** The header at p as the file gives it. */
  function Given(c: Class, b: Buffer, p: nat): (h: Header)
    ensures h.Loads? ==> Proper(h.segment)
  {
    if p + c.PhdrSize() > |b| then Stops(HeaderOverrun)
    else
      match HeaderSegment(c, b, p)
      case None => Skips
      case Some(g) => Loads(g)
  }

  /** A header checked against the file, with the sizes the loader uses. */
  function Checked(h: Header, b: Buffer): (r: Header)
    requires h.Loads? ==> Proper(h.segment)
    ensures r.Loads? ==> Proper(r.segment) && InFile(r.segment, b)
  {
    match h
    case Stops(_) => h
    case Skips => h
    case Loads(g) =>
      SegmentErrorExact(Narrowed(g), b);
      match SegmentError(Narrowed(g), b) case Some(e) => Stops(e) case None => Loads(Narrowed(g))
  }

  /** The byte a checked header leaves at a, given what was there. */
  function AfterHeader(h: Header, b: Buffer, a: Address, before: Byte): Byte
    requires h.Loads? ==> Proper(h.segment) && InFile(h.segment, b)
  {
    if h.Loads? && Covers(h.segment, a) then SegmentByte(h.segment, b, a) else before
  }

  /** `loadProgHdr32` and `loadProgHdr64`. */
  method LoadProgHdr(memory: BlockList<Byte>, c: Class, b: Buffer, p: nat) returns (error: Option<LoadError>)
    requires c.PhdrSize() <= |b| && memory.Valid()
    modifies memory.Repr()
    ensures memory.Valid() && fresh(memory.Repr() - old(memory.Repr()))
    ensures var h := Checked(Given(c, b, p), b);
            if h.Stops? then error == Some(h.error) && memory.contents == old(memory.contents)
            else error.None? && forall a: Address :: memory.contents[a] == AfterHeader(h, b, a, old(memory.contents)[a])
  {
    if p > |b| - c.PhdrSize() { return Some(HeaderOverrun); }
    error := None;
    var header := HeaderSegment(c, b, p);
    if header.Some? {
      error := LoadSegment(memory, header.value, b);
    }
  }

  /** The size check and the load. */
  method LoadSegment(memory: BlockList<Byte>, given: Segment, b: Buffer) returns (error: Option<LoadError>)
    requires Proper(given) && memory.Valid()
    modifies memory.Repr()
    ensures memory.Valid() && fresh(memory.Repr() - old(memory.Repr()))
    ensures var h := Checked(Loads(given), b);
            if h.Stops? then error == Some(h.error) && memory.contents == old(memory.contents)
            else error.None? && forall a: Address :: memory.contents[a] == AfterHeader(h, b, a, old(memory.contents)[a])
  {
    var g := Narrowed(given);
    if g.filesz > (|b| - g.offset) % g.modulus { return Some(SectionOverrun); }
    if g.filesz > 0 && g.offset > |b| { return Some(OutsideBuffer); }
    SegmentErrorExact(g, b);
    LoadBlock(memory, g, b);
    error := None;
  }

  // ----- the whole file -----

  /** Headers whose segments can be loaded from b. */
  predicate Sound(hs: seq<Header>, b: Buffer) {
    forall i :: 0 <= i < |hs| && hs[i].Loads? ==> Proper(hs[i].segment) && InFile(hs[i].segment, b)
  }

  predicate AllLoad(hs: seq<Header>) { forall i :: 0 <= i < |hs| ==> !hs[i].Stops? }

  /** The byte at a after the headers have been processed one after the other over `before`. */
  function ImageByte(b: Buffer, hs: seq<Header>, a: Address, before: Byte): Byte
    requires Sound(hs, b)
  {
    if hs == [] then before
    else AfterHeader(hs[|hs| - 1], b, a, ImageByte(b, hs[..|hs| - 1], a, before))
  }

  predicate HeaderCovers(h: Header, a: Address)
    requires h.Loads? ==> Proper(h.segment)
  {
    h.Loads? && Covers(h.segment, a)
  }

  /** The last segment covering an address decides its byte, a file byte or zero behind the file part; an
      address no segment covers keeps what it had. */
  lemma {:induction false} LastSegmentWins(b: Buffer, hs: seq<Header>, a: Address, before: Byte, j: int)
    requires Sound(hs, b) && -1 <= j < |hs|
    requires j >= 0 ==> HeaderCovers(hs[j], a)
    requires forall i :: j < i < |hs| ==> !HeaderCovers(hs[i], a)
    ensures ImageByte(b, hs, a, before) == if j < 0 then before else SegmentByte(hs[j].segment, b, a)
    decreases |hs|
  {
    if hs != [] && j != |hs| - 1 { LastSegmentWins(b, hs[..|hs| - 1], a, before, j); }
  }

  lemma ImageStep(b: Buffer, hs: seq<Header>, i: nat, a: Address, before: Byte)
    requires Sound(hs, b) && i < |hs|
    ensures ImageByte(b, hs[..i + 1], a, before) == AfterHeader(hs[i], b, a, ImageByte(b, hs[..i], a, before))
  {
    assert hs[..i + 1][..i] == hs[..i] && hs[..i + 1][i] == hs[i];
  }

  /** The headers at these positions, checked. */
  function CheckedAll(c: Class, b: Buffer, ps: seq<nat>): (hs: seq<Header>)
    ensures |hs| == |ps| && Sound(hs, b)
  {
    if ps == [] then [] else CheckedAll(c, b, ps[..|ps| - 1]) + [Checked(Given(c, b, ps[|ps| - 1]), b)]
  }

  lemma {:induction false} CheckedAt(c: Class, b: Buffer, ps: seq<nat>, i: nat)
    requires i < |ps|
    ensures CheckedAll(c, b, ps)[i] == Checked(Given(c, b, ps[i]), b)
    decreases |ps|
  {
    if i < |ps| - 1 { CheckedAt(c, b, ps[..|ps| - 1], i); }
  }

  /** Memory holds the image of the first i headers over `before`. */
  ghost predicate HoldsImage(contents: map<int, Byte>, b: Buffer, hs: seq<Header>, i: nat, before: map<int, Byte>)
    requires Sound(hs, b) && i <= |hs|
  {
    forall a: Address :: a in contents && a in before && contents[a] == ImageByte(b, hs[..i], a, before[a])
  }

  lemma ImageExtended(b: Buffer, hs: seq<Header>, i: nat, before: map<int, Byte>, m: map<int, Byte>, m': map<int, Byte>)
    requires Sound(hs, b) && i < |hs| && HoldsImage(m, b, hs, i, before)
    requires forall a: Address :: a in m' && m'[a] == AfterHeader(hs[i], b, a, m[a])
    ensures HoldsImage(m', b, hs, i + 1, before)
  {
    forall a: Address ensures a in m' && a in before && m'[a] == ImageByte(b, hs[..i + 1], a, before[a]) {
      ImageStep(b, hs, i, a, before[a]);
      assert m[a] == ImageByte(b, hs[..i], a, before[a]);
    }
  }

  /** One iteration: program header i. */
  method LoadNext(memory: BlockList<Byte>, c: Class, b: Buffer, ps: seq<nat>, i: nat, ghost hs: seq<Header>,
                  ghost before: map<int, Byte>) returns (error: Option<LoadError>)
    requires c.PhdrSize() <= |b| && memory.Valid() && i < |ps| && hs == CheckedAll(c, b, ps)
    requires HoldsImage(memory.contents, b, hs, i, before)
    modifies memory.Repr()
    ensures memory.Valid() && fresh(memory.Repr() - old(memory.Repr()))
    ensures error == if hs[i].Stops? then Some(hs[i].error) else None
    ensures HoldsImage(memory.contents, b, hs, if error.Some? then i else i + 1, before)
  {
    CheckedAt(c, b, ps, i);
    error := LoadProgHdr(memory, c, b, ps[i]);
    if error.None? { ImageExtended(b, hs, i, before, old(memory.contents), memory.contents); }
  }

  lemma ImageStart(b: Buffer, hs: seq<Header>, m: map<int, Byte>)
    requires Sound(hs, b) && forall a: Address :: a in m
    ensures HoldsImage(m, b, hs, 0, m)
  {
    assert hs[..0] == [];
  }

  /** None of the first n headers stops. */
  predicate NoneStops(hs: seq<Header>, n: nat)
    requires n <= |hs|
  {
    forall j :: 0 <= j < n ==> !hs[j].Stops?
  }

  lemma NextPasses(hs: seq<Header>, n: nat)
    requires n < |hs| && NoneStops(hs, n) && !hs[n].Stops?
    ensures NoneStops(hs, n + 1)
  {
  }

  /** Header n is the first that stops, or n is their number and none does. */
  predicate FirstStop(hs: seq<Header>, n: nat) { n <= |hs| && NoneStops(hs, n) && (n < |hs| ==> hs[n].Stops?) }

  /** What the headers come to: the error of the one that stops. */
  function StopError(hs: seq<Header>, n: nat): Option<LoadError>
    requires FirstStop(hs, n)
  {
    if n < |hs| then Some(hs[n].error) else None
  }

  /** The loop over the program headers; hs are those headers, checked. */
  method LoadHeaders(memory: BlockList<Byte>, c: Class, b: Buffer, ps: seq<nat>, ghost hs: seq<Header>)
      returns (error: Option<LoadError>, ghost n: nat)
    requires c.PhdrSize() <= |b| && memory.Valid() && hs == CheckedAll(c, b, ps)
    modifies memory.Repr()
    ensures memory.Valid() && fresh(memory.Repr() - old(memory.Repr()))
    ensures FirstStop(hs, n) && error == StopError(hs, n)
    ensures HoldsImage(memory.contents, b, hs, n, old(memory.contents))
  {
    ghost var before := memory.contents;
    ImageStart(b, hs, before);
    n := 0;
    error := None;
    for i := 0 to |ps|
      invariant n == i && error.None?
      invariant memory.Valid() && fresh(memory.Repr() - old(memory.Repr()))
      invariant NoneStops(hs, i)
      invariant HoldsImage(memory.contents, b, hs, i, before)
    {
      error := LoadNext(memory, c, b, ps, i, hs, before);
      if error.Some? { return; }
      NextPasses(hs, i);
      n := i + 1;
    }
  }

  /** The positions of all program headers. */
  function Positions(b: Buffer): (ps: seq<nat>)
    requires Acceptable(b)
    ensures |ps| == HeaderCount(b)
  {
    seq(HeaderCount(b), i requires 0 <= i < HeaderCount(b) => HeaderPosition(b, i))
  }

  function FileHeaders(b: Buffer): (hs: seq<Header>)
    requires Acceptable(b)
    ensures |hs| == HeaderCount(b) && Sound(hs, b)
  {
    CheckedAll(ClassOf(b), b, Positions(b))
  }

  /** The file can be loaded: acceptable header, every program header and every segment inside the file. */
  predicate Loadable(b: Buffer) { Acceptable(b) && AllLoad(FileHeaders(b)) }

  /** Memory after loading: the image of the headers before the first that stops, over what was there; what was
      there when the file header is refused already. */
  ghost predicate AfterLoad(contents: map<int, Byte>, b: Buffer, before: map<int, Byte>) {
    if !Acceptable(b) then contents == before
    else exists n :: FirstStop(FileHeaders(b), n) && HoldsImage(contents, b, FileHeaders(b), n, before)
  }

  /** The error of a file: its header's, or that of the first program header that stops. */
  ghost predicate FailsWith(b: Buffer, e: LoadError) {
    if !Acceptable(b) then CheckHeader(b).1 == Some(e)
    else exists n :: FirstStop(FileHeaders(b), n) && StopError(FileHeaders(b), n) == Some(e)
  }

  /** The entry point as the loader reports it: the bytes of the field, never swapped. */
  function Entry(b: Buffer): nat
    requires Acceptable(b)
  {
    HeaderFits(b);
    LittleEndian(b, 24, if ClassOf(b).wide then 8 else 4)
  }

  /** The reported entry point is the declared one exactly in little-endian files, and in big-endian files when
      the bytes of the field read the same backwards. */
  lemma EntryExact(b: Buffer)
    requires Acceptable(b)
    ensures var n := if ClassOf(b).wide then 8 else 4;
            Entry(b) == Field(ClassOf(b).le, b, 24, n) <==> ClassOf(b).le || Palindrome(b, 24, n)
  {
    UnswappedExact(ClassOf(b).le, b, 24, if ClassOf(b).wide then 8 else 4);
  }

  /** `loadELFHdr`: succeeds exactly for loadable files, and then every address holds the byte of the image and
      the class and entry point are reported; a file that fails reports the first error, with the headers before
      it loaded. */
  method LoadELFHdr(memory: BlockList<Byte>, b: Buffer) returns (error: Option<LoadError>, is32bit: bool, entry: nat)
    requires memory.Valid()
    modifies memory.Repr()
    ensures memory.Valid() && fresh(memory.Repr() - old(memory.Repr()))
    ensures error.None? <==> Loadable(b)
    ensures error.Some? ==> FailsWith(b, error.value)
    ensures AfterLoad(memory.contents, b, old(memory.contents))
    ensures error.None? ==> is32bit == (b[4] == 1) && entry == Entry(b)
    ensures error.None? ==>
      forall a: Address :: memory.contents[a] == ImageByte(b, FileHeaders(b), a, old(memory.contents)[a])
  {
    is32bit, entry := false, 0;
    var (c, bad) := CheckHeader(b);
    if bad.Some? { return bad, is32bit, entry; }
    HeaderFits(b);
    ghost var n;
    error, n := LoadHeaders(memory, c, b, Positions(b), FileHeaders(b));
    if error.None? {
      assert FileHeaders(b)[..HeaderCount(b)] == FileHeaders(b);
      is32bit := !c.wide;
      entry := LittleEndian(b, 24, if c.wide then 8 else 4);
    }
  }

  // ----- when the sizes fit -----

  /** A header inside the file whose segment, if any, has sizes below 2^32 and its bytes in the file. */
  predicate Good(h: Header, b: Buffer)
    requires h.Loads? ==> Proper(h.segment)
  {
    !h.Stops? && (h.Loads? ==> h.segment.filesz < WORD32 && h.segment.memsz < WORD32 && InFile(h.segment, b))
  }

  /** The headers at these positions as the file gives them. */
  function GivenAll(c: Class, b: Buffer, ps: seq<nat>): (hs: seq<Header>)
    ensures |hs| == |ps| && forall i :: 0 <= i < |ps| ==> hs[i] == Given(c, b, ps[i])
    ensures forall i :: 0 <= i < |ps| && hs[i].Loads? ==> Proper(hs[i].segment)
  {
    seq(|ps|, i requires 0 <= i < |ps| => Given(c, b, ps[i]))
  }

  /** A good header is loaded as the file gives it. */
  lemma GoodKept(h: Header, b: Buffer)
    requires (h.Loads? ==> Proper(h.segment)) && Good(h, b)
    ensures Checked(h, b) == h
  {
    if h.Loads? {
      SmallMod(h.segment.filesz, WORD32);
      SmallMod(h.segment.memsz, WORD32);
      SegmentErrorExact(h.segment, b);
    }
  }

  predicate AllGood(hs: seq<Header>, b: Buffer) {
    forall i :: 0 <= i < |hs| ==> (hs[i].Loads? ==> Proper(hs[i].segment)) && Good(hs[i], b)
  }

  /** A file with an acceptable header and good program headers: loading succeeds, and every address holds the
      byte of the last segment covering it as the file gives it, or what it held if none does. */
  lemma GoodFileImage(b: Buffer, a: Address, before: Byte, j: int)
    requires Acceptable(b) && AllGood(GivenAll(ClassOf(b), b, Positions(b)), b)
    requires var hs := GivenAll(ClassOf(b), b, Positions(b));
             && -1 <= j < |hs| && (j >= 0 ==> HeaderCovers(hs[j], a))
             && forall i :: j < i < |hs| ==> !HeaderCovers(hs[i], a)
    ensures Loadable(b)
    ensures var hs := GivenAll(ClassOf(b), b, Positions(b));
            ImageByte(b, FileHeaders(b), a, before) == if j < 0 then before else SegmentByte(hs[j].segment, b, a)
  {
    GoodAllKept(ClassOf(b), b, Positions(b));
    LastSegmentWins(b, GivenAll(ClassOf(b), b, Positions(b)), a, before, j);
  }

  lemma GoodAllKept(c: Class, b: Buffer, ps: seq<nat>)
    requires AllGood(GivenAll(c, b, ps), b)
    ensures CheckedAll(c, b, ps) == GivenAll(c, b, ps) && AllLoad(CheckedAll(c, b, ps))
  {
    var hs, gs := CheckedAll(c, b, ps), GivenAll(c, b, ps);
    forall i | 0 <= i < |ps| ensures hs[i] == gs[i] { CheckedAt(c, b, ps, i); GoodKept(gs[i], b); }
  }

  /** Keeping 32 bits of the sizes of a 64-bit segment keeps the addresses it covers exactly when both sizes
      fit in 32 bits. */
  lemma NarrowingExact(g: Segment)
    requires Proper(g) && g.modulus == WORD
    ensures (forall a: Address :: Covers(Narrowed(g), a) <==> Covers(g, a)) <==> (g.filesz < WORD32 && g.memsz < WORD32)
  {
    if g.filesz < WORD32 && g.memsz < WORD32 {
      SmallMod(g.filesz, WORD32);
      SmallMod(g.memsz, WORD32);
    } else {
      var n := Narrowed(g);
      var d := if n.filesz < n.memsz then n.memsz else n.filesz;
      var a: Address := (g.address + d) % WORD;
      DistanceOf(g, d, a);
      DistanceOf(n, d, a);
      assert Covers(g, a) && !Covers(n, a);
    }
  }
}
