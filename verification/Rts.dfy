/** The memory of lib/rts.c: a linked list of lazily allocated blocks, one list for bytes and one
    for tags, with the RAM builtins on top. */
module Rts {
  import opened Ints

  /** `MASK` is one less than a power of two; a block has MASK + 1 cells. */
  const MASK: int := 0xFF_FFFF
  const SIZE: int := MASK + 1

  type Address = a: int | 0 <= a < WORD
  type Byte = b: int | 0 <= b < 256

  function Base(a: Address): (b: int)
    ensures 0 <= b <= a < b + SIZE
  {
    a - a % SIZE
  }

  function Offset(a: Address): (o: nat)
    ensures o < SIZE && o == a - Base(a)
  {
    a % SIZE
  }

  /** The masking of the source splits an address into block id and offset. */
  lemma MaskingSplits(a: Address)
    ensures And(a, WORD - 1 - MASK) == Base(a) && And(a, MASK) == Offset(a)
  {
    assert Pow2(4) == 16;
    Pow2Square(4, 16);
    Pow2Add(8, 16);
    Pow2Square(8, 0x100);
    WordIsPow2();
    MaskingSplitsAt(a, 64, 24);
  }

  lemma MaskingSplitsAt(a: Address, n: nat, k: nat)
    requires k <= n && Pow2(n) == WORD && Pow2(k) == SIZE
    ensures And(a, WORD - 1 - MASK) == Base(a) && And(a, MASK) == Offset(a)
  {
    AndHighMask(a, n, k);
    AndLowMask(a, k);
  }

  /** `address & ~MASK` and `address & MASK`. */
  method Split(address: Address) returns (mask: int, offset: int)
    ensures mask == Base(address) && offset == Offset(address)
  {
    mask := And(address, WORD - 1 - MASK);
    offset := And(address, MASK);
    MaskingSplits(address);
  }

  class Block<T> {
    const blockId: int
    const mem: array<T>
    const next: Block?<T>

    /** A zero-filled block in front of `next` (`malloc` and `calloc`). */
    constructor (blockId: int, zero: T, next: Block?<T>)
      ensures this.blockId == blockId && this.next == next
      ensures fresh(mem) && mem.Length == SIZE && forall i :: 0 <= i < SIZE ==> mem[i] == zero
    {
      this.blockId := blockId;
      this.next := next;
      this.mem := new T[SIZE](_ => zero);
    }
  }

  /** The position of the first block with the given id, or the number of blocks. */
  function Find<T>(blocks: seq<Block<T>>, id: int): (i: nat)
    ensures i <= |blocks|
    ensures i < |blocks| ==> blocks[i].blockId == id
    ensures forall j :: 0 <= j < i ==> blocks[j].blockId != id
  {
    if blocks == [] || blocks[0].blockId == id then 0 else 1 + Find(blocks[1..], id)
  }

  /** Following `next` from `head` visits exactly these blocks. */
  predicate Chain<T>(head: Block?<T>, blocks: seq<Block<T>>) {
    if blocks == [] then head == null else head == blocks[0] && Chain(blocks[0].next, blocks[1..])
  }

  /** The cell at an address, given the cells of each block: in the block with its id, or `zero`
      when none has been allocated. */
  function CellIn<T>(blocks: seq<Block<T>>, cells: seq<seq<T>>, zero: T, a: Address): T
    requires |cells| == |blocks| && forall i :: 0 <= i < |cells| ==> |cells[i]| == SIZE
  {
    var i := Find(blocks, Base(a));
    if i < |blocks| then cells[i][Offset(a)] else zero
  }

  /** `m` is the total map from addresses to cells that the block list stands for. */
  ghost predicate Represents<T>(m: map<int, T>, blocks: seq<Block<T>>, cells: seq<seq<T>>, zero: T)
    requires |cells| == |blocks| && forall i :: 0 <= i < |cells| ==> |cells[i]| == SIZE
  {
    forall a: Address :: a in m && m[a] == CellIn(blocks, cells, zero, a)
  }

  /** The map of a list without blocks. */
  function AllZero<T>(zero: T): (m: map<int, T>)
    ensures forall a: Address :: a in m && m[a] == zero
  {
    map a: int {:trigger Offset(a)} | 0 <= a < WORD :: zero
  }

  /** Overwriting one cell of the block found changes that address and no other. */
  lemma StoreInBlock<T>(m: map<int, T>, blocks: seq<Block<T>>, cells: seq<seq<T>>, cells': seq<seq<T>>,
      zero: T, address: Address, value: T)
    requires |cells| == |blocks| && forall i :: 0 <= i < |cells| ==> |cells[i]| == SIZE
    requires Represents(m, blocks, cells, zero) && Find(blocks, Base(address)) < |blocks|
    requires var k := Find(blocks, Base(address)); cells' == cells[k := cells[k][Offset(address) := value]]
    ensures Represents(m[address := value], blocks, cells', zero)
  {
    forall a: Address ensures CellIn(blocks, cells', zero, a)
                           == if a == address then value else CellIn(blocks, cells, zero, a) {
      assert Base(a) == Base(address) && Offset(a) == Offset(address) ==> a == address;
    }
  }

  /** A zero block in front of the list changes nothing until it is written. */
  lemma AllocateBlock<T>(m: map<int, T>, block: Block<T>, blocks: seq<Block<T>>, cells: seq<seq<T>>, zeros: seq<T>,
                         zero: T)
    requires |cells| == |blocks| && forall i :: 0 <= i < |cells| ==> |cells[i]| == SIZE
    requires Represents(m, blocks, cells, zero) && Find(blocks, block.blockId) == |blocks|
    requires |zeros| == SIZE && forall i :: 0 <= i < SIZE ==> zeros[i] == zero
    ensures Represents(m, [block] + blocks, [zeros] + cells, zero)
  {
    assert ([block] + blocks)[1..] == blocks;
    forall a: Address ensures CellIn([block] + blocks, [zeros] + cells, zero, a) == CellIn(blocks, cells, zero, a) {
      if Base(a) != block.blockId {
        assert Find([block] + blocks, Base(a)) == 1 + Find(blocks, Base(a));
      }
    }
  }

  /** Blocks are chained in order, aligned, of full size, and no two share an id or storage. */
  ghost predicate Linked<T>(head: Block?<T>, blocks: seq<Block<T>>) {
    && Chain(head, blocks)
    && (forall i :: 0 <= i < |blocks| ==>
          && blocks[i].mem.Length == SIZE
          && 0 <= blocks[i].blockId < WORD && blocks[i].blockId % SIZE == 0)
    && (forall i, j :: 0 <= i < j < |blocks| ==>
          blocks[i].blockId != blocks[j].blockId && blocks[i].mem != blocks[j].mem)
  }

  ghost function Arrays<T>(blocks: seq<Block<T>>): set<object> {
    set b | b in blocks :: b.mem
  }

  /** The current cells of every block. */
  ghost function Cells<T>(blocks: seq<Block<T>>): (c: seq<seq<T>>)
    reads Arrays(blocks)
    ensures |c| == |blocks| && forall i :: 0 <= i < |c| ==> c[i] == blocks[i].mem[..]
  {
    if blocks == [] then [] else [blocks[0].mem[..]] + Cells(blocks[1..])
  }

  /** One block list: `sail_memory` with bytes, `sail_tags` with booleans. */
  class BlockList<T> {
    const zero: T
    var head: Block?<T>
    ghost var blocks: seq<Block<T>>
    ghost var contents: map<int, T>  // the abstract value: a total map from addresses to cells

    /** The list is well formed and represents `contents`. */
    ghost predicate Valid()
      reads this, Arrays(blocks)
      ensures Valid() ==> forall a: Address :: a in contents
    {
      Linked(head, blocks) && Represents(contents, blocks, Cells(blocks), zero)
    }

    ghost function Repr(): set<object>
      reads this
    {
      {this} + Arrays(blocks)
    }

    constructor (zero: T)
      ensures Valid() && this.zero == zero && blocks == []
      ensures forall a: Address :: contents[a] == zero
    {
      this.zero := zero;
      head := null;
      blocks := [];
      contents := AllZero(zero);
      new;
    }

    /** The search loop shared by reads and writes. */
    method Lookup(mask: int) returns (current: Block?<T>, ghost k: nat)
      requires Linked(head, blocks)
      ensures k == Find(blocks, mask)
      ensures current == if k < |blocks| then blocks[k] else null
    {
      current := head;
      k := 0;
      while current != null
        invariant k <= |blocks| && Chain(current, blocks[k..])
        invariant Find(blocks, mask) == k + Find(blocks[k..], mask)
        decreases |blocks| - k
      {
        if current.blockId == mask { return; }
        current := current.next;
        k := k + 1;
      }
    }

    /** `write_mem` / `write_tag_bool`. */
    method Write(address: Address, value: T)
      requires Valid()
      modifies Repr()
      ensures Valid() && fresh(Repr() - old(Repr()))
      ensures contents == old(contents)[address := value]
    {
      var mask, offset := Split(address);
      var block, k := BlockFor(mask);
      Store(block, k, offset, value, address);
    }

    /** The block with the given id, allocated on first use; contents do not change. */
    method BlockFor(mask: int) returns (block: Block<T>, ghost k: nat)
      requires Valid() && 0 <= mask < WORD && mask % SIZE == 0
      modifies this
      ensures Valid() && fresh(Repr() - old(Repr())) && contents == old(contents)
      ensures k == Find(blocks, mask) && k < |blocks| && block == blocks[k]
      ensures blocks == old(blocks) || (blocks == [block] + old(blocks) && fresh(block.mem))
    {
      var current, found := Lookup(mask);
      if current != null {
        block, k := current, found;
      } else {
        block := AllocateEmpty(mask);
        k := 0;
      }
    }

    /** A zero-filled block for an id that has none changes no contents. */
    method AllocateEmpty(mask: int) returns (block: Block<T>)
      requires Valid() && 0 <= mask < WORD && mask % SIZE == 0 && Find(blocks, mask) == |blocks|
      modifies this
      ensures Valid() && fresh(Repr() - old(Repr())) && contents == old(contents)
      ensures blocks == [block] + old(blocks) && Find(blocks, mask) == 0 && fresh(block.mem)
    {
      ghost var cells := Cells(blocks);
      block := Allocate(mask);
      assert Cells(blocks) == [block.mem[..]] + cells;
      AllocateBlock(contents, block, old(blocks), cells, block.mem[..], zero);
    }

    /** `block->mem[offset] = value` for the block found. */
    method Store(block: Block<T>, ghost k: nat, offset: nat, value: T, ghost address: Address)
      requires Valid() && offset == Offset(address)
      requires k == Find(blocks, Base(address)) && k < |blocks| && block == blocks[k]
      modifies this`contents, block.mem
      ensures Valid() && blocks == old(blocks) && contents == old(contents)[address := value]
    {
      ghost var cells := Cells(blocks);
      SetCell(block, k, offset, value);
      StoreInBlock(contents, blocks, cells, Cells(blocks), zero, address, value);
      contents := contents[address := value];
    }

    method SetCell(block: Block<T>, ghost k: nat, offset: nat, value: T)
      requires Linked(head, blocks) && k < |blocks| && block == blocks[k] && offset < SIZE
      modifies block.mem
      ensures Cells(blocks) == old(Cells(blocks))[k := old(Cells(blocks))[k][offset := value]]
    {
      ghost var cells := Cells(blocks);
      block.mem[offset] := value;
      forall i | 0 <= i < |blocks| ensures Cells(blocks)[i] == if i == k then cells[k][offset := value] else cells[i] {
        assert i != k ==> blocks[i].mem != block.mem;
        assert Cells(blocks)[i] == blocks[i].mem[..];
      }
    }

    /** The allocation branch: a new zero-filled block at the front of the list. */
    method Allocate(mask: int) returns (block: Block<T>)
      requires Linked(head, blocks) && 0 <= mask < WORD && mask % SIZE == 0 && Find(blocks, mask) == |blocks|
      modifies this`head, this`blocks
      ensures Linked(head, blocks) && blocks == [block] + old(blocks) && block.blockId == mask
      ensures fresh(block.mem) && forall i :: 0 <= i < SIZE ==> block.mem[i] == zero
    {
      block := new Block<T>(mask, zero, head);
      head := block;
      blocks := [block] + blocks;
      assert blocks[1..] == old(blocks);
      assert Chain(head, blocks);
    }

    /** `read_mem` / `read_tag_bool`. */
    method Read(address: Address) returns (value: T)
      requires Valid()
      ensures value == contents[address]
    {
      var mask, offset := Split(address);
      var current, k := Lookup(mask);
      value := if current != null then current.mem[offset] else zero;
    }

    /** `kill_mem`: unlinking every block leaves the all-zero memory. */
    method Kill()
      requires Valid()
      modifies this
      ensures Valid() && blocks == []
      ensures forall a: Address :: contents[a] == zero
    {
      while head != null
        invariant Linked(head, blocks)
        decreases |blocks|
      {
        head := head.next;
        blocks := blocks[1..];
      }
      contents := AllZero(zero);
    }
  }
}
