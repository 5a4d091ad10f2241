/** The bump allocator for character data. Regions are linked from the newest to the oldest;
    only the newest one hands out memory, and only its last block can still grow. */
module CharArenas {

  const NUL := '\0'

  class Region {
    const capacity: nat
    const mem: array<char>
    var size: nat
    var next: Region?
    var userPtr: nat
    var userSize: nat

    constructor (capacity: nat)
      ensures fresh(mem) && mem.Length == this.capacity == capacity
      ensures size == userPtr == userSize == 0 && next == null
      ensures forall i :: 0 <= i < capacity ==> mem[i] == NUL
    {
      this.capacity := capacity;
      mem := new char[capacity](_ => NUL);
      size, userPtr, userSize := 0, 0, 0;
      next := null;
    }
  }

  datatype Pointer = Pointer(mem: array<char>, offset: nat)

  /** A stretch of memory handed out to a client. */
  datatype Block = Block(mem: array<char>, offset: nat, length: nat) {
    ghost predicate InBounds() {
      offset + length <= mem.Length
    }

    ghost function Content(): string
      requires InBounds()
      reads mem
    {
      mem[offset..offset + length]
    }

    /** Blocks in the same memory follow each other. */
    ghost predicate Precedes(later: Block) {
      mem == later.mem ==> offset + length <= later.offset
    }
  }

  /** A zero-terminated string that a client keeps at the start of a block. */
  datatype KeptString = KeptString(block: Block, text: string) {
    ghost predicate Intact()
      reads block.mem
    {
      && block.InBounds() && |text| < block.length
      && block.mem[block.offset..block.offset + |text|] == text && block.mem[block.offset + |text|] == NUL
    }
  }

  /** All blocks lie in bounds of one of the memories and no two of them share a byte. */
  ghost predicate Separate(blocks: seq<Block>, mems: set<array<char>>) {
    && (forall i :: 0 <= i < |blocks| ==> blocks[i].mem in mems && blocks[i].InBounds())
    && (forall i, j :: 0 <= i < j < |blocks| ==> blocks[i].Precedes(blocks[j]))
  }

  ghost predicate Zeros(mem: array<char>, from: nat, to: nat)
    requires to <= mem.Length
    reads mem
  {
    forall i :: from <= i < to ==> mem[i] == NUL
  }

  function RegionSize(requested: nat, initialArenaSize: nat): (r: nat)
    ensures requested <= r && initialArenaSize <= r
    ensures r != initialArenaSize ==> r == requested + requested && initialArenaSize < requested
  {
    if requested > initialArenaSize then requested * 2 else initialArenaSize
  }

  class CharArena {
    const initialSize: nat
    var current: Region

    /** The live blocks, oldest first: a block that moved is replaced by its new place. */
    ghost var blocks: seq<Block>
    /** What the client has written into the last block. */
    ghost var written: string
    /** The memory of all regions. */
    ghost var mems: set<array<char>>
    /** The strings that clients keep, oldest first, and whether the last one is the last block. */
    ghost var kept: seq<KeptString>
    ghost var sealed: bool

    ghost predicate Valid()
      reads `current, `blocks, `written, `mems, `kept, `sealed, current`size, current`userPtr, current`userSize, current.mem, mems
    {
      && StringsIntact()
      && current.mem in mems
      && current.userPtr + current.userSize == current.size <= current.capacity == current.mem.Length
      && |written| <= current.userSize
      && current.mem[current.userPtr..current.userPtr + |written|] == written
      && Zeros(current.mem, current.userPtr + |written|, current.capacity)
      && Separate(blocks, mems)
      && (if blocks == [] then current.userSize == 0 else blocks[|blocks| - 1] == LastBlock())
    }

    /** Every string that a client keeps is still there, and out of the way of what can be written. */
    ghost predicate StringsIntact()
      reads `current, `mems, `kept, `sealed, current`size, current`userPtr, mems
    {
      forall i :: 0 <= i < |kept| ==>
        && kept[i].block.mem in mems && kept[i].Intact()
        && (kept[i].block.mem == current.mem ==>
              kept[i].block.offset + kept[i].block.length <= if sealed then current.size else current.userPtr)
    }

    ghost function LastBlock(): Block
      reads `current, current`userPtr, current`userSize
    {
      Block(current.mem, current.userPtr, current.userSize)
    }

    ghost function Earlier(): seq<Block>
      reads `blocks
    {
      if blocks == [] then [] else blocks[..|blocks| - 1]
    }

    constructor (initialSize: nat)
      ensures Valid() && fresh(current) && fresh(mems) && blocks == [] && kept == [] && this.initialSize == initialSize
    {
      this.initialSize := initialSize;
      var region := new Region(initialSize);
      current := region;
      blocks := [];
      written := [];
      mems := {region.mem};
      kept, sealed := [], false;
    }

    /** Puts a new region of zeros in front. */
    method OpenRegion(capacity: nat)
      modifies `current, `mems
      ensures fresh(current) && fresh(current.mem) && mems == old(mems) + {current.mem}
      ensures current.mem.Length == current.capacity == capacity && Zeros(current.mem, 0, capacity)
      ensures current.size == 0 && current.userPtr == 0 && current.userSize == 0
      ensures current.next == old(current)
    {
      var region := new Region(capacity);
      region.next := current;
      current := region;
      mems := mems + {region.mem};
    }

    /** A new block of zeros, apart from all live blocks. No byte of the arena is written, so
        the live blocks keep theirs. */
    method Malloc(size: nat) returns (p: Pointer)
      requires Valid()
      modifies this, current
      ensures Valid() && (current == old(current) || (fresh(current) && fresh(current.mem)))
      ensures old(mems) <= mems && fresh(mems - old(mems))
      ensures blocks == old(blocks) + [Block(p.mem, p.offset, size)]
      ensures if old(current.size + size <= current.capacity) then current == old(current)
              else current.capacity == RegionSize(size, initialSize) && current.next == old(current)
      ensures written == [] && !sealed && kept == old(kept)
      ensures forall b :: b in old(blocks) ==> b.InBounds() && b.Content() == old(b.Content())
      ensures Zeros(p.mem, p.offset, p.offset + size)
    {
      MakeRoom(size);
      p := NextBlock(size);
    }

    /** Hands out the next bytes of the current region. */
    method NextBlock(size: nat) returns (p: Pointer)
      requires TailIsFree() && current.size + size <= current.capacity
      modifies `blocks, `written, `sealed, current`userPtr, current`size, current`userSize
      ensures Valid() && blocks == old(blocks) + [Block(p.mem, p.offset, size)]
      ensures written == [] && !sealed
      ensures Zeros(p.mem, p.offset, p.offset + size)
    {
      current.userPtr := current.size;
      current.size := current.size + size;
      current.userSize := size;
      blocks := blocks + [Block(current.mem, current.userPtr, size)];
      written, sealed := [], false;
      p := Pointer(current.mem, current.userPtr);
    }

    /** Behind what is in use, the current region is free. */
    ghost predicate TailIsFree()
      reads `current, `blocks, `mems, `kept, current`size, current.mem, mems
    {
      && current.mem in mems && current.size <= current.capacity == current.mem.Length
      && Zeros(current.mem, current.size, current.capacity)
      && Separate(blocks, mems)
      && (forall i :: 0 <= i < |blocks| && blocks[i].mem == current.mem ==> blocks[i].offset + blocks[i].length <= current.size)
      && (forall i :: 0 <= i < |kept| ==> kept[i].block.mem in mems && kept[i].Intact())
      && (forall i :: 0 <= i < |kept| && kept[i].block.mem == current.mem ==>
            kept[i].block.offset + kept[i].block.length <= current.size)
    }

    /** Opens a new region if the current one is too small. */
    method MakeRoom(size: nat)
      requires Valid()
      modifies `current, `mems
      ensures TailIsFree() && current.size + size <= current.capacity
      ensures if old(current.size + size <= current.capacity) then current == old(current)
              else current.capacity == RegionSize(size, initialSize) && current.next == old(current)
      ensures current == old(current) || (fresh(current) && fresh(current.mem))
      ensures old(mems) <= mems && fresh(mems - old(mems))
    {
      if current.size + size > current.capacity {
        OpenRegion(RegionSize(size, initialSize));
      } else {
        assert blocks != [] ==> blocks[|blocks| - 1] == LastBlock();
      }
    }

    /** Copies the last block to the start of a new region. */
    method MoveLast(capacity: nat)
      requires Valid() && !sealed && current.userSize <= capacity
      modifies `current, `mems, `blocks
      ensures Valid() && fresh(current) && fresh(current.mem) && current.capacity == capacity
      ensures current.userPtr == 0 && current.userSize == old(current.userSize) && current.next == old(current)
      ensures old(mems) <= mems && fresh(mems - old(mems))
      ensures blocks == old(Earlier()) + [LastBlock()]
    {
      var last := current;
      OpenRegion(capacity);
      var mem := current.mem;
      forall i | 0 <= i < last.userSize {
        mem[i] := last.mem[last.userPtr + i];
      }
      current.userSize := last.userSize;
      current.size := last.userSize;
      blocks := Earlier() + [LastBlock()];
    }

    /** Moves the end of the last block, where the region has room for it. */
    method GrowLast(size: nat)
      requires Valid() && !sealed && current.size + size <= current.capacity
      modifies `blocks, current`userSize, current`size
      ensures Valid() && current.userSize == old(current.userSize) + size
      ensures blocks == old(Earlier()) + [LastBlock()]
    {
      current.userSize := current.userSize + size;
      current.size := current.size + size;
      blocks := Earlier() + [LastBlock()];
    }

    /** Grows the last block by `size`, in place or by moving it to a new region. What was
        written stays, the added bytes are zeros, and the other live blocks are untouched. */
    method Realloc(size: nat) returns (p: Pointer)
      requires Valid() && !sealed
      modifies this, current
      ensures Valid() && (current == old(current) || (fresh(current) && fresh(current.mem)))
      ensures old(mems) <= mems && fresh(mems - old(mems))
      ensures blocks == old(Earlier()) + [Block(p.mem, p.offset, old(current.userSize) + size)]
      ensures if old(current.size + size <= current.capacity) then current == old(current)
              else current.capacity == RegionSize(size + 2 * old(current.userSize), initialSize) && current.next == old(current)
      ensures written == old(written) && !sealed && kept == old(kept)
      ensures forall b :: b in old(Earlier()) ==> b.InBounds() && b.Content() == old(b.Content())
    {
      if current.size + size > current.capacity {
        MoveLast(RegionSize(size + current.userSize * 2, initialSize));
      }
      GrowLast(size);
      p := Pointer(current.mem, current.userPtr);
    }

    /** The memcpy of a client: appends to what it wrote into the last block. The earlier live
        blocks lie before it or in other regions, and keep their content. */
    method Append(p: Pointer, at: nat, data: string)
      requires Valid() && !sealed && blocks != []
      requires p == Pointer(current.mem, current.userPtr)
      requires at == |written| && |written| + |data| <= current.userSize
      modifies `written, current.mem
      ensures Valid()
      ensures written == old(written) + data
      ensures forall i :: 0 <= i < p.offset || p.offset + current.userSize <= i < p.mem.Length ==> p.mem[i] == old(p.mem[i])
      ensures forall b :: b in Earlier() ==> b.InBounds() && b.Content() == old(b.Content())
    {
      ghost var all := written + data;
      Write(at, data, all);
      written := all;
    }

    /** Writes behind what was written. What is kept and the earlier blocks are out of the way. */
    method Write(at: nat, data: string, ghost all: string)
      requires Valid() && all == written + data && !sealed && blocks != [] && at == |written| && |written| + |data| <= current.userSize
      modifies current.mem
      ensures current.mem[current.userPtr..current.userPtr + |all|] == all
      ensures Zeros(current.mem, current.userPtr + |all|, current.capacity)
      ensures forall i :: 0 <= i < current.userPtr || current.size <= i < current.mem.Length ==> current.mem[i] == old(current.mem[i])
      ensures StringsIntact()
      ensures forall b :: b in Earlier() ==> b.InBounds() && b.Content() == old(b.Content())
    {
      var mem, from := current.mem, current.userPtr + at;
      Before(blocks);
      Copy(mem, current.userPtr, from, data);
    }

    /** The bytes go to their place, and all others stay. */
    method Copy(mem: array<char>, ghost start: nat, from: nat, data: string)
      requires start <= from && from + |data| <= mem.Length
      modifies mem
      ensures mem[start..from + |data|] == old(mem[start..from]) + data
      ensures forall i :: 0 <= i < from || from + |data| <= i < mem.Length ==> mem[i] == old(mem[i])
    {
      forall i | 0 <= i < |data| {
        mem[from + i] := data[i];
      }
      assert mem[start..from] == old(mem[start..from]) && mem[from..from + |data|] == data;
      assert mem[start..from + |data|] == mem[start..from] + mem[from..from + |data|];
    }

    lemma Before(blocks: seq<Block>)
      requires blocks != [] && Separate(blocks, mems)
      ensures forall b :: b in blocks[..|blocks| - 1] ==> b.InBounds() && b.Precedes(blocks[|blocks| - 1])
    {
    }

    /** The zero-terminated string at the start of the last block: what was written, as far
        as its first zero. */
    method StringAt(p: Pointer) returns (s: string)
      requires Valid()
      requires p == Pointer(current.mem, current.userPtr) && |written| < current.userSize
      ensures |s| <= |written| && s == written[..|s|] && NUL !in s
      ensures |s| < |written| ==> written[|s|] == NUL
      ensures NUL !in written ==> s == written
    {
      var mem, end := p.mem, p.offset;
      while mem[end] != NUL
        invariant p.offset <= end <= p.offset + |written|
        invariant forall i :: p.offset <= i < end ==> mem[i] != NUL
        decreases p.offset + |written| - end
      {
        end := end + 1;
      }
      s := mem[p.offset..end];
      assert forall i :: 0 <= i < |s| ==> s[i] == written[i] && s[i] != NUL;
      assert |s| < |written| ==> written[|s|] == NUL;
    }

    /** The same, with the client keeping the string. */
    method KeepString(p: Pointer) returns (s: string)
      requires Valid()
      requires p == Pointer(current.mem, current.userPtr) && |written| < current.userSize && NUL !in written
      modifies `kept, `sealed
      ensures Valid() && s == written
      ensures kept == old(kept) + [KeptString(LastBlock(), s)]
    {
      s := StringAt(p);
      assert current.mem[current.userPtr + |written|] == NUL;
      kept, sealed := kept + [KeptString(LastBlock(), s)], true;
    }
  }
}
