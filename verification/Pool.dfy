/** The linear allocator of src/blink_pool.c. Addresses are offsets into the heap, whose start
    is word aligned. */
module Pool {
  import opened Base

  /** sizeof(long) */
  const WORD: nat := 8

  /** A block handed out: where it starts, the size asked for and the room it takes. */
  datatype Block = Block(start: nat, size: nat, room: nat)

  /** The least multiple of the word size that holds n bytes. */
  function Rounded(n: nat): (r: nat)
    ensures n <= r < n + 8 && r % 8 == 0
  {
    n + (if n % WORD == 0 then 0 else WORD - n % WORD)
  }

  /** The same in size_t arithmetic, src/blink_pool.c:50. */
  function ActualSize(n: uint64): uint64 {
    (n + (if n % WORD == 0 then 0 else WORD - n % WORD)) % TWO_64
  }

  /** They differ exactly for the seven largest sizes, for which the sum wraps to zero. */
  lemma RoundingOverflows(n: uint64)
    ensures ActualSize(n) == Rounded(n) <==> n <= TWO_64 - 8
    ensures n > TWO_64 - 8 ==> ActualSize(n) == 0
  {
    if n > TWO_64 - WORD {
      var k := n - (TWO_64 - WORD);
      assert n % WORD == k by { assert n == WORD * (TWO_64 / WORD - 1) + k; }
    } else {
      assert Rounded(n) <= TWO_64 - WORD by {
        assert (TWO_64 - WORD) % WORD == 0;
      }
    }
  }

  function Used(blocks: seq<Block>): nat {
    if blocks == [] then 0 else Used(blocks[..|blocks| - 1]) + blocks[|blocks| - 1].room
  }

  /** Each block starts where those before it end. */
  ghost predicate Laid(blocks: seq<Block>) {
    forall i :: 0 <= i < |blocks| ==>
      blocks[i].start == Used(blocks[..i]) && 0 < blocks[i].size && blocks[i].room == Rounded(blocks[i].size)
  }

  lemma {:induction false} UsedGrows(blocks: seq<Block>, i: nat, j: nat)
    requires i <= j <= |blocks|
    ensures Used(blocks[..i]) <= Used(blocks[..j])
    decreases j
  {
    if i < j {
      UsedGrows(blocks, i, j - 1);
      assert blocks[..j][..j - 1] == blocks[..j - 1];
    }
  }

  lemma {:induction false} UsedAligned(blocks: seq<Block>)
    requires forall i :: 0 <= i < |blocks| ==> blocks[i].room % WORD == 0
    ensures Used(blocks) % WORD == 0
  {
    if blocks != [] { UsedAligned(blocks[..|blocks| - 1]); }
  }

  /** Blocks are word aligned, do not overlap, and lie below the end of what is used. */
  lemma BlocksApart(blocks: seq<Block>, i: nat, j: nat)
    requires Laid(blocks) && i < j < |blocks|
    ensures blocks[i].start + blocks[i].size <= blocks[i].start + blocks[i].room <= blocks[j].start
    ensures blocks[j].start + blocks[j].room <= Used(blocks)
    ensures blocks[i].start % WORD == 0 && blocks[j].start % WORD == 0
  {
    hide Laid;
    BlocksInOrder(blocks, i, j);
    StartAligned(blocks, i);
    StartAligned(blocks, j);
  }

  lemma BlocksInOrder(blocks: seq<Block>, i: nat, j: nat)
    requires Laid(blocks) && i < j < |blocks|
    ensures blocks[i].start + blocks[i].size <= blocks[i].start + blocks[i].room <= blocks[j].start
    ensures blocks[j].start + blocks[j].room <= Used(blocks)
  {
    hide Laid, Used;
    BlockFits(blocks, i);
    BlockFits(blocks, j);
    UsedGrows(blocks, i + 1, j);
    UsedGrows(blocks, j + 1, |blocks|);
    assert blocks[..|blocks|] == blocks;
  }

  lemma BlockFits(blocks: seq<Block>, i: nat)
    requires Laid(blocks) && i < |blocks|
    ensures blocks[i].start == Used(blocks[..i]) && blocks[i].size <= blocks[i].room
    ensures Used(blocks[..i + 1]) == blocks[i].start + blocks[i].room
  {
    hide Used;
    UsedNext(blocks, i);
  }

  lemma StartAligned(blocks: seq<Block>, i: nat)
    requires Laid(blocks) && i < |blocks|
    ensures blocks[i].start % WORD == 0
  {
    hide Used, Rounded;
    UsedAligned(blocks[..i]);
  }

  lemma UsedNext(blocks: seq<Block>, i: nat)
    requires i < |blocks|
    ensures Used(blocks[..i + 1]) == Used(blocks[..i]) + blocks[i].room
  {
    assert blocks[..i + 1][..i] == blocks[..i];
  }

  lemma LaidAppend(blocks: seq<Block>, b: Block)
    requires Laid(blocks) && b.start == Used(blocks) && 0 < b.size && b.room == Rounded(b.size)
    ensures Laid(blocks + [b]) && Used(blocks + [b]) == Used(blocks) + b.room
  {
    var all := blocks + [b];
    assert all[..|blocks|] == blocks;
    forall i | 0 <= i < |all|
      ensures all[i].start == Used(all[..i]) && 0 < all[i].size && all[i].room == Rounded(all[i].size) {
      if i < |blocks| { assert all[..i] == blocks[..i] && all[i] == blocks[i]; }
    }
  }

  predicate Inside(b: Block, at: nat) {
    b.start <= at < b.start + b.size
  }

  /** struct blink_pool, with the blocks handed out so far. */
  class LinearPool {
    var heap: array<byte>
    var size: uint64
    var pos: nat
    ghost var blocks: seq<Block>

    /** What every run of allocations, and of writes into blocks, keeps. */
    ghost predicate Valid()
      reads this, heap
    {
      && pos <= size <= heap.Length
      && Laid(blocks) && pos == Used(blocks)
      && forall k :: pos <= k < size ==> heap[k] == 0
    }

    /** BLINK_Pool_init */
    constructor (heap: array<byte>, size: uint64)
      requires size <= heap.Length
      modifies heap
      ensures Valid() && this.heap == heap && this.size == size && blocks == []
    {
      this.heap, this.size, pos, blocks := heap, size, 0, [];
      new;
      var k := 0;
      while k < size
        invariant k <= size && this.heap == heap && this.size == size && pos == 0 && blocks == []
        invariant forall i :: 0 <= i < k ==> heap[i] == 0
      {
        heap[k] := 0;
        k := k + 1;
      }
    }

    /** BLINK_Pool_calloc. A block handed out is zero throughout. A request so large that its
        rounding wraps is granted without taking any room. */
    method Calloc(n: uint64) returns (p: Option<nat>)
      requires Valid()
      modifies this`pos, this`blocks
      ensures Valid()
      ensures n == 0 ==> p == None
      ensures n > TWO_64 - WORD ==> p == Some(old(pos)) && blocks == old(blocks)
      ensures 0 < n <= TWO_64 - WORD ==> (p.Some? <==> Rounded(n) <= size - old(pos))
      ensures 0 < n <= TWO_64 - WORD && p.Some? ==>
                && p.value == old(pos) && blocks == old(blocks) + [Block(p.value, n, Rounded(n))]
                && p.value + n <= size && forall k :: p.value <= k < p.value + n ==> heap[k] == 0
      ensures p.None? ==> blocks == old(blocks)
    {
      RoundingOverflows(n);
      var actualSize := ActualSize(n);
      p := None;
      if n > 0 {
        if size - pos >= actualSize {
          p := Some(pos);
          if n <= TWO_64 - WORD {
            Grant(n);
          }
          pos := pos + actualSize;
        }
      }
    }

    /** Records the block; the pool itself keeps no such list. */
    ghost method Grant(n: nat)
      requires Laid(blocks) && pos == Used(blocks) && 0 < n
      modifies this`blocks
      ensures blocks == old(blocks) + [Block(pos, n, Rounded(n))]
      ensures Laid(blocks) && Used(blocks) == pos + Rounded(n)
    {
      LaidAppend(blocks, Block(pos, n, Rounded(n)));
      blocks := blocks + [Block(pos, n, Rounded(n))];
    }

    /** BLINK_Pool_getFreeSpace: what is free and what the blocks take add up to the size. */
    method GetFreeSpace() returns (n: nat)
      requires Valid()
      ensures n + Used(blocks) == size
    {
      n := size - pos;
    }

    /** A client's write to an address inside one of its blocks: the pool stays valid and no
        other block is touched. */
    method Store(at: nat, v: byte, ghost i: nat)
      requires Valid() && i < |blocks| && Inside(blocks[i], at)
      modifies heap
      ensures Valid()
      ensures at < heap.Length && heap[..] == old(heap[..])[at := v]
      ensures forall j :: 0 <= j < |blocks| && j != i ==> !Inside(blocks[j], at)
    {
      InUse(blocks, i);
      forall j | 0 <= j < |blocks| && j != i ensures !Inside(blocks[j], at) {
        if j < i { BlocksApart(blocks, j, i); } else { BlocksApart(blocks, i, j); }
      }
      heap[at] := v;
    }
  }

  lemma InUse(blocks: seq<Block>, j: nat)
    requires Laid(blocks) && j < |blocks|
    ensures blocks[j].start + blocks[j].size <= Used(blocks)
  {
    UsedNext(blocks, j);
    UsedGrows(blocks, j + 1, |blocks|);
    assert blocks[..|blocks|] == blocks;
  }
}
