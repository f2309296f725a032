/** The object pool of an interest context (struct objectpool): objects
    are handed out from a free list; when the list is empty a new block of
    OBJECTPOOL objects is allocated, its first object is handed out and
    the other ones, linked in order by the refill loop, become the free
    list. A released object is pushed back on the head of the list.

    An object is named by a handle: its block's number (blocks are counted
    from 0 in order of allocation) times OBJECTPOOL plus its place in the
    block. */
module Pool {

  /** OBJECTPOOL: the number of objects in a block. */
  const BlockSize: nat := 64

  // ---------------------------------------------------------------------
  // A fresh block and its links

  /** The `next` links of a fresh block once the refill loop is done, by
      place in the block: objects 1 .. BlockSize-2 point at the following
      object, the last one at nothing (-1, NULL), and object 0 keeps the
      NULL the block was zeroed with. */
  function BlockLinks(): (links: seq<int>)
    ensures |links| == BlockSize
  {
    seq(BlockSize, j => if 1 <= j < BlockSize - 1 then j + 1 else -1)
  }

  /** Every link points further into the block, or at nothing. */
  ghost predicate Forward(links: seq<int>)
  {
    forall j :: 0 <= j < |links| ==> links[j] == -1 || j < links[j]
  }

  /** The objects reached by following the links from place i. */
  function Chain(links: seq<int>, i: int): (c: seq<int>)
    requires Forward(links)
    ensures forall j :: 0 <= j < |c| ==> 0 <= c[j] < |links|
    decreases if 0 <= i < |links| then |links| - i else 0
  {
    if 0 <= i < |links| then [i] + Chain(links, links[i]) else []
  }

  /** The refill loop of _aoi_enter: a zeroed block whose objects 1 ..
      BlockSize-1 are linked one after the other, the last one to NULL. */
  method LinkBlock() returns (next: array<int>)
    ensures fresh(next) && next[..] == BlockLinks()
  {
    next := new int[BlockSize](_ => -1);
    var i := 1;
    while i < BlockSize
      invariant 1 <= i <= BlockSize
      invariant next.Length == BlockSize
      invariant forall j :: 0 <= j < BlockSize ==> next[j] == if 1 <= j < i then j + 1 else -1
    {
      next[i] := i + 1;
      i := i + 1;
    }
    next[BlockSize - 1] := -1;
  }

  /** From place i on, the links of a fresh block visit i, i+1, ...,
      BlockSize-1 and stop. */
  lemma {:induction false} BlockChainFrom(i: int)
    requires 1 <= i <= BlockSize
    ensures Forward(BlockLinks())
    ensures Chain(BlockLinks(), i) == seq(BlockSize - i, j => i + j)
    decreases BlockSize - i
  {
    var links := BlockLinks();
    assert Forward(links);
    if i < BlockSize - 1 {
      BlockChainFrom(i + 1);
      assert links[i] == i + 1;
    } else if i == BlockSize - 1 {
      assert links[i] == -1 && Chain(links, links[i]) == [];
    }
  }

  // ---------------------------------------------------------------------
  // The pool as a value

  /** The number of blocks allocated and the free list, head first. */
  datatype PoolState = PoolState(blocks: nat, free: seq<nat>)

  /** Every free handle names an allocated object, and none is free twice. */
  ghost predicate PoolValid(s: PoolState)
  {
    (forall i :: 0 <= i < |s.free| ==> s.free[i] < s.blocks * BlockSize) &&
    (forall i, j :: 0 <= i < j < |s.free| ==> s.free[i] != s.free[j])
  }

  /** The handles of objects 1 .. BlockSize-1 of block b, in list order. */
  function BlockFree(b: nat): (r: seq<nat>)
    ensures |r| == BlockSize - 1
  {
    seq(BlockSize - 1, j requires 0 <= j < BlockSize - 1 => b * BlockSize + j + 1)
  }

  /** Taking an object in _aoi_enter: the head of the free list, or, when
      the list is empty, object 0 of a new block, whose other objects
      become the free list. */
  function Acquired(s: PoolState): (nat, PoolState)
  {
    if |s.free| > 0 then (s.free[0], PoolState(s.blocks, s.free[1..]))
    else (s.blocks * BlockSize, PoolState(s.blocks + 1, BlockFree(s.blocks)))
  }

  /** Giving an object back in _aoi_leave: it becomes the head of the free
      list. */
  function Released(s: PoolState, h: nat): PoolState
  {
    PoolState(s.blocks, [h] + s.free)
  }

  /** The handle taken is an allocated object that is no longer free, and
      the pool stays valid. It is the head of the free list when there is
      one; otherwise it is object 0 of a new block, which none of the
      objects allocated before is. */
  lemma AcquiredSpec(s: PoolState)
    requires PoolValid(s)
    ensures var (h, s') := Acquired(s);
      PoolValid(s') && h < s'.blocks * BlockSize && h !in s'.free &&
      s'.blocks >= s.blocks &&
      (|s.free| > 0 ==> h == s.free[0] && s'.free == s.free[1..] && s'.blocks == s.blocks) &&
      (|s.free| == 0 ==> h == s.blocks * BlockSize && s'.blocks == s.blocks + 1) &&
      (forall x :: x in s'.free ==> x in s.free || x >= s.blocks * BlockSize)
  {
    if |s.free| == 0 {
      var f := BlockFree(s.blocks);
      assert forall i :: 0 <= i < |f| ==> f[i] < (s.blocks + 1) * BlockSize;
    } else {
      var f := s.free;
      assert forall i :: 0 <= i < |f| - 1 ==> f[1..][i] == f[i + 1];
    }
  }

  /** Releasing an object that is allocated and not free keeps the pool
      valid. */
  lemma ReleasedSpec(s: PoolState, h: nat)
    requires PoolValid(s) && h < s.blocks * BlockSize && h !in s.free
    ensures PoolValid(Released(s, h))
  {
    var f := [h] + s.free;
    assert forall i :: 1 <= i < |f| ==> f[i] == s.free[i - 1];
  }

  /** The free list is a stack: an object released and then acquired
      again is the same object, and the pool is as before. */
  lemma {:induction false} ReleaseThenAcquire(s: PoolState, h: nat)
    ensures Acquired(Released(s, h)) == (h, s)
  {
    assert ([h] + s.free)[1..] == s.free;
  }

  // ---------------------------------------------------------------------
  // The pool object

  /** struct objectpool: the chain of allocated blocks (only their number
      matters here) and the free list. */
  class ObjectPool {
    var blocks: nat
    var free: seq<nat>

    function State(): PoolState
      reads this
    {
      PoolState(blocks, free)
    }

    /** The zeroed pool of _aoi_new. */
    constructor ()
      ensures State() == PoolState(0, [])
    {
      blocks := 0;
      free := [];
    }

    /** The allocation in _aoi_enter. */
    method Acquire() returns (h: nat)
      modifies this
      ensures (h, State()) == Acquired(old(State()))
    {
      if |free| > 0 {
        h := free[0];
        free := free[1..];
      } else {
        var links := LinkBlock();
        BlockChainFrom(1);
        var chain := Chain(links[..], 1);
        var base := blocks * BlockSize;
        h := base;
        free := seq(|chain|, j requires 0 <= j < |chain| => base + chain[j]);
        assert free == BlockFree(blocks);
        blocks := blocks + 1;
      }
    }

    /** The return of an object in _aoi_leave. */
    method Release(h: nat)
      modifies this
      ensures State() == Released(old(State()), h)
    {
      free := [h] + free;
    }
  }
}
