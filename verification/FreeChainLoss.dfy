/** A run that loses the free-block chain when its head moves along the all-blocks chain, for any block size but one. */
module FreeChainLoss {
  import opened HandleBlocks
  import opened HandleStores

  /** Fills the last block when no other block has room. */
  method FillLast(s: HandleStore, v: JSTaggedType)
    requires s.Valid() && s.FreeBlocks == []
    modifies s.Repr
    ensures s.Valid() && s.Repr >= old(s.Repr) && fresh(s.Repr - old(s.Repr))
    ensures s.FreeBlocks == [] && s.Blocks == old(s.Blocks) && s.lastNodes.IsFull()
  {
    hide HandleStore.Valid, HandleStore.Allocatable, HandleStore.TakesNull;
    while !s.lastNodes.IsFull()
      invariant s.Valid() && s.Repr >= old(s.Repr) && fresh(s.Repr - old(s.Repr))
      invariant s.FreeBlocks == [] && s.Blocks == old(s.Blocks)
      decreases s.blockSize - s.lastNodes.index
    {
      s.LastBlock();
      s.ValidIsAllocatable();
      var h := s.NewGlobalHandle(v);
      s.LastBlock();
    }
  }

  /** One more block, full. */
  method AddFullBlock(s: HandleStore, v: JSTaggedType)
    requires s.Valid() && s.FreeBlocks == [] && s.lastNodes.IsFull()
    modifies s.Repr
    ensures s.Valid() && s.Repr >= old(s.Repr) && fresh(s.Repr - old(s.Repr))
    ensures s.FreeBlocks == [] && |s.Blocks| == |old(s.Blocks)| + 1 && s.lastNodes.IsFull()
  {
    hide HandleStore.Valid, HandleStore.Allocatable, HandleStore.TakesNull;
    s.Shape();
    s.ValidIsAllocatable();
    var h := s.NewGlobalHandle(v);
    FillLast(s, v);
  }

  /** Frees all nodes of a block but one, when nothing is free: this puts the block, alone, on the free-block chain. */
  method EmptyButOne(s: HandleStore, block: NodeList)
    requires s.Valid() && s.FreeBlocks == [] && s.lastNodes.IsFull() && block in s.Blocks && s.blockSize >= 2
    modifies s.Repr
    ensures s.Valid() && s.Repr == old(s.Repr) && s.Blocks == old(s.Blocks) && s.lastNodes == old(s.lastNodes)
    ensures s.FreeBlocks == [block] && block.Used == [block.usedList] && s.lastNodes.IsFull()
  {
    hide HandleStore.Valid, HandleStore.Allocatable, HandleStore.TakesNull, RemovedOne;
    FullyUsed(s, block);
    HeadLink(s, block);
    while block.nodes[block.usedList].next != NIL
      invariant s.Valid() && s.Repr == old(s.Repr) && s.Blocks == old(s.Blocks) && s.lastNodes == old(s.lastNodes)
      invariant s.lastNodes.IsFull() && 0 <= block.usedList < block.nodes.Length && |block.Used| > 0
      invariant block.nodes[block.usedList].next == NIL <==> |block.Used| == 1
      invariant block.Used[0] == block.usedList && Handle(block, block.usedList) in s.Contents
      invariant if s.FreeBlocks == [] then |block.Used| >= 2 else s.FreeBlocks == [block]
      decreases |block.Used|
    {
      var h := Handle(block, block.usedList);
      ghost var used := block.Used;
      s.DisposeGlobalHandle(h);
      RemovedShorter(used, h.node, block.Used);
      HeadLink(s, block);
    }
  }

  lemma RemovedShorter<T>(s: seq<T>, x: T, t: seq<T>)
    requires RemovedOne(s, x, t)
    ensures |t| == |s| - 1
  {
  }

  /** A block with a node in use: the head of its used list is live and has no successor exactly if it is alone. */
  lemma HeadLink(s: HandleStore, block: NodeList)
    requires s.Valid() && block in s.Blocks && |block.Used| > 0
    ensures block.Used[0] == block.usedList && 0 <= block.usedList < block.nodes.Length
    ensures block.nodes[block.usedList].next == NIL <==> |block.Used| == 1
    ensures Handle(block, block.usedList) in s.Contents
  {
    hide HandleStore.LinksOk, HandleStore.FreeLinksOk, HandleStore.FullnessBut, HandleStore.FreeExactBut;
    assert block.NodesOk();
    assert block.nodes[..][block.usedList] == block.nodes[block.usedList];
    assert block.Used[0] in block.Used;
  }

  /** Every node of a full block with no free node is in use. */
  lemma FullyUsed(s: HandleStore, block: NodeList)
    requires s.Valid() && block in s.Blocks && s.lastNodes.IsFull() && s.FreeBlocks == [] && s.blockSize >= 2
    ensures |block.Used| >= 2
  {
    s.AllFull(block);
    s.Shape();
    hide HandleStore.LinksOk, HandleStore.FreeLinksOk, HandleStore.FullnessBut, HandleStore.FreeExactBut;
    TwoUsed(block);
  }

  lemma TwoUsed(b: NodeList)
    requires b.NodesOk() && b.IsFull() && !b.HasFreeNode() && b.nodes.Length >= 2
    ensures |b.Used| >= 2
  {
    var ns := b.nodes[..];
    assert ns[0].isUsing ==> 0 in b.Used;
    assert ns[1].isUsing ==> 1 in b.Used;
    assert b.Free == [];
    var i :| 0 <= i < |b.Used| && b.Used[i] == 0;
    var j :| 0 <= j < |b.Used| && b.Used[j] == 1;
    assert i != j;
  }

  /** With the head moving along the all-blocks chain, whatever the block size from two on, a run leaves a full block with no
      free node at the head of the free-block chain. */
  method AllBlocksNextBreaks(blockSize: nat, v: JSTaggedType) returns (s: HandleStore)
    requires blockSize >= 2
    ensures s.blockSize == blockSize && s.successor == AllBlocksNext && fresh(s.Repr)
    ensures s.BlocksValid() && s.Allocatable() && !s.Valid()
    ensures s.lastNodes.IsFull() && s.freeListNodes == s.lastNodes && !s.freeListNodes.HasFreeNode()
  {
    hide HandleStore.Valid, HandleStore.BlocksValid, HandleStore.Allocatable, RemovedOne;
    s := new HandleStore(blockSize, false, AllBlocksNext);
    s.Shape();
    FillLast(s, v);
    AddFullBlock(s, v);
    AddFullBlock(s, v);
    s.Shape();
    assert s.Blocks[1] in s.Blocks && s.Blocks[2] in s.Blocks;
    var middle: NodeList := s.topNodes.next;
    EmptyButOne(s, middle);
    s.Shape();
    HeadLink(s, middle);
    var last := Handle(middle, middle.usedList);
    s.AllFull(middle);
    assert s.LosesFreeChain(last);
    s.DisposeGlobalHandle(last);
  }

  /** The allocation that comes next gives the null handle. */
  method AllocatesNull(blockSize: nat, v: JSTaggedType) returns (s: HandleStore, h: Handle)
    requires blockSize >= 2
    ensures s.blockSize == blockSize && s.successor == AllBlocksNext && s.BlocksValid()
    ensures h.node == NIL
  {
    hide HandleStore.Valid, HandleStore.BlocksValid, HandleStore.Allocatable;
    s := AllBlocksNextBreaks(blockSize, v);
    h := s.NewGlobalHandle(v);
  }
}
