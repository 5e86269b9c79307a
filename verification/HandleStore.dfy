/** The chain of handle blocks behind one kind of handle, strong or weak. */
module HandleStores {
  import opened HandleBlocks

  /** A handle: the address of a node, that is its block and its place in it. */
  datatype Handle = Handle(block: NodeList, node: Link)

  /** Where the head of the chain of free blocks moves when the block at its head is deleted. */
  datatype FreeSuccessor = AllBlocksNext | FreeBlocksNext

  /** `s` is a doubly linked chain along next and prev. */
  ghost predicate Chained(s: seq<NodeList>)
    reads s`next, s`prev
  {
    && (forall i {:trigger s[i].next} :: 0 <= i < |s| ==> s[i].next == if i + 1 < |s| then s[i + 1] else null)
    && (forall i {:trigger s[i].prev} :: 0 <= i < |s| ==> s[i].prev == if i > 0 then s[i - 1] else null)
  }

  /** `s` is a doubly linked chain along freeNext and freePrev. */
  ghost predicate FreeChained(s: seq<NodeList>)
    reads s`freeNext, s`freePrev
  {
    && (forall i {:trigger s[i].freeNext} :: 0 <= i < |s| ==> s[i].freeNext == if i + 1 < |s| then s[i + 1] else null)
    && (forall i {:trigger s[i].freePrev} :: 0 <= i < |s| ==> s[i].freePrev == if i > 0 then s[i - 1] else null)
  }

  lemma RemovedMembers<T>(s: seq<T>, x: T, t: seq<T>)
    requires RemovedOne(s, x, t) && Distinct(s)
    ensures |t| == |s| - 1 && Distinct(t)
    ensures forall y {:trigger y in s} {:trigger y in t} :: y in t <==> y in s && y != x
  {
    var k :| 0 <= k < |s| && s[k] == x && t == Without(s, k);
    WithoutMembers(s, k);
  }

  /** A chain from which the block at position `k` was removed. */
  twostate lemma ChainedWithout(s: seq<NodeList>, new k: nat)
    requires k < |s| && old(Chained(s))
    requires k > 0 ==> s[k - 1].next == old(s[k].next)
    requires k + 1 < |s| ==> s[k + 1].prev == old(s[k].prev)
    requires forall i {:trigger s[i].next} :: 0 <= i < |s| && i != k - 1 ==> s[i].next == old(s[i].next)
    requires forall i {:trigger s[i].prev} :: 0 <= i < |s| && i != k + 1 ==> s[i].prev == old(s[i].prev)
    ensures Chained(Without(s, k))
  {
    var t := Without(s, k);
    forall i | 0 <= i < |t|
      ensures t[i].next == (if i + 1 < |t| then t[i + 1] else null)
      ensures t[i].prev == (if i > 0 then t[i - 1] else null)
    {
      assert t[i] == s[if i < k then i else i + 1];
    }
  }

  /** A free-block chain from which the block at position `k` was removed. */
  twostate lemma FreeChainedWithout(s: seq<NodeList>, new k: nat)
    requires k < |s| && old(FreeChained(s))
    requires k > 0 ==> s[k - 1].freeNext == old(s[k].freeNext)
    requires k + 1 < |s| ==> s[k + 1].freePrev == old(s[k].freePrev)
    requires forall i {:trigger s[i].freeNext} :: 0 <= i < |s| && i != k - 1 ==> s[i].freeNext == old(s[i].freeNext)
    requires forall i {:trigger s[i].freePrev} :: 0 <= i < |s| && i != k + 1 ==> s[i].freePrev == old(s[i].freePrev)
    ensures FreeChained(Without(s, k))
  {
    var t := Without(s, k);
    forall i | 0 <= i < |t|
      ensures t[i].freeNext == (if i + 1 < |t| then t[i + 1] else null)
      ensures t[i].freePrev == (if i > 0 then t[i - 1] else null)
    {
      assert t[i] == s[if i < k then i else i + 1];
    }
  }

  class HandleStore {
    const isWeak: bool
    const blockSize: nat
    const successor: FreeSuccessor
    var topNodes: NodeList
    var lastNodes: NodeList
    var freeListNodes: NodeList?
    ghost var Blocks: seq<NodeList>
    ghost var FreeBlocks: seq<NodeList>
    ghost var Contents: map<Handle, Content>
    ghost var Repr: set<object>

    /** The all-blocks chain runs from topNodes to lastNodes. */
    ghost predicate LinksOk()
      reads `topNodes, `lastNodes, `Blocks, Blocks`next, Blocks`prev
    {
      && |Blocks| > 0
      && Distinct(Blocks)
      && topNodes == Blocks[0] && topNodes in Blocks
      && lastNodes == Blocks[|Blocks| - 1] && lastNodes in Blocks
      && Chained(Blocks)
    }

    /** The free-block chain, its head aside: it runs through some of the blocks; the others are off it. */
    ghost predicate FreeChainOk()
      reads `Blocks, `FreeBlocks, Blocks`freeNext, Blocks`freePrev
    {
      && Distinct(FreeBlocks)
      && (forall i {:trigger FreeBlocks[i]} :: 0 <= i < |FreeBlocks| ==> FreeBlocks[i] in Blocks)
      && FreeChained(FreeBlocks)
      && (forall b {:trigger b in Blocks} :: b in Blocks && b !in FreeBlocks ==> b.freeNext == null && b.freePrev == null)
    }

    /** The free-block chain starts at freeListNodes. */
    ghost predicate FreeLinksOk()
      reads `freeListNodes, `Blocks, `FreeBlocks, Blocks`freeNext, Blocks`freePrev
    {
      FreeChainOk() && freeListNodes == if |FreeBlocks| == 0 then null else FreeBlocks[0]
    }

    /** The head of the free-block chain, right or wrong, is a block that is there, and so is the one after it. */
    ghost predicate HeadOk()
      reads `freeListNodes, `Blocks, Blocks`freeNext
    {
      freeListNodes == null ||
      (freeListNodes in Blocks && freeListNodes.freeNext != freeListNodes
       && (freeListNodes.freeNext == null || freeListNodes.freeNext in Blocks))
    }

    /** Every block is in order, and the blocks are separate objects. */
    ghost predicate EachBlockOk()
      reads `Blocks, Blocks`freeList, Blocks`usedList, Blocks`index, Blocks`Used, Blocks`Free, set b | b in Blocks :: b.nodes
    {
      && Separate()
      && (forall b {:trigger b in Blocks} :: b in Blocks ==>
        b.nodes.Length == blockSize && b.isWeak == isWeak && b.NodesOk())
    }

    /** No two blocks share a node array. */
    ghost predicate Separate()
      reads `Blocks
    {
      forall b, c {:trigger b.nodes, c.nodes} :: b in Blocks && c in Blocks && b.nodes == c.nodes ==> b == c
    }

    /** Only the last block can be non-full; a full block has a used node unless it is `x` or alone. */
    ghost predicate FullnessBut(x: NodeList?)
      reads `lastNodes, `Blocks, Blocks`index, Blocks`usedList
    {
      forall b {:trigger b in Blocks} :: b in Blocks ==>
        && (b != lastNodes ==> b.IsFull())
        && (|Blocks| > 1 && b != x ==> b.HasUsagedNode())
    }

    /** The free-block chain holds exactly the blocks with a free node, `x` aside. */
    ghost predicate FreeExactBut(x: NodeList?)
      reads `Blocks, `FreeBlocks, Blocks`freeList
    {
      forall b {:trigger b in Blocks} :: b in Blocks && b != x ==> (b.HasFreeNode() <==> b in FreeBlocks)
    }

    /** Contents is exactly what the used nodes hold. */
    ghost predicate ContentsOk()
      reads `Blocks, `Contents, Blocks`Used, set b | b in Blocks :: b.nodes
    {
      && (forall h {:trigger h in Contents} :: h in Contents ==>
        && h.block in Blocks
        && h.node in h.block.Used
        && 0 <= h.node < h.block.nodes.Length
        && Contents[h] == Held(h.block.nodes[h.node]))
      && (forall b, x {:trigger Handle(b, x)} :: b in Blocks && x in b.Used ==> Handle(b, x) in Contents)
    }

    ghost predicate ReprOk()
      reads `Blocks, `Repr
    {
      && this in Repr
      && (forall i {:trigger Blocks[i]} :: 0 <= i < |Blocks| ==> Blocks[i] in Repr && Blocks[i].nodes in Repr)
    }

    /** All of the invariant but the free-block chain. */
    ghost predicate BlocksValid()
      reads this, Repr
    {
      blockSize >= 1 && ReprOk() && LinksOk() && EachBlockOk() && FullnessBut(null) && ContentsOk()
    }

    ghost predicate Valid()
      reads this, Repr
    {
      BlocksValid() && FreeLinksOk() && FreeExactBut(null)
    }

    /** What allocating needs: less than the invariant, for the head of the free-block chain can be wrong. */
    ghost predicate Allocatable()
      reads this, Repr
    {
      BlocksValid() && HeadOk() && (freeListNodes == null ==> lastNodes.HasUsagedNode())
    }

    /** Allocating would take a node from a block that has none. */
    predicate TakesNull()
      reads `lastNodes, `freeListNodes, lastNodes`index
      reads if freeListNodes == null then {} else {freeListNodes}`freeList
    {
      lastNodes.IsFull() && freeListNodes != null && !freeListNodes.HasFreeNode()
    }

    constructor (blockSize: nat, isWeak: bool, successor: FreeSuccessor)
      requires blockSize >= 1
      ensures Valid() && fresh(Repr) && this in Repr
      ensures this.blockSize == blockSize && this.isWeak == isWeak && this.successor == successor
      ensures |Blocks| == 1 && FreeBlocks == [] && Contents == map[] && lastNodes.index == 0
    {
      this.blockSize, this.isWeak, this.successor := blockSize, isWeak, successor;
      var block := new NodeList(blockSize, isWeak);
      topNodes, lastNodes, freeListNodes := block, block, null;
      Blocks, FreeBlocks, Contents := [block], [], map[];
      Repr := {this, block, block.nodes};
    }

    /** What the used nodes hold after block `b` handed out node `x`. */
    twostate lemma ContentsGrow(b: NodeList, new x: Link)
      requires old(Separate()) && old(ContentsOk()) && Blocks == old(Blocks)
      requires b in Blocks && 0 <= x < b.nodes.Length && x !in old(b.Used)
      requires b.Used == [x] + old(b.Used)
      requires b.Undisturbed(x)
      requires forall c {:trigger c in Blocks} :: c in Blocks && c != b ==> c.Used == old(c.Used) && unchanged(c.nodes)
      requires Contents == old(Contents)[Handle(b, x) := Held(b.nodes[x])]
      ensures Handle(b, x) !in old(Contents)
      ensures ContentsOk()
    {
    }

    /** What the used nodes hold after block `b` took back its node at position `k`. */
    twostate lemma ContentsShrink(b: NodeList, new k: nat)
      requires old(Separate()) && old(ContentsOk()) && Blocks == old(Blocks)
      requires b in Blocks && k < |old(b.Used)| && Distinct(old(b.Used))
      requires b.Used == Without(old(b.Used), k)
      requires b.Undisturbed(old(b.Used)[k])
      requires forall c {:trigger c in Blocks} :: c in Blocks && c != b ==> c.Used == old(c.Used) && unchanged(c.nodes)
      requires Contents == old(Contents) - {Handle(b, old(b.Used)[k])}
      ensures ContentsOk()
    {
      WithoutMembers(old(b.Used), k);
      forall h | h in Contents
        ensures h.block in Blocks && h.node in h.block.Used && 0 <= h.node < h.block.nodes.Length
        ensures Contents[h] == Held(h.block.nodes[h.node])
      {
        assert h in old(Contents);
      }
    }

    lemma LastIsBlock()
      requires LinksOk()
      ensures lastNodes in Blocks && topNodes in Blocks
    {
    }

    /** Takes a new handle from the last block when that is not full. */
    method NewFromLast(value: JSTaggedType) returns (h: Handle)
      requires BlocksValid() && !lastNodes.IsFull()
      modifies lastNodes`index, lastNodes`usedList, lastNodes`Used, lastNodes.nodes, `Contents
      ensures BlocksValid()
      ensures h.block == lastNodes && h.node != NIL && h !in old(Contents)
      ensures h.block.index == old(lastNodes.index) + 1 && h.block.Used == [h.node] + old(lastNodes.Used)
      ensures Contents == old(Contents)[h := Content(value, NULLPTR, NULLPTR)]
    {
      hide NodeList.NodesOk, LinksOk;
      LastIsBlock();
      var node := lastNodes.NewNode(value);
      h := Handle(lastNodes, node);
      Contents := Contents[h := Content(value, NULLPTR, NULLPTR)];
      ContentsGrow(lastNodes, node);
    }

    /** Takes the block at the head of the free-block chain off it. */
    method PopFreeBlock()
      requires HeadOk() && freeListNodes != null
      modifies `freeListNodes, `FreeBlocks, freeListNodes`freeNext, freeListNodes`freePrev
      modifies if freeListNodes.freeNext == null then {} else {freeListNodes.freeNext}`freePrev
      ensures old(FreeLinksOk()) ==> FreeLinksOk() && old(FreeBlocks) == [old(freeListNodes)] + FreeBlocks
      ensures old(FreeLinksOk()) ==>
        forall b {:trigger b in FreeBlocks} :: b in FreeBlocks <==> b in old(FreeBlocks) && b != old(freeListNodes)
    {
      var head, next := freeListNodes, freeListNodes.freeNext;
      head.freeNext := null;
      head.freePrev := null;
      if next != null {
        next.freePrev := null;
      }
      freeListNodes := next;
      if old(FreeLinksOk()) {
        hide FreeLinksOk;
        FreeBlocks := FreeBlocks[1..];
        Popped(head);
      }
    }

    /** The free-block chain without its first block. */
    twostate lemma Popped(head: NodeList)
      requires old(FreeLinksOk()) && head == old(freeListNodes)
      requires Blocks == old(Blocks) && FreeBlocks == old(FreeBlocks)[1..] && freeListNodes == old(head.freeNext)
      requires head.freeNext == null && head.freePrev == null
      requires freeListNodes != null ==> freeListNodes.freePrev == null
      requires forall b {:trigger b in Blocks} :: b in Blocks && b != head ==>
        b.freeNext == old(b.freeNext) && (b != freeListNodes ==> b.freePrev == old(b.freePrev))
      ensures FreeLinksOk() && old(FreeBlocks) == [head] + FreeBlocks
      ensures forall b {:trigger b in FreeBlocks} :: b in FreeBlocks <==> b in old(FreeBlocks) && b != head
    {
      var chain := old(FreeBlocks);
      assert chain == [head] + FreeBlocks;
      assert forall b {:trigger b in chain} {:trigger b in FreeBlocks} :: b in chain <==> b == head || b in FreeBlocks;
      forall i | 0 <= i < |FreeBlocks|
        ensures FreeBlocks[i] in Blocks && FreeBlocks[i] != head
        ensures FreeBlocks[i].freeNext == if i + 1 < |FreeBlocks| then FreeBlocks[i + 1] else null
        ensures FreeBlocks[i].freePrev == if i > 0 then FreeBlocks[i - 1] else null
      {
        assert FreeBlocks[i] == chain[i + 1] && chain[i + 1] in Blocks;
        assert old(chain[0].freeNext) == chain[1];
      }
    }

    /** Puts a block that is off the free-block chain at its head. */
    method PushFreeBlock(list: NodeList)
      requires FreeLinksOk() && list in Blocks && list !in FreeBlocks
      modifies `freeListNodes, `FreeBlocks, Blocks`freeNext, Blocks`freePrev
      ensures FreeLinksOk() && FreeBlocks == [list] + old(FreeBlocks)
    {
      assert freeListNodes != null ==> freeListNodes in FreeBlocks;
      list.freeNext := freeListNodes;
      if freeListNodes != null {
        freeListNodes.freePrev := list;
      }
      freeListNodes := list;
      FreeBlocks := [list] + FreeBlocks;
    }

    /** Appends a block to the all-blocks chain. */
    method AppendBlock(block: NodeList)
      requires LinksOk() && block !in Blocks
      modifies `lastNodes, `Blocks, lastNodes`next, block`next, block`prev
      ensures LinksOk() && Blocks == old(Blocks) + [block] && lastNodes == block
    {
      block.LinkTo(lastNodes);
      lastNodes := block;
      Blocks := Blocks + [block];
    }

    lemma FreeHeadIsBlock()
      requires FreeLinksOk() && FreeExactBut(null) && freeListNodes != null
      ensures |FreeBlocks| > 0 && freeListNodes == FreeBlocks[0] && freeListNodes in Blocks && freeListNodes.HasFreeNode()
    {
      assert FreeBlocks[0] in FreeBlocks;
    }

    /** Fills a free node of the block at the head of the free-block chain, if that has one; this may use up its last. */
    method TakeFree(value: JSTaggedType) returns (h: Handle)
      requires BlocksValid() && freeListNodes != null && freeListNodes in Blocks
      modifies freeListNodes`freeList, freeListNodes`usedList, freeListNodes`Used, freeListNodes`Free, freeListNodes.nodes
      modifies `Contents
      ensures BlocksValid() && (old(FreeExactBut(null)) ==> FreeExactBut(freeListNodes))
      ensures h.block == freeListNodes && h !in old(Contents)
      ensures h.node == NIL <==> !old(freeListNodes.HasFreeNode())
      ensures Contents == if h.node == NIL then old(Contents) else old(Contents)[h := Content(value, NULLPTR, NULLPTR)]
    {
      hide NodeList.NodesOk, LinksOk;
      var node := freeListNodes.GetFreeNode(value);
      h := Handle(freeListNodes, node);
      if node != NIL {
        Contents := Contents[h := Content(value, NULLPTR, NULLPTR)];
        ContentsGrow(freeListNodes, node);
      }
    }

    /** Takes a new handle from the block at the head of the free-block chain; the null handle if it has no free node. */
    method NewFromFree(value: JSTaggedType) returns (h: Handle)
      requires BlocksValid() && HeadOk() && freeListNodes != null
      modifies freeListNodes`freeList, freeListNodes`usedList, freeListNodes`Used, freeListNodes`Free, freeListNodes.nodes
      modifies `Contents, `freeListNodes, `FreeBlocks, freeListNodes`freeNext, freeListNodes`freePrev
      modifies if freeListNodes.freeNext == null then {} else {freeListNodes.freeNext}`freePrev
      ensures BlocksValid() && (old(Valid()) ==> Valid())
      ensures h.block == old(freeListNodes) && h !in old(Contents)
      ensures h.node == NIL <==> !old(freeListNodes.HasFreeNode())
      ensures Contents == if h.node == NIL then old(Contents) else old(Contents)[h := Content(value, NULLPTR, NULLPTR)]
      ensures old(Valid()) ==> old(FreeBlocks) == if h.block.HasFreeNode() then FreeBlocks else [h.block] + FreeBlocks
    {
      hide NodeList.NodesOk, LinksOk, FreeLinksOk, EachBlockOk, FullnessBut, ContentsOk, ReprOk;
      if Valid() {
        FreeHeadIsBlock();
      }
      h := TakeFree(value);
      if !h.block.HasFreeNode() {
        PopFreeBlock();
      }
    }

    /** A block none of whose nodes is free and all of whose nodes were handed out has a used node. */
    static lemma FullBlockIsUsed(b: NodeList)
      requires b.NodesOk() && b.IsFull() && !b.HasFreeNode() && b.nodes.Length >= 1
      ensures b.usedList != NIL
    {
      assert b.nodes[..][0] in b.nodes[..];
    }

    lemma NoFreeBlock()
      requires FreeLinksOk() && FreeExactBut(null) && freeListNodes == null
      ensures FreeBlocks == []
      ensures forall b {:trigger b in Blocks} :: b in Blocks ==> !b.HasFreeNode() && b.freeNext == null && b.freePrev == null
    {
    }

    /** The invariant after an empty block was appended. */
    twostate lemma Appended(new block: NodeList)
      requires old(BlocksValid()) && old(lastNodes.IsFull()) && old(lastNodes.usedList) != NIL
      requires Blocks == old(Blocks) + [block] && lastNodes == block && Contents == old(Contents)
      requires FreeBlocks == old(FreeBlocks) && freeListNodes == old(freeListNodes)
      requires fresh(block.nodes) && block.NodesOk() && block.nodes.Length == blockSize && block.isWeak == isWeak
      requires blockSize >= 1 && block.index == 0 && block.Used == [] && !block.HasFreeNode()
      requires block.freeNext == null && block.freePrev == null
      requires forall b {:trigger b in old(Blocks)} :: b in old(Blocks) ==>
        && unchanged(b.nodes) && unchanged(b`index) && unchanged(b`usedList) && unchanged(b`freeList) && unchanged(b`Used)
        && unchanged(b`Free) && unchanged(b`freeNext) && unchanged(b`freePrev)
      ensures EachBlockOk() && FullnessBut(null) && ContentsOk()
      ensures old(FreeLinksOk() && FreeExactBut(null)) ==> FreeLinksOk() && FreeExactBut(null)
    {
      hide Chained, FreeChained;
      forall b | b in Blocks
        ensures b in old(Blocks) || b == block
      {
      }
    }

    /** Adds an empty block. */
    method Expand()
      requires BlocksValid() && lastNodes.IsFull() && lastNodes.HasUsagedNode()
      modifies `lastNodes, `Blocks, `Repr, lastNodes`next
      ensures BlocksValid() && (old(Valid()) ==> Valid()) && fresh(lastNodes) && fresh(Repr - old(Repr)) && Repr >= old(Repr)
      ensures Blocks == old(Blocks) + [lastNodes] && !lastNodes.IsFull()
      ensures lastNodes.index == 0 && lastNodes.Used == []
    {
      hide NodeList.NodesOk, LinksOk, FreeLinksOk;
      LastIsBlock();
      var block := new NodeList(blockSize, isWeak);
      AppendBlock(block);
      Repr := Repr + {block, block.nodes};
      Appended(block);
    }

    /** A store in order can allocate, and never takes a node from a block that has none. */
    lemma ValidIsAllocatable()
      requires Valid()
      ensures BlocksValid() && Allocatable() && !TakesNull() && FreeChainOk()
    {
      hide LinksOk, NodeList.NodesOk, Chained;
      LastIsBlock();
      if freeListNodes == null {
        hide FreeLinksOk;
        NoFreeBlock();
        if lastNodes.IsFull() {
          FullBlockIsUsed(lastNodes);
        }
      } else {
        FreeHeadIsBlock();
        assert |FreeBlocks| > 1 ==> FreeBlocks[0].freeNext == FreeBlocks[1] && FreeBlocks[1] in Blocks;
      }
    }

    /** A new handle: from the last block, else from the block at the head of the free-block chain, else from a new block.
        It is the null handle exactly if the head of that chain is a block with no free node. */
    method NewGlobalHandle(value: JSTaggedType) returns (h: Handle)
      requires Allocatable()
      modifies Repr
      ensures BlocksValid() && fresh(Repr - old(Repr)) && Repr >= old(Repr)
      ensures old(Valid()) ==> Valid()
      ensures h !in old(Contents)
      ensures h.node == NIL <==> old(TakesNull())
      ensures Contents == if h.node == NIL then old(Contents) else old(Contents)[h := Content(value, NULLPTR, NULLPTR)]
      ensures old(Valid()) ==>
        var last, first := old(lastNodes), old(freeListNodes);
        if !old(lastNodes.IsFull()) then
          && h.block == last && Blocks == old(Blocks) && FreeBlocks == old(FreeBlocks)
          && last.index == old(last.index) + 1 && last.Used == [h.node] + old(last.Used)
        else if first != null then
          && h.block == first && Blocks == old(Blocks)
          && old(FreeBlocks) == (if first.HasFreeNode() then FreeBlocks else [first] + FreeBlocks)
        else
          && fresh(h.block) && Blocks == old(Blocks) + [h.block] && FreeBlocks == old(FreeBlocks)
          && h.block.index == 1 && h.block.Used == [h.node]
      ensures forall b {:trigger b in old(Blocks)} :: b in old(Blocks) && b != h.block ==>
        b.index == old(b.index) && b.Used == old(b.Used)
    {
      hide NodeList.NodesOk, LinksOk, EachBlockOk, FullnessBut, ContentsOk, FreeExactBut, FreeLinksOk;
      LastIsBlock();
      if !lastNodes.IsFull() {
        h := NewFromLast(value);
        return;
      }
      if freeListNodes != null {
        h := NewFromFree(value);
        return;
      }
      Expand();
      LastIsBlock();
      h := NewFromLast(value);
    }

    /** The neighbours of a block in the all-blocks chain. */
    lemma BlockNeighbours(k: nat)
      requires LinksOk() && k < |Blocks| && |Blocks| > 1
      ensures var b := Blocks[k];
        && b.next == (if k + 1 < |Blocks| then Blocks[k + 1] else null)
        && b.prev == (if k > 0 then Blocks[k - 1] else null)
        && b != b.next && b != b.prev
        && (b == topNodes <==> k == 0) && (b == lastNodes <==> k == |Blocks| - 1)
      ensures Distinct(Blocks)
    {
    }

    /** The neighbours of a block in the free-block chain. */
    lemma FreeNeighbours(b: NodeList) returns (j: nat)
      requires FreeLinksOk() && b in Blocks
      ensures b != b.freeNext && b != b.freePrev
      ensures b.freeNext == null || b.freeNext in FreeBlocks
      ensures b.freePrev == null || b.freePrev in FreeBlocks
      ensures forall c {:trigger c in FreeBlocks} :: c in FreeBlocks ==> c in Blocks
      ensures b in FreeBlocks ==> j < |FreeBlocks| && FreeBlocks[j] == b
      ensures b in FreeBlocks ==> b.freeNext == (if j + 1 < |FreeBlocks| then FreeBlocks[j + 1] else null)
      ensures b in FreeBlocks ==> b.freePrev == (if j > 0 then FreeBlocks[j - 1] else null)
      ensures b == freeListNodes <==> b in FreeBlocks && j == 0
      ensures freeListNodes == if |FreeBlocks| == 0 then null else FreeBlocks[0]
      ensures Distinct(FreeBlocks)
    {
      j := 0;
      if b in FreeBlocks {
        j :| 0 <= j < |FreeBlocks| && FreeBlocks[j] == b;
      }
    }

    /** The all-blocks chain itself, its ends aside, after its block at position `k` was cut out. */
    twostate lemma ChainCut(new k: nat)
      requires old(LinksOk()) && k < |old(Blocks)| && Unlinked(old(Blocks), old(Blocks)[k])
      ensures Chained(Without(old(Blocks), k))
    {
      hide Without;
      var blocks := old(Blocks);
      forall i | 0 <= i < |blocks|
        ensures i != k - 1 ==> blocks[i].next == old(blocks[i].next)
        ensures i != k + 1 ==> blocks[i].prev == old(blocks[i].prev)
        ensures i == k - 1 ==> blocks[i].next == old(blocks[k].next)
        ensures i == k + 1 ==> blocks[i].prev == old(blocks[k].prev)
      {
      }
      ChainedWithout(blocks, k);
    }

    /** The all-blocks chain after the block at position `k` was removed. */
    twostate lemma LinksRemoved(new k: nat)
      requires old(LinksOk()) && k < |old(Blocks)| && |old(Blocks)| > 1
      requires Blocks == Without(old(Blocks), k)
      requires var b := old(Blocks)[k];
        && Unlinked(old(Blocks), b)
        && (if b == old(topNodes) then topNodes == old(b.next) else topNodes == old(topNodes))
        && (if b == old(lastNodes) then lastNodes == old(b.prev) else lastNodes == old(lastNodes))
      ensures LinksOk()
    {
      var blocks := old(Blocks);
      ChainCut(k);
      WithoutMembers(blocks, k);
      assert k == 0 ==> old(blocks[k].next) == blocks[1];
      assert k == |blocks| - 1 ==> old(blocks[k].prev) == blocks[k - 1];
      hide Chained, Unlinked;
    }

    /** Block `b` was cut out of the all-blocks chain; no other link of that chain was written. */
    static twostate predicate Unlinked(blocks: seq<NodeList>, b: NodeList)
      reads blocks`next, blocks`prev
    {
      forall i {:trigger blocks[i]} :: 0 <= i < |blocks| ==>
        && blocks[i].next == (if blocks[i] == old(b.prev) then old(b.next) else old(blocks[i].next))
        && blocks[i].prev == (if blocks[i] == old(b.next) then old(b.prev) else old(blocks[i].prev))
    }

    /** Block `b` was cut out of the free-block chain, if it was on it; no other link of that chain was written. */
    static twostate predicate FreeUnlinked(blocks: seq<NodeList>, b: NodeList)
      reads blocks`freeNext, blocks`freePrev
    {
      forall i {:trigger blocks[i]} :: 0 <= i < |blocks| ==>
        && blocks[i].freeNext == (if blocks[i] == old(b.freePrev) then old(b.freeNext) else old(blocks[i].freeNext))
        && blocks[i].freePrev == (if blocks[i] == old(b.freeNext) then old(b.freePrev) else old(blocks[i].freePrev))
    }

    /** The chain itself, its head aside, after its block at position `j` was cut out. */
    twostate lemma FreeChainCut(new j: nat)
      requires old(FreeLinksOk()) && j < |old(FreeBlocks)| && FreeUnlinked(old(Blocks), old(FreeBlocks)[j])
      ensures FreeChained(Without(old(FreeBlocks), j))
    {
      var free := old(FreeBlocks);
      forall i | 0 <= i < |free|
        ensures i != j - 1 ==> free[i].freeNext == old(free[i].freeNext)
        ensures i != j + 1 ==> free[i].freePrev == old(free[i].freePrev)
        ensures i == j - 1 ==> free[i].freeNext == old(free[j].freeNext)
        ensures i == j + 1 ==> free[i].freePrev == old(free[j].freePrev)
      {
        var m :| 0 <= m < |old(Blocks)| && old(Blocks)[m] == free[i];
      }
      FreeChainedWithout(free, j);
    }

    /** The blocks off the free-block chain stay off it when its block at position `j` is cut out. */
    twostate lemma OffChain(c: NodeList, new j: nat)
      requires old(FreeLinksOk()) && j < |old(FreeBlocks)| && FreeUnlinked(old(Blocks), old(FreeBlocks)[j])
      requires c in old(Blocks) && c !in old(FreeBlocks)
      ensures c.freeNext == null && c.freePrev == null
    {
      var blocks, free := old(Blocks), old(FreeBlocks);
      var m :| 0 <= m < |blocks| && blocks[m] == c;
      assert old(free[j].freePrev) == if j > 0 then free[j - 1] else null;
      assert old(free[j].freeNext) == if j + 1 < |free| then free[j + 1] else null;
    }

    /** The free-block chain after block `b`, at position `k` of the other chain, was cut out of it. */
    twostate lemma FreeLinksCut(b: NodeList, new k: nat, new j: nat)
      requires old(FreeLinksOk()) && Distinct(old(Blocks)) && k < |old(Blocks)| && old(Blocks)[k] == b
      requires FreeUnlinked(old(Blocks), b) && Blocks == Without(old(Blocks), k)
      requires j < |old(FreeBlocks)| && old(FreeBlocks)[j] == b && FreeBlocks == Without(old(FreeBlocks), j)
      ensures FreeChainOk()
    {
      hide Chained, FreeChained;
      FreeChainCut(j);
      WithoutMembers(old(Blocks), k);
      WithoutMembers(old(FreeBlocks), j);
      forall i | 0 <= i < |FreeBlocks|
        ensures FreeBlocks[i] in Blocks
      {
        assert FreeBlocks[i] in FreeBlocks;
      }
      forall c | c in Blocks && c !in FreeBlocks
        ensures c.freeNext == null && c.freePrev == null
      {
        OffChain(c, j);
      }
    }

    /** A block off the free-block chain leaves it as it is. */
    twostate lemma FreeLinksAside(b: NodeList, new k: nat)
      requires old(FreeLinksOk()) && Distinct(old(Blocks)) && k < |old(Blocks)| && old(Blocks)[k] == b
      requires FreeUnlinked(old(Blocks), b) && Blocks == Without(old(Blocks), k)
      requires b !in old(FreeBlocks) && FreeBlocks == old(FreeBlocks) && freeListNodes == old(freeListNodes)
      ensures FreeLinksOk()
    {
      var blocks := old(Blocks);
      WithoutMembers(blocks, k);
      assert b in blocks;
      forall c | c in blocks
        ensures c.freeNext == old(c.freeNext) && c.freePrev == old(c.freePrev)
      {
        var m :| 0 <= m < |blocks| && blocks[m] == c;
      }
    }

    /** The free-block chain after a block was removed and the head was moved, rightly or wrongly. */
    twostate lemma FreeLinksRemoved(list: NodeList, new k: nat, new j: nat)
      requires old(LinksOk() && FreeLinksOk()) && |old(Blocks)| > 1
      requires k < |old(Blocks)| && old(Blocks)[k] == list && Blocks == Without(old(Blocks), k)
      requires FreeUnlinked(old(Blocks), list)
      requires list in old(FreeBlocks) ==> j < |old(FreeBlocks)| && old(FreeBlocks)[j] == list
      requires FreeBlocks == if list in old(FreeBlocks) then Without(old(FreeBlocks), j) else old(FreeBlocks)
      requires freeListNodes ==
        if old(freeListNodes) != list then old(freeListNodes)
        else if successor.FreeBlocksNext? then old(list.freeNext) else old(list.next)
      ensures FreeChainOk() && HeadOk()
      ensures FreeLinksOk() <==> !(successor.AllBlocksNext? && old(freeListNodes) == list && old(list.next != list.freeNext))
    {
      ghost var free := old(FreeBlocks);
      if list in free {
        FreeLinksCut(list, k, j);
        assert |free| > 1 ==> old(free[0].freeNext) == free[1];
      } else {
        FreeLinksAside(list, k);
      }
      HeadInBlocks(list, k);
      HeadIsOk();
    }

    /** Wherever the head moved, it is among the blocks that are left. */
    twostate lemma HeadInBlocks(list: NodeList, new k: nat)
      requires old(LinksOk() && FreeLinksOk()) && |old(Blocks)| > 1
      requires k < |old(Blocks)| && old(Blocks)[k] == list && Blocks == Without(old(Blocks), k)
      requires freeListNodes ==
        if old(freeListNodes) != list then old(freeListNodes)
        else if successor.FreeBlocksNext? then old(list.freeNext) else old(list.next)
      ensures freeListNodes == null || freeListNodes in Blocks
    {
      WithoutMembers(old(Blocks), k);
      assert k + 1 < |old(Blocks)| ==> old(Blocks)[k + 1] in old(Blocks);
      if |old(FreeBlocks)| > 0 {
        assert old(FreeBlocks)[0] in old(Blocks) &&
          old(FreeBlocks[0].freeNext) == if |old(FreeBlocks)| > 1 then old(FreeBlocks)[1] else null;
      }
    }

    lemma HeadIsOk()
      requires FreeChainOk() && (freeListNodes == null || freeListNodes in Blocks)
      ensures HeadOk()
    {
      if freeListNodes != null && freeListNodes in FreeBlocks {
        var i :| 0 <= i < |FreeBlocks| && FreeBlocks[i] == freeListNodes;
        assert FreeBlocks[i].freeNext == if i + 1 < |FreeBlocks| then FreeBlocks[i + 1] else null;
      }
    }

    /** Cuts a block out of both chains. */
    method Cut(list: NodeList, ghost k: nat)
      requires LinksOk() && FreeLinksOk() && k < |Blocks| && Blocks[k] == list && |Blocks| > 1
      modifies Blocks`next, Blocks`prev, Blocks`freeNext, Blocks`freePrev
      ensures Unlinked(old(Blocks), list) && FreeUnlinked(old(Blocks), list)
      ensures list.next == old(list.next) && list.prev == old(list.prev) && list.freeNext == old(list.freeNext)
    {
      hide LinksOk, FreeLinksOk, Distinct;
      BlockNeighbours(k);
      ghost var j := FreeNeighbours(list);
      list.RemoveList();
    }

    /** Moves the heads and the end of the chains off a block. */
    method MoveHeads(list: NodeList)
      requires list.prev != null || lastNodes != list
      requires list.next != null || topNodes != list
      modifies `topNodes, `lastNodes, `freeListNodes
      ensures freeListNodes ==
        if old(freeListNodes) != list then old(freeListNodes)
        else if successor.FreeBlocksNext? then list.freeNext else list.next
      ensures topNodes == if old(topNodes) == list then list.next else old(topNodes)
      ensures lastNodes == if old(lastNodes) == list then list.prev else old(lastNodes)
    {
      if freeListNodes == list {
        freeListNodes := if successor.FreeBlocksNext? then list.freeNext else list.next;
      }
      if topNodes == list {
        topNodes := list.next;
      }
      if lastNodes == list {
        lastNodes := list.prev;
      }
    }

    /** Removes a block from both chains. The free-block chain stays in order exactly when its head, if that is
        the block removed, moves to the next free block. */
    method DeleteBlock(list: NodeList)
      requires LinksOk() && FreeLinksOk() && list in Blocks && |Blocks| > 1
      modifies `topNodes, `lastNodes, `freeListNodes, `Blocks, `FreeBlocks
      modifies Blocks`next, Blocks`prev, Blocks`freeNext, Blocks`freePrev
      ensures LinksOk() && FreeChainOk() && HeadOk()
      ensures RemovedOne(old(Blocks), list, Blocks)
      ensures if list in old(FreeBlocks) then RemovedOne(old(FreeBlocks), list, FreeBlocks) else FreeBlocks == old(FreeBlocks)
      ensures list == old(lastNodes) || lastNodes == old(lastNodes)
      ensures freeListNodes ==
        if old(freeListNodes) != list then old(freeListNodes)
        else if successor.FreeBlocksNext? then old(list.freeNext) else old(list.next)
      ensures FreeLinksOk() <==> !(successor.AllBlocksNext? && old(freeListNodes) == list && old(list.next != list.freeNext))
    {
      hide LinksOk, FreeLinksOk, FreeChainOk, HeadOk, Unlinked, FreeUnlinked, Distinct;
      ghost var k :| 0 <= k < |Blocks| && Blocks[k] == list;
      ghost var blocks, free := Blocks, FreeBlocks;
      BlockNeighbours(k);
      ghost var j := FreeNeighbours(list);
      Cut(list, k);
      MoveHeads(list);
      Blocks := Without(blocks, k);
      FreeBlocks := if list in free then Without(free, j) else free;
      LinksRemoved(k);
      FreeLinksRemoved(list, k, j);
    }

    lemma ContentsAreUsed(h: Handle)
      requires EachBlockOk() && ContentsOk() && h in Contents
      ensures h.block in Blocks && 0 <= h.node < h.block.nodes.Length && h.node in h.block.Used && Distinct(h.block.Used)
    {
    }

    static lemma UsedIsThreaded(b: NodeList)
      requires b.NodesOk()
      ensures b.usedList == NIL <==> b.Used == []
      ensures b.freeList == NIL <==> b.Free == []
    {
    }

    lemma HandlesInRepr()
      requires BlocksValid()
      ensures forall h {:trigger h in Contents} :: h in Contents ==>
        h.block in Blocks && h.block in Repr && h.block.nodes in Repr && h.node != NIL
    {
      forall h | h in Contents
        ensures h.block in Blocks && h.block in Repr && h.block.nodes in Repr && h.node != NIL
      {
        ContentsAreUsed(h);
      }
    }

    /** Takes back the node of a live handle; what becomes of its block is not settled yet. */
    method ReleaseNode(h: Handle)
      requires Valid() && h in Contents
      modifies h.block`freeList, h.block`usedList, h.block`Used, h.block`Free, h.block.nodes, `Contents
      ensures ReprOk() && LinksOk() && EachBlockOk() && FullnessBut(h.block) && ContentsOk()
      ensures FreeLinksOk() && FreeExactBut(h.block) && h.block.HasFreeNode()
      ensures Contents == old(Contents) - {h}
      ensures h.block in Blocks
      ensures h.block.usedList == NIL <==> h.block.Used == []
      ensures h.block.Used == [] <==> old(h.block.Used == [h.node])
      ensures RemovedOne(old(h.block.Used), h.node, h.block.Used)
    {
      hide NodeList.NodesOk, LinksOk, FreeLinksOk, ContentsOk;
      ContentsAreUsed(h);
      ghost var k := h.block.FreeNode(h.node);
      Contents := Contents - {h};
      ContentsShrink(h.block, k);
      UsedIsThreaded(h.block);
    }

    /** Disposing of `h` deletes its block. */
    ghost predicate Deletes(h: Handle)
      reads `Blocks, h.block`index, h.block`Used
    {
      h.block.IsFull() && h.block.Used == [h.node] && |Blocks| > 1
    }

    /** The step that the head of the free-block chain takes when its block is deleted does not lead to the next free block. */
    ghost predicate LosesFreeChain(h: Handle)
      reads `Blocks, `freeListNodes, h.block`index, h.block`Used, h.block`next, h.block`freeNext
    {
      successor.AllBlocksNext? && Deletes(h) && freeListNodes == h.block && h.block.next != h.block.freeNext
    }

    /** The same, told from what a caller can look at before the call. */
    predicate BreaksFreeChain(h: Handle)
      requires 0 <= h.node < h.block.nodes.Length
      reads `topNodes, `lastNodes, `freeListNodes, h.block`index, h.block`usedList, h.block`next, h.block`freeNext, h.block.nodes
    {
      && successor.AllBlocksNext?
      && h.block.IsFull() && h.block.usedList == h.node && h.block.nodes[h.node].next == NIL && topNodes != lastNodes
      && freeListNodes == h.block && h.block.next != h.block.freeNext
    }

    lemma BreaksIffLoses(h: Handle)
      requires Valid() && h in Contents
      ensures 0 <= h.node < h.block.nodes.Length
      ensures BreaksFreeChain(h) <==> LosesFreeChain(h)
    {
      hide FreeLinksOk, FullnessBut, FreeExactBut;
      ContentsAreUsed(h);
      OneBlock();
      OnlyUsed(h.block, h.node);
    }

    static lemma OnlyUsed(b: NodeList, x: Link)
      requires b.NodesOk() && x in b.Used && 0 <= x < b.nodes.Length
      ensures b.Used == [x] <==> b.usedList == x && b.nodes[x].next == NIL
    {
      assert b.nodes[..][x] == b.nodes[x];
    }

    /** In blocks of one node a block on the free-block chain has no node in use, so that the chain is never lost. */
    lemma SmallBlocksNeverLose(h: Handle)
      requires Valid() && h in Contents && blockSize == 1
      ensures !LosesFreeChain(h)
    {
      hide LinksOk, FullnessBut, Chained;
      ContentsAreUsed(h);
      if freeListNodes == h.block {
        FreeHeadIsBlock();
        UsedOrFree(h.block);
      }
    }

    static lemma UsedOrFree(b: NodeList)
      requires b.NodesOk() && b.HasFreeNode() && b.Used != []
      ensures b.nodes.Length >= 2
    {
      assert b.Free[0] in b.Free && b.Used[0] in b.Used;
    }

    /** After disposing of `h` the next allocation takes a node from a block that has none. */
    ghost predicate LeavesNull(h: Handle)
      reads this, h.block, if h.block.next == null then {} else {h.block.next}, lastNodes`index
    {
      LosesFreeChain(h) && h.block.next != null && !h.block.next.HasFreeNode() && lastNodes.IsFull()
    }

    /** The last block stays the last one when a block before it is deleted. */
    lemma NextIsBlock(b: NodeList)
      requires LinksOk() && b in Blocks && b.next != null
      ensures b.next in Blocks && b.next != b && b != lastNodes
    {
      var k :| 0 <= k < |Blocks| && Blocks[k] == b;
      assert b.next == if k + 1 < |Blocks| then Blocks[k + 1] else null;
    }

    /** What the head of the free-block chain becomes in that case: null although a free block is left, or a block
        with no free node, or a free block further down the chain, so that those before it are lost. */
    lemma WrongHead(h: Handle)
      requires Valid() && h in Contents && LosesFreeChain(h)
      ensures var head := h.block.next;
        if head == null then h.block.freeNext != null && h.block.freeNext.HasFreeNode()
        else head.HasFreeNode() ==> exists j :: 2 <= j < |FreeBlocks| && FreeBlocks[j] == head
    {
      hide NodeList.NodesOk, Chained;
      ContentsAreUsed(h);
      var head := h.block.next;
      var i := FreeNeighbours(h.block);
      var k :| 0 <= k < |Blocks| && Blocks[k] == h.block;
      BlockNeighbours(k);
      if head != null && head.HasFreeNode() {
        assert head in Blocks;
        var j :| 0 <= j < |FreeBlocks| && FreeBlocks[j] == head;
      }
    }

    /** The rest of the invariant after an unused block was removed. */
    twostate lemma Removed(list: NodeList)
      requires old(ReprOk() && EachBlockOk() && FullnessBut(list) && ContentsOk() && FreeExactBut(list)) && Repr == old(Repr)
      requires old(|Blocks|) > 1 && Distinct(old(Blocks)) && Distinct(old(FreeBlocks)) && list.Used == []
      requires RemovedOne(old(Blocks), list, Blocks)
      requires if list in old(FreeBlocks) then RemovedOne(old(FreeBlocks), list, FreeBlocks) else FreeBlocks == old(FreeBlocks)
      requires list == old(lastNodes) || lastNodes == old(lastNodes)
      requires Contents == old(Contents)
      requires forall b {:trigger b in old(Blocks)} :: b in old(Blocks) ==>
        && unchanged(b.nodes) && unchanged(b`index) && unchanged(b`usedList) && unchanged(b`freeList) && unchanged(b`Used)
        && unchanged(b`Free)
      ensures ReprOk() && EachBlockOk() && FullnessBut(null) && ContentsOk() && FreeExactBut(null)
      ensures forall b {:trigger b in Blocks} :: b in Blocks ==> b.HasUsagedNode()
    {
      RemovedMembers(old(Blocks), list, Blocks);
      if list in old(FreeBlocks) {
        RemovedMembers(old(FreeBlocks), list, FreeBlocks);
      }
    }

    lemma OneBlock()
      requires LinksOk()
      ensures topNodes == lastNodes <==> |Blocks| == 1
      ensures Distinct(Blocks)
    {
    }

    lemma ChainHead()
      requires LinksOk()
      ensures |Blocks| > 0 && topNodes == Blocks[0]
    {
    }

    /** Facts about a store in order that can be read off its blocks. */
    lemma Shape()
      requires Valid()
      ensures |Blocks| > 0 && topNodes == Blocks[0] && lastNodes == Blocks[|Blocks| - 1] && lastNodes in Blocks
      ensures Distinct(Blocks)
      ensures freeListNodes == if |FreeBlocks| == 0 then null else FreeBlocks[0]
      ensures forall i {:trigger Blocks[i]} :: 0 <= i < |Blocks| ==>
        && Blocks[i] in Blocks && Blocks[i].nodes.Length == blockSize
        && Blocks[i].next == if i + 1 < |Blocks| then Blocks[i + 1] else null
      ensures forall b {:trigger b in Blocks} :: b in Blocks ==> (b.HasFreeNode() <==> b in FreeBlocks)
      ensures FreeBlocks != [] ==> FreeBlocks[|FreeBlocks| - 1].freeNext == null
    {
    }

    lemma LastBlock()
      requires Valid()
      ensures |Blocks| > 0 && lastNodes == Blocks[|Blocks| - 1] && lastNodes in Blocks && lastNodes.nodes.Length == blockSize
    {
      hide NodeList.NodesOk, FreeLinksOk, FullnessBut, Chained;
    }

    lemma AllFull(b: NodeList)
      requires Valid() && lastNodes.IsFull() && b in Blocks
      ensures b.IsFull()
    {
    }

    /** Whether a block is on the free-block chain can be told from its links. */
    lemma OnFreeChain(b: NodeList)
      requires FreeLinksOk() && b in Blocks
      ensures b in FreeBlocks <==> b == freeListNodes || b.freeNext != null || b.freePrev != null
      ensures Distinct(FreeBlocks)
    {
      var j := FreeNeighbours(b);
    }

    /** A block with a used node, or alone, is no exception; nor is one with a free node on the free-block chain. */
    lemma Settled(list: NodeList)
      requires FullnessBut(list) && (list.HasUsagedNode() || |Blocks| <= 1)
      ensures FullnessBut(null)
      ensures FreeExactBut(list) && list.HasFreeNode() && list in FreeBlocks ==> FreeExactBut(null)
    {
    }

    /** A block that took back a node is deleted, if that was its last one in use and another block is left, and is on the
        free-block chain otherwise. */
    method Reclaim(list: NodeList)
      requires blockSize >= 1 && ReprOk() && LinksOk() && EachBlockOk() && FullnessBut(list) && ContentsOk()
      requires FreeLinksOk() && FreeExactBut(list) && list in Blocks && list.HasFreeNode()
      requires list.usedList == NIL <==> list.Used == []
      modifies `topNodes, `lastNodes, `freeListNodes, `Blocks, `FreeBlocks
      modifies Blocks`next, Blocks`prev, Blocks`freeNext, Blocks`freePrev
      ensures Allocatable() && FreeChainOk() && FreeExactBut(null)
      ensures if old(Unused(list)) then RemovedOne(old(Blocks), list, Blocks) else Blocks == old(Blocks)
      ensures FreeLinksOk() <==>
        !(successor.AllBlocksNext? && old(Unused(list)) && old(freeListNodes) == list && old(list.next != list.freeNext))
      ensures !FreeLinksOk() ==> freeListNodes == old(list.next)
      ensures lastNodes == old(lastNodes) || old(Unused(list) && lastNodes == list)
      ensures !old(Unused(list)) ==> FreeBlocks == (if list in old(FreeBlocks) then [] else [list]) + old(FreeBlocks)
    {
      hide NodeList.NodesOk, LinksOk, FreeLinksOk, FreeChainOk, HeadOk, EachBlockOk, ContentsOk, FullnessBut, RemovedOne;
      OneBlock();
      OnFreeChain(list);
      if !list.HasUsagedNode() && topNodes != lastNodes {
        label before:
        DeleteBlock(list);
        Removed@before(list);
        LastIsBlock();
      } else {
        if list != freeListNodes && list.freeNext == null && list.freePrev == null {
          PushFreeBlock(list);
        }
        Settled(list);
        ValidIsAllocatable();
      }
    }

    /** No node of a block is in use and none was never handed out, and it is not alone. */
    ghost predicate Unused(list: NodeList)
      reads `Blocks, list`index, list`Used
    {
      list.IsFull() && list.Used == [] && |Blocks| > 1
    }

    lemma BlocksAreDistinct()
      requires LinksOk()
      ensures Distinct(Blocks)
    {
    }

    /** Disposes of a live handle and of its block when that was its last one; see LosesFreeChain. */
    method DisposeGlobalHandle(h: Handle)
      requires Valid() && h in Contents
      modifies Repr
      ensures BlocksValid() && Allocatable() && Repr == old(Repr)
      ensures Contents == old(Contents) - {h}
      ensures if old(Deletes(h)) then RemovedOne(old(Blocks), h.block, Blocks) else Blocks == old(Blocks)
      ensures h.block in Blocks <==> !old(h.block.IsFull() && h.block.Used == [h.node] && |Blocks| > 1)
      ensures Valid() <==> !old(LosesFreeChain(h))
      ensures old(LosesFreeChain(h)) ==> freeListNodes == old(h.block.next)
      ensures TakesNull() <==> old(LeavesNull(h))
      ensures lastNodes == old(lastNodes) || old(Deletes(h) && lastNodes == h.block)
      ensures !old(Deletes(h)) ==> FreeBlocks == (if h.block in old(FreeBlocks) then [] else [h.block]) + old(FreeBlocks)
      ensures RemovedOne(old(h.block.Used), h.node, h.block.Used)
      ensures forall b {:trigger b in old(Blocks)} :: b in old(Blocks) ==> b.index == old(b.index)
      ensures forall b {:trigger b in old(Blocks)} :: b in old(Blocks) && b != h.block ==>
        b.Used == old(b.Used) && b.freeList == old(b.freeList)
    {
      hide NodeList.NodesOk, LinksOk, FreeLinksOk, FreeChainOk, HeadOk, EachBlockOk, ContentsOk, FullnessBut, FreeExactBut,
        RemovedOne, Distinct;
      ContentsAreUsed(h);
      LastIsBlock();
      if h.block.next != null {
        NextIsBlock(h.block);
      }
      BlocksAreDistinct();
      ReleaseNode(h);
      Reclaim(h.block);
      if old(Deletes(h)) {
        RemovedMembers(old(Blocks), h.block, Blocks);
      }
      if Valid() {
        ValidIsAllocatable();
      }
    }

    /** A node of a block is in use exactly when its handle is live. */
    lemma UsingIsLive(h: Handle)
      requires EachBlockOk() && ContentsOk() && h.block in Blocks && 0 <= h.node < h.block.nodes.Length
      ensures h.block.nodes[h.node].isUsing <==> h in Contents
      ensures h in Contents ==> Contents[h] == Held(h.block.nodes[h.node])
      ensures h in Contents ==> var c, n := Contents[h], h.block.nodes[h.node];
        c.value == n.obj && c.reference == n.reference && c.callback == n.callback
      ensures h in Contents && !isWeak ==> Contents[h].reference == NULLPTR && Contents[h].callback == NULLPTR
    {
      var b := h.block;
      assert b.nodes[..][h.node] == b.nodes[h.node];
      if b.nodes[h.node].isUsing {
        assert h.node in b.Used;
        assert h == Handle(b, h.node);
      }
    }

    twostate lemma ContentsPut(h: Handle)
      requires old(Separate()) && old(ContentsOk()) && Blocks == old(Blocks) && h in old(Contents)
      requires h.block.Undisturbed(h.node)
      requires forall c {:trigger c in Blocks} :: c in Blocks ==> c.Used == old(c.Used) && (c != h.block ==> unchanged(c.nodes))
      requires 0 <= h.node < h.block.nodes.Length
      requires Contents == old(Contents)[h := Held(h.block.nodes[h.node])]
      ensures ContentsOk()
    {
    }

    /** Rewrites what a live handle holds. */
    method Put(h: Handle, content: Content)
      requires BlocksValid() && h in Contents
      requires isWeak || (content.reference == NULLPTR && content.callback == NULLPTR)
      modifies h.block.nodes, `Contents
      ensures BlocksValid() && Contents == old(Contents)[h := content]
      ensures old(Valid()) ==> Valid()
    {
      hide NodeList.NodesOk, LinksOk, ContentsOk, FullnessBut;
      ContentsAreUsed(h);
      h.block.SetContent(h.node, content);
      Contents := Contents[h := content];
      ContentsPut(h);
    }

    /** Every block but one holds a live handle: deleting emptied blocks bounds the storage by what is live. */
    lemma BlocksBounded()
      requires BlocksValid()
      ensures |Blocks| <= |Contents| + 1
    {
      var n := |Blocks| - 1;
      var firsts := Firsts(n);
      assert firsts <= Contents.Keys;
      SubsetSize(firsts, Contents.Keys);
    }

    lemma Firsts(n: nat) returns (s: set<Handle>)
      requires BlocksValid() && n < |Blocks|
      ensures |s| == n && s <= Contents.Keys
      ensures forall h :: h in s ==> exists i :: 0 <= i < n && Blocks[i] == h.block
    {
      hide NodeList.NodesOk, Chained;
      s := {};
      if n > 0 {
        s := Firsts(n - 1);
        var b := Blocks[n - 1];
        assert b in Blocks && b != lastNodes;
        UsedIsThreaded(b);
        assert b.Used[0] in b.Used;
        var h := Handle(b, b.Used[0]);
        assert h in Contents && h !in s;
        s := s + {h};
      }
    }
  }

  lemma SubsetSize<T>(s: set<T>, t: set<T>)
    requires s <= t
    ensures |s| <= |t|
  {
    if s != {} {
      var x :| x in s;
      SubsetSize(s - {x}, t - {x});
    }
  }
}
