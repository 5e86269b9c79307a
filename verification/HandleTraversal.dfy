/** Walking over the live handles of a store while a callback updates or disposes of them, and tearing a store down. */
module HandleTraversal {
  import opened HandleBlocks
  import opened HandleStores

  /** What a callback does with the handle it is given. */
  datatype Action = Keep | Store(value: JSTaggedType) | Dispose

  ghost function HandlesOf(b: NodeList, used: seq<Link>): (hs: seq<Handle>)
    ensures |hs| == |used|
    ensures forall i :: 0 <= i < |used| ==> hs[i] == Handle(b, used[i])
  {
    seq(|used|, i requires 0 <= i < |used| => Handle(b, used[i]))
  }

  /** All live handles, block by block. */
  ghost function AllHandles(blocks: seq<NodeList>): (hs: seq<Handle>)
    reads blocks`Used
  {
    if |blocks| == 0 then [] else HandlesOf(blocks[0], blocks[0].Used) + AllHandles(blocks[1..])
  }

  ghost function Elements<T>(s: seq<T>): set<T> {
    set x | x in s
  }

  /** What is left of `c` when a callback did `act` on the handles in `done`. */
  ghost function After(c: map<Handle, Content>, act: Handle -> Action, done: set<Handle>): map<Handle, Content> {
    map h | h in c && !(h in done && act(h).Dispose?) ::
      if h in done && act(h).Store? then c[h].(value := act(h).value) else c[h]
  }

  lemma DropAt(s: seq<Link>, k: nat, t: seq<Link>)
    requires k < |s| && Distinct(s) && RemovedOne(s, s[k], t)
    ensures t == Without(s, k)
  {
  }

  /** The used node at position `k` leads to the one behind it. */
  lemma NextUsed(b: NodeList, k: nat)
    requires b.NodesOk() && k < |b.Used|
    ensures 0 <= b.Used[k] < b.nodes.Length
    ensures b.nodes[b.Used[k]].next == if k + 1 < |b.Used| then b.Used[k + 1] else NIL
    ensures Distinct(b.Used)
  {
    assert b.nodes[..][b.Used[k]] == b.nodes[b.Used[k]];
  }

  lemma HeadUsed(b: NodeList)
    requires b.NodesOk()
    ensures b.usedList == (if |b.Used| > 0 then b.Used[0] else NIL) && Distinct(b.Used) && NIL !in b.Used
  {
  }

  lemma AfterNone(c: map<Handle, Content>, act: Handle -> Action)
    ensures After(c, act, {}) == c
  {
  }

  /** Handles in `done` that were disposed of are gone, and those that were updated hold the new value; nothing else
      changed. */
  lemma AfterEach(c: map<Handle, Content>, act: Handle -> Action, done: set<Handle>)
    ensures forall h {:trigger h in After(c, act, done)} ::
      h in After(c, act, done) <==> h in c && !(h in done && act(h) == Dispose)
    ensures forall h {:trigger After(c, act, done)[h]} :: h in After(c, act, done) ==>
      && After(c, act, done)[h].value == (if h in done && act(h).Store? then act(h).value else c[h].value)
      && After(c, act, done)[h].reference == c[h].reference && After(c, act, done)[h].callback == c[h].callback
  {
  }

  lemma AfterMore(c: map<Handle, Content>, act: Handle -> Action, done: set<Handle>, more: set<Handle>)
    requires done !! more
    ensures After(After(c, act, done), act, more) == After(c, act, done + more)
    ensures After(c, act, done).Keys <= c.Keys && After(c, act, done + more).Keys <= c.Keys
  {
  }

  /** The used list at the node at position `i` of what it was, and after that node was kept or dropped. */
  lemma UsedStep(b: NodeList, used: seq<Link>, i: nat, kept: seq<Link>)
    requires i < |used| && b.Used == kept + used[i..] && Distinct(b.Used) && Distinct(used)
    ensures b.Used[|kept|] == used[i] && used[i] in b.Used
    ensures b.Used == kept + [used[i]] + used[i + 1..]
    ensures forall t {:trigger RemovedOne(b.Used, used[i], t)} :: RemovedOne(b.Used, used[i], t) ==> t == kept + used[i + 1..]
    ensures b.Used == [used[i]] ==> i + 1 == |used|
    ensures HandlesOf(b, used[..i + 1]) == HandlesOf(b, used[..i]) + [Handle(b, used[i])]
    ensures Handle(b, used[i]) !in Elements(HandlesOf(b, used[..i]))
    ensures Elements(HandlesOf(b, used[..i]) + [Handle(b, used[i])]) == Elements(HandlesOf(b, used[..i])) + {Handle(b, used[i])}
  {
    forall t | RemovedOne(b.Used, used[i], t)
      ensures t == kept + used[i + 1..]
    {
      assert b.Used[|kept|] == used[i];
      DropAt(b.Used, |kept|, t);
    }
  }

  /** The nodes of a block are in order, and the used ones are live. */
  lemma BlockIsOk(s: HandleStore, block: NodeList)
    requires s.Valid() && block in s.Blocks
    ensures block.NodesOk() && block in s.Repr && block.nodes in s.Repr
    ensures forall x {:trigger x in block.Used} :: x in block.Used ==> Handle(block, x) in s.Contents
  {
    hide HandleStore.LinksOk, HandleStore.FreeLinksOk, HandleStore.FullnessBut, HandleStore.FreeExactBut;
    forall x | x in block.Used
      ensures Handle(block, x) in s.Contents
    {
      hide NodeList.NodesOk;
      s.UsingIsLive(Handle(block, x));
    }
  }

  /** A live handle's node, and how its block stands to the other blocks. */
  lemma LiveNode(s: HandleStore, h: Handle)
    requires s.Valid() && h in s.Contents
    ensures h.block in s.Blocks && 0 <= h.node < h.block.nodes.Length && s.BlocksValid()
    ensures s.Contents[h] == Held(h.block.nodes[h.node])
    ensures !s.isWeak ==> s.Contents[h].reference == NULLPTR && s.Contents[h].callback == NULLPTR
    ensures h.block in s.Repr && h.block.nodes in s.Repr && s in s.Repr
  {
    s.ContentsAreUsed(h);
    s.UsingIsLive(h);
    s.HandlesInRepr();
  }

  /** The callback would dispose of a handle whose disposal loses the free-block chain: as far as the walk is in order. */
  ghost predicate Stops(s: HandleStore, h: Handle, act: Handle -> Action)
    reads s, h.block
  {
    act(h).Dispose? && s.LosesFreeChain(h)
  }

  /** Runs the callback on one live handle. */
  method VisitNode(s: HandleStore, h: Handle, act: Handle -> Action)
    requires s.Valid() && h in s.Contents && !Stops(s, h, act)
    modifies s.Repr
    ensures s.Valid() && s.Repr == old(s.Repr)
    ensures s.Contents == After(old(s.Contents), act, {h})
    ensures if act(h).Dispose? && old(s.Deletes(h)) then RemovedOne(old(s.Blocks), h.block, s.Blocks) else s.Blocks == old(s.Blocks)
    ensures if act(h).Dispose? then RemovedOne(old(h.block.Used), h.node, h.block.Used) else h.block.Used == old(h.block.Used)
    ensures forall b {:trigger b in old(s.Blocks)} :: b in old(s.Blocks) && b != h.block ==> b.Used == old(b.Used)
  {
    hide HandleStore.Valid, HandleStore.Allocatable, HandleStore.BlocksValid, HandleStore.LosesFreeChain,
      HandleStore.Deletes, HandleStore.LeavesNull,
      HandleStore.TakesNull;
    LiveNode(s, h);
    match act(h) {
      case Keep =>
      case Store(value) => s.Put(h, Held(h.block.nodes[h.node]).(value := value));
      case Dispose => s.DisposeGlobalHandle(h);
    }
  }

  /** Every block but `block` has the used list that is on record. */
  ghost predicate OthersAre(usedOf: map<NodeList, seq<Link>>, block: NodeList)
    reads usedOf.Keys`Used
  {
    forall c {:trigger c in usedOf} :: c in usedOf && c != block ==> c.Used == usedOf[c]
  }

  /** How far the walk of a block has come: `visited` was called back, `kept` is what is left of the used nodes before
      position `i`, and nothing else changed since the blocks, contents and used lists on record. */
  ghost predicate Walked(s: HandleStore, block: NodeList, act: Handle -> Action, used: seq<Link>, i: nat, kept: seq<Link>,
                         visited: seq<Handle>, blocks: seq<NodeList>, contents: map<Handle, Content>,
                         usedOf: map<NodeList, seq<Link>>)
    reads s, block`Used, usedOf.Keys`Used
  {
    && i <= |used|
    && visited == HandlesOf(block, used[..i])
    && s.Contents == After(contents, act, Elements(visited))
    && (i < |used| ==> s.Blocks == blocks && block.Used == kept + used[i..])
    && (s.Blocks == blocks || RemovedOne(blocks, block, s.Blocks))
    && usedOf.Keys == (set c: NodeList | c in blocks)
    && OthersAre(usedOf, block)
  }

  /** One step of the walk, unless it stops; the next node is read before the callback runs. */
  method VisitNext(s: HandleStore, block: NodeList, current: Link, act: Handle -> Action, visited: seq<Handle>,
                   ghost used: seq<Link>, ghost i: nat, ghost kept: seq<Link>, ghost blocks: seq<NodeList>,
                   ghost contents: map<Handle, Content>, ghost usedOf: map<NodeList, seq<Link>>)
    returns (stops: bool, next: Link, visited': seq<Handle>, ghost kept': seq<Link>)
    requires s.Valid() && block in s.Blocks && Distinct(used) && i < |used| && current == used[i]
    requires Walked(s, block, act, used, i, kept, visited, blocks, contents, usedOf)
    modifies s.Repr
    ensures s.Valid() && s.Repr == old(s.Repr)
    ensures stops <==> old(Stops(s, Handle(block, current), act))
    ensures stops ==> Stops(s, Handle(block, current), act) && next == current && visited' == visited && kept' == kept
    ensures stops ==> Walked(s, block, act, used, i, kept', visited', blocks, contents, usedOf)
    ensures !stops ==> next == if i + 1 < |used| then used[i + 1] else NIL
    ensures !stops ==> Walked(s, block, act, used, i + 1, kept', visited', blocks, contents, usedOf)
  {
    hide HandleStore.Valid, HandleStore.LosesFreeChain, NodeList.NodesOk, After, RemovedOne, Distinct, HandlesOf, Elements;
    var h := Handle(block, current);
    BlockIsOk(s, block);
    NextUsed(block, |kept|);
    UsedStep(block, used, i, kept);
    s.BreaksIffLoses(h);
    if act(h).Dispose? && s.BreaksFreeChain(h) {
      return true, current, visited, kept;
    }
    stops := false;
    next := block.nodes[current].next;
    AfterMore(contents, act, Elements(visited), {h});
    visited' := visited + [h];
    VisitNode(s, h, act);
    kept' := if act(h).Dispose? then kept else kept + [current];
    assert block.Used == kept' + used[i + 1..];
  }

  /** Calls back for every used node of a block, in list order, as far as that does not lose the free-block chain. */
  method VisitBlock(s: HandleStore, block: NodeList, act: Handle -> Action) returns (visited: seq<Handle>, stops: bool)
    requires s.Valid() && block in s.Blocks
    modifies s.Repr
    ensures s.Valid() && s.Repr == old(s.Repr)
    ensures |visited| <= |old(block.Used)| && visited == HandlesOf(block, old(block.Used)[..|visited|])
    ensures if stops then |visited| < |old(block.Used)| && Stops(s, Handle(block, old(block.Used)[|visited|]), act)
            else |visited| == |old(block.Used)|
    ensures s.Contents == After(old(s.Contents), act, Elements(visited))
    ensures s.Blocks == old(s.Blocks) || (!stops && RemovedOne(old(s.Blocks), block, s.Blocks))
    ensures forall c {:trigger c in old(s.Blocks)} :: c in old(s.Blocks) && c != block ==> c.Used == old(c.Used)
  {
    hide HandleStore.Valid, HandleStore.LosesFreeChain, NodeList.NodesOk, After, RemovedOne, Distinct, HandlesOf, Elements;
    visited, stops := [], false;
    var next := block.usedList;
    BlockIsOk(s, block);
    HeadUsed(block);
    ghost var used, i := block.Used, 0;
    ghost var kept: seq<Link> := [];
    ghost var blocks, contents := s.Blocks, s.Contents;
    ghost var usedOf: map<NodeList, seq<Link>> := map c: NodeList | c in s.Blocks :: c.Used;
    AfterNone(contents, act);
    NoElements<Handle>();
    while next != NIL && !stops
      invariant s.Valid() && s.Repr == old(s.Repr)
      invariant i <= |used| && next == if i < |used| then used[i] else NIL
      invariant stops ==> i < |used| && Stops(s, Handle(block, next), act)
      invariant Walked(s, block, act, used, i, kept, visited, blocks, contents, usedOf)
      decreases |used| - i, !stops
    {
      hide Walked, Stops;
      stops, next, visited, kept := VisitNext(s, block, next, act, visited, used, i, kept, blocks, contents, usedOf);
      i := if stops then i else i + 1;
    }
    forall c | c in blocks && c != block
      ensures c.Used == usedOf[c]
    {
      assert c in usedOf;
    }
  }

  twostate lemma AllHandlesSame(blocks: seq<NodeList>)
    requires forall b {:trigger b in blocks} :: b in blocks ==> b.Used == old(b.Used)
    ensures AllHandles(blocks) == old(AllHandles(blocks))
  {
    if |blocks| > 0 {
      assert blocks[0] in blocks;
      assert forall b {:trigger b in blocks[1..]} :: b in blocks[1..] ==> b in blocks;
      AllHandlesSame(blocks[1..]);
    }
  }

  lemma InAllHandles(blocks: seq<NodeList>, h: Handle)
    ensures h in AllHandles(blocks) <==> h.block in blocks && h.node in h.block.Used
  {
    if |blocks| > 0 {
      InAllHandles(blocks[1..], h);
      var first := HandlesOf(blocks[0], blocks[0].Used);
      if h.block == blocks[0] && h.node in blocks[0].Used {
        var i :| 0 <= i < |blocks[0].Used| && blocks[0].Used[i] == h.node;
        assert first[i] == h;
      }
      assert h in AllHandles(blocks) <==> h in first || h in AllHandles(blocks[1..]);
    }
  }

  lemma DistinctConcat<T>(s: seq<T>, t: seq<T>)
    requires Distinct(s) && Distinct(t) && forall x :: x in s ==> x !in t
    ensures Distinct(s + t)
  {
    forall i, j | 0 <= i < j < |s + t|
      ensures (s + t)[i] != (s + t)[j]
    {
      if i < |s| <= j {
        assert s[i] in s && t[j - |s|] in t;
      }
    }
  }

  lemma AllHandlesDistinct(blocks: seq<NodeList>)
    requires Distinct(blocks) && forall b :: b in blocks ==> Distinct(b.Used)
    ensures Distinct(AllHandles(blocks))
  {
    if |blocks| > 0 {
      assert blocks[0] in blocks;
      AllHandlesDistinct(blocks[1..]);
      forall h | h in HandlesOf(blocks[0], blocks[0].Used)
        ensures h !in AllHandles(blocks[1..])
      {
        InAllHandles(blocks[1..], h);
      }
      DistinctConcat(HandlesOf(blocks[0], blocks[0].Used), AllHandles(blocks[1..]));
    }
  }

  /** Walking the blocks and their used lists meets every live handle exactly once. */
  lemma EachLiveHandleOnce(s: HandleStore)
    requires s.BlocksValid()
    ensures Distinct(AllHandles(s.Blocks))
    ensures Elements(AllHandles(s.Blocks)) == s.Contents.Keys
  {
    hide HandleStore.LinksOk, HandleStore.FullnessBut, NodeList.NodesOk, AllHandles, Distinct;
    s.OneBlock();
    forall b | b in s.Blocks
      ensures Distinct(b.Used)
    {
      HeadUsed(b);
    }
    AllHandlesDistinct(s.Blocks);
    forall h: Handle
      ensures h in Elements(AllHandles(s.Blocks)) <==> h in s.Contents
    {
      InAllHandles(s.Blocks, h);
      assert h == Handle(h.block, h.node);
    }
    assert Elements(AllHandles(s.Blocks)) <= s.Contents.Keys <= Elements(AllHandles(s.Blocks));
  }

  /** Position of the first block of `rest` and what remains behind it. */
  lemma NextBlock(s: HandleStore, front: seq<NodeList>, rest: seq<NodeList>)
    requires s.LinksOk() && s.Blocks == front + rest && |rest| > 0
    ensures rest[0] in s.Blocks && rest[0] in rest
    ensures rest[0].next == if |rest| > 1 then rest[1] else null
    ensures AllHandles(rest) == HandlesOf(rest[0], rest[0].Used) + AllHandles(rest[1..])
    ensures forall b {:trigger b in rest[1..]} :: b in rest[1..] ==> b in s.Blocks && b in rest && b != rest[0]
    ensures forall t {:trigger RemovedOne(s.Blocks, rest[0], t)} :: RemovedOne(s.Blocks, rest[0], t) ==> t == front + rest[1..]
    ensures s.Blocks == (front + [rest[0]]) + rest[1..]
  {
    hide Distinct, RemovedOne, AllHandles;
    RemovedAt(s.Blocks, front, rest);
    AllHandlesStep(rest);
    Resplit(s.Blocks, front, rest);
    assert s.Blocks[|front|].next == if |front| + 1 < |s.Blocks| then s.Blocks[|front| + 1] else null;
  }

  lemma AllHandlesStep(rest: seq<NodeList>)
    requires |rest| > 0
    ensures AllHandles(rest) == HandlesOf(rest[0], rest[0].Used) + AllHandles(rest[1..])
  {
  }

  /** Blocks come in the order of the chain, and in each the node handed out last comes first. */
  lemma {:induction false} AllHandlesConcat(front: seq<NodeList>, rest: seq<NodeList>)
    ensures AllHandles(front + rest) == AllHandles(front) + AllHandles(rest)
    ensures |front| == 1 ==> AllHandles(front) == HandlesOf(front[0], front[0].Used)
  {
    if |front| > 0 {
      assert (front + rest)[1..] == front[1..] + rest;
      AllHandlesConcat(front[1..], rest);
      Reassociated(HandlesOf(front[0], front[0].Used), AllHandles(front[1..]), AllHandles(rest));
    } else {
      assert front + rest == rest;
    }
  }

  lemma Resplit<T>(s: seq<T>, front: seq<T>, rest: seq<T>)
    requires s == front + rest && |rest| > 0
    ensures s[|front|] == rest[0] && s == (front + [rest[0]]) + rest[1..]
    ensures |rest| > 1 ==> s[|front| + 1] == rest[1]
  {
  }

  lemma RemovedAt(s: seq<NodeList>, front: seq<NodeList>, rest: seq<NodeList>)
    requires s == front + rest && |rest| > 0 && Distinct(s)
    ensures forall b {:trigger b in rest[1..]} :: b in rest[1..] ==> b in s && b in rest && b != rest[0]
    ensures forall t {:trigger RemovedOne(s, rest[0], t)} :: RemovedOne(s, rest[0], t) ==> t == front + rest[1..]
  {
    assert s[|front|] == rest[0];
    forall j | 1 <= j < |rest|
      ensures rest[j] in s && rest[j] != rest[0]
    {
      assert s[|front| + j] == rest[j];
    }
    forall t | RemovedOne(s, rest[0], t)
      ensures t == front + rest[1..]
    {
      var k :| 0 <= k < |s| && s[k] == rest[0] && t == Without(s, k);
      assert k == |front|;
    }
  }

  /** Calls back for every live handle; the next block is read before the block at hand is walked. The walk is in order up
      to a disposal that loses the free-block chain; if there is none it meets every handle that was live. */
  method IterateUsageGlobal(s: HandleStore, act: Handle -> Action) returns (visited: seq<Handle>, stops: bool)
    requires s.Valid()
    modifies s.Repr
    ensures s.Valid() && s.Repr == old(s.Repr)
    ensures visited <= old(AllHandles(s.Blocks))
    ensures if stops then |visited| < |old(AllHandles(s.Blocks))| && Stops(s, old(AllHandles(s.Blocks))[|visited|], act)
            else visited == old(AllHandles(s.Blocks))
    ensures s.Contents == After(old(s.Contents), act, Elements(visited))
    ensures forall h {:trigger h in s.Contents} :: h in s.Contents <==> h in old(s.Contents) && !(h in visited && act(h) == Dispose)
    ensures forall h {:trigger s.Contents[h]} :: h in s.Contents ==>
      var before, after := old(s.Contents)[h], s.Contents[h];
      && after.value == (if h in visited && act(h).Store? then act(h).value else before.value)
      && after.reference == before.reference && after.callback == before.callback
    ensures !stops ==> Elements(visited) == old(s.Contents).Keys
    ensures s.successor.FreeBlocksNext? ==> !stops
  {
    hide HandleStore.LinksOk, HandleStore.FreeLinksOk, HandleStore.FullnessBut, HandleStore.FreeExactBut, NodeList.NodesOk,
      After, AllHandles, RemovedOne, Distinct, Elements;
    visited, stops := [], false;
    ghost var all := AllHandles(s.Blocks);
    ghost var front: seq<NodeList>, rest: seq<NodeList> := [], s.Blocks;
    EachLiveHandleOnce(s);
    s.ChainHead();
    AfterNone(s.Contents, act);
    NoElements<Handle>();
    var next: NodeList? := s.topNodes;
    while next != null
      invariant s.Valid() && s.Repr == old(s.Repr) && !stops
      invariant s.Blocks == front + rest
      invariant next == if |rest| > 0 then rest[0] else null
      invariant all == visited + AllHandles(rest)
      invariant s.Contents == After(old(s.Contents), act, Elements(visited))
      decreases |rest|
    {
      var current := next;
      next := current.next;
      NextBlock(s, front, rest);
      ghost var blocks, before, used := s.Blocks, visited, current.Used;
      label walk:
      var more;
      more, stops := VisitBlock(s, current, act);
      AllHandlesSame@walk(rest[1..]);
      HandlesSplit(current, used, |more|, AllHandles(rest[1..]));
      DistinctParts(before, more, HandlesOf(current, used[|more|..]) + AllHandles(rest[1..]));
      AfterMore(old(s.Contents), act, Elements(before), Elements(more));
      visited := visited + more;
      if stops {
        Updated(old(s.Contents), act, visited);
        return;
      }
      front := if s.Blocks == blocks then front + [current] else front;
      rest := rest[1..];
    }
    NoHandles();
    Updated(old(s.Contents), act, visited);
  }

  lemma Updated(c: map<Handle, Content>, act: Handle -> Action, visited: seq<Handle>)
    ensures var d := After(c, act, Elements(visited));
      && (forall h {:trigger h in d} :: h in d <==> h in c && !(h in visited && act(h) == Dispose))
      && (forall h {:trigger d[h]} :: h in d ==>
            && d[h].value == (if h in visited && act(h).Store? then act(h).value else c[h].value)
            && d[h].reference == c[h].reference && d[h].callback == c[h].callback)
  {
    AfterEach(c, act, Elements(visited));
    hide After;
  }

  lemma HandlesSplit(b: NodeList, used: seq<Link>, m: nat, rest: seq<Handle>)
    requires m <= |used|
    ensures HandlesOf(b, used) + rest == HandlesOf(b, used[..m]) + (HandlesOf(b, used[m..]) + rest)
    ensures m < |used| ==> |HandlesOf(b, used[m..]) + rest| > 0 && (HandlesOf(b, used[m..]) + rest)[0] == Handle(b, used[m])
    ensures m == |used| ==> HandlesOf(b, used[m..]) + rest == rest
  {
  }

  lemma NoHandles()
    ensures AllHandles([]) == []
  {
  }

  lemma DistinctParts<T>(s: seq<T>, t: seq<T>, u: seq<T>)
    requires Distinct(s + (t + u))
    ensures Elements(s) !! Elements(t)
    ensures Elements(s + t) == Elements(s) + Elements(t)
    ensures (s + t) + u == s + (t + u)
  {
    forall x | x in s
      ensures x !in t
    {
      var i :| 0 <= i < |s| && s[i] == x;
      assert (s + (t + u))[i] == x;
      assert forall j :: 0 <= j < |t| ==> (s + (t + u))[|s| + j] == t[j];
    }
  }

  lemma NoElements<T>()
    ensures Elements<T>([]) == {}
  {
  }

  /** A call of a weak handle's callback, with the reference it is given. */
  datatype Call = Call(callback: Pointer, reference: Pointer)

  /** The handles among `hs` that have a callback. */
  ghost function WithCallback(hs: seq<Handle>, c: map<Handle, Content>): seq<Handle>
    requires Elements(hs) <= c.Keys
  {
    if |hs| == 0 then []
    else (if c[hs[0]].callback != NULLPTR then [hs[0]] else []) + WithCallback(hs[1..], c)
  }

  ghost function CallsOf(hs: seq<Handle>, c: map<Handle, Content>): seq<Call>
    requires Elements(hs) <= c.Keys
  {
    seq(|hs|, i requires 0 <= i < |hs| => assert hs[i] in Elements(hs); Call(c[hs[i]].callback, c[hs[i]].reference))
  }

  /** Those handles, each once when `hs` has no repetition. */
  lemma WithCallbackExactly(hs: seq<Handle>, c: map<Handle, Content>)
    requires Elements(hs) <= c.Keys && Distinct(hs)
    ensures Distinct(WithCallback(hs, c))
    ensures Elements(WithCallback(hs, c)) == set h | h in Elements(hs) && c[h].callback != NULLPTR
  {
    if |hs| > 0 {
      var first, rest := hs[0], WithCallback(hs[1..], c);
      FirstApart(hs);
      WithCallbackExactly(hs[1..], c);
      FirstApart([first] + rest);
      hide Elements, Distinct;
      assert Elements(WithCallback(hs, c)) == if c[first].callback != NULLPTR then {first} + Elements(rest) else Elements(rest) by {
        assert [] + rest == rest;
      }
    }
  }

  /** The first element of a sequence and the others. */
  lemma FirstApart<T>(s: seq<T>)
    requires |s| > 0
    ensures Elements(s) == {s[0]} + Elements(s[1..])
    ensures Distinct(s) <==> Distinct(s[1..]) && s[0] !in Elements(s[1..])
  {
    assert s == [s[0]] + s[1..];
    if Distinct(s[1..]) && s[0] !in Elements(s[1..]) {
      forall i, j | 0 <= i < j < |s|
        ensures s[i] != s[j]
      {
        assert s[j] == s[1..][j - 1];
        if i > 0 {
          assert s[i] == s[1..][i - 1];
        }
      }
    }
  }

  lemma ElementsConcat(hs: seq<Handle>, more: seq<Handle>)
    ensures Elements(hs + more) == Elements(hs) + Elements(more)
  {
  }

  lemma Reassociated<T>(s: seq<T>, t: seq<T>, u: seq<T>)
    ensures s + (t + u) == s + t + u
  {
  }

  lemma WithCallbackFirst(hs: seq<Handle>, c: map<Handle, Content>)
    requires |hs| > 0 && Elements(hs) <= c.Keys
    ensures Elements(hs[1..]) <= c.Keys
    ensures WithCallback(hs, c) == (if c[hs[0]].callback != NULLPTR then [hs[0]] else []) + WithCallback(hs[1..], c)
  {
  }

  lemma WithCallbackConcat(hs: seq<Handle>, more: seq<Handle>, c: map<Handle, Content>)
    requires Elements(hs + more) <= c.Keys
    ensures Elements(hs) <= c.Keys && Elements(more) <= c.Keys
    ensures WithCallback(hs + more, c) == WithCallback(hs, c) + WithCallback(more, c)
  {
    ElementsConcat(hs, more);
    if |hs| > 0 {
      FirstApart(hs);
      FirstApart(hs + more);
      assert (hs + more)[1..] == hs[1..] + more;
      WithCallbackConcat(hs[1..], more, c);
      WithCallbackFirst(hs, c);
      WithCallbackFirst(hs + more, c);
      hide Elements, Distinct, WithCallback;
      Reassociated(if c[hs[0]].callback != NULLPTR then [hs[0]] else [], WithCallback(hs[1..], c), WithCallback(more, c));
    } else {
      assert hs + more == more;
    }
  }

  /** The used nodes of `block` hold what `c` says; in a strong block no handle has a callback. */
  ghost predicate Holds(block: NodeList, c: map<Handle, Content>)
    reads block`Used, block.nodes
  {
    && (forall x {:trigger x in block.Used} :: x in block.Used ==>
      0 <= x < block.nodes.Length && Handle(block, x) in c && c[Handle(block, x)] == Held(block.nodes[x]))
    && (!block.isWeak ==> forall h {:trigger c[h]} :: h in c ==> c[h].callback == NULLPTR)
  }

  /** Marks a node as not in use and calls its callback. */
  method TearDownNode(block: NodeList, x: Link) returns (calls: seq<Call>)
    requires 0 <= x < block.nodes.Length
    requires !block.isWeak ==> block.nodes[x].callback == NULLPTR
    modifies block.nodes
    ensures block.nodes[x] == old(block.nodes[x]).(isUsing := false, obj := UNDEFINED)
    ensures forall y {:trigger block.nodes[y]} :: 0 <= y < block.nodes.Length && y != x ==> block.nodes[y] == old(block.nodes[y])
    ensures var n := old(block.nodes[x]); calls == if n.callback != NULLPTR then [Call(n.callback, n.reference)] else []
  {
    block.nodes[x] := block.nodes[x].(isUsing := false, obj := UNDEFINED);
    if block.isWeak && block.nodes[x].callback != NULLPTR {
      calls := [Call(block.nodes[x].callback, block.nodes[x].reference)];
    } else {
      calls := [];
    }
  }

  /** The callbacks of the first `i` used nodes were called. */
  ghost predicate Called(block: NodeList, used: seq<Link>, i: nat, c: map<Handle, Content>, calls: seq<Call>, called: seq<Handle>) {
    && i <= |used|
    && Elements(HandlesOf(block, used[..i])) <= c.Keys && called == WithCallback(HandlesOf(block, used[..i]), c)
    && Elements(called) <= c.Keys && calls == CallsOf(called, c)
  }

  lemma NoneCalled(block: NodeList, used: seq<Link>, c: map<Handle, Content>)
    ensures Called(block, used, 0, c, [], [])
  {
    assert HandlesOf(block, used[..0]) == [];
    NoCalls(c);
  }

  lemma OneMoreCalled(block: NodeList, used: seq<Link>, i: nat, c: map<Handle, Content>, calls: seq<Call>, called: seq<Handle>)
    returns (called': seq<Handle>)
    requires Called(block, used, i, c, calls, called) && i < |used| && Handle(block, used[i]) in c
    ensures var n := c[Handle(block, used[i])];
      Called(block, used, i + 1, c, calls + if n.callback != NULLPTR then [Call(n.callback, n.reference)] else [], called')
  {
    hide Elements, WithCallback, CallsOf;
    var hs, h := HandlesOf(block, used[..i]), Handle(block, used[i]);
    assert used[..i + 1] == used[..i] + [used[i]];
    assert HandlesOf(block, used[..i + 1]) == hs + [h];
    WithCallbackStep(hs, h, c);
    called' := WithCallback(hs + [h], c);
  }

  /** The first `i` used nodes were let go; nothing else changed but values. */
  ghost predicate LetGo(ns: seq<Node>, ns': seq<Node>, used: seq<Link>, i: nat) {
    && i <= |used| && |ns'| == |ns|
    && forall x {:trigger ns'[x]} :: 0 <= x < |ns| ==>
         && ns'[x].next == ns[x].next && ns'[x].callback == ns[x].callback && ns'[x].reference == ns[x].reference
         && ns'[x].isUsing == (ns[x].isUsing && x !in used[..i])
  }

  lemma OneMoreLetGo(ns: seq<Node>, ns': seq<Node>, ns'': seq<Node>, used: seq<Link>, i: nat)
    requires LetGo(ns, ns', used, i) && i < |used| && 0 <= used[i] < |ns|
    requires ns'' == ns'[used[i] := ns'[used[i]].(isUsing := false, obj := UNDEFINED)]
    ensures LetGo(ns, ns'', used, i + 1)
  {
    assert used[..i + 1] == used[..i] + [used[i]];
    assert forall x {:trigger x in used[..i + 1]} :: x in used[..i + 1] <==> x in used[..i] || x == used[i];
  }

  /** Marks every used node of a block as not in use and calls the callbacks of a weak block. */
  method TearDownBlock(block: NodeList, ghost c: map<Handle, Content>) returns (calls: seq<Call>, ghost called: seq<Handle>)
    requires block.NodesOk() && Holds(block, c)
    modifies block.nodes
    ensures Elements(HandlesOf(block, block.Used)) <= c.Keys && called == WithCallback(HandlesOf(block, block.Used), c)
    ensures Elements(called) <= c.Keys && calls == CallsOf(called, c)
    ensures forall i :: 0 <= i < block.nodes.Length ==> !block.nodes[i].isUsing
  {
    hide NodeList.NodesOk, Distinct, Elements, WithCallback, CallsOf, HandlesOf;
    calls, called := [], [];
    var next := block.usedList;
    UsedChain(block);
    ghost var ns, used, i := block.nodes[..], block.Used, 0;
    NoneCalled(block, used, c);
    while next != NIL
      invariant 0 <= i <= |used| && next == if i < |used| then used[i] else NIL
      invariant LetGo(ns, block.nodes[..], used, i)
      invariant Called(block, used, i, c, calls, called)
      decreases |used| - i
    {
      hide Called;
      ghost var before := block.nodes[..];
      var current := next;
      assert current in used && before[current] == block.nodes[current];
      called := OneMoreCalled(block, used, i, c, calls, called);
      next := block.nodes[current].next;
      var more := TearDownNode(block, current);
      OneMoreLetGo(ns, before, block.nodes[..], used, i);
      calls := calls + more;
      i := i + 1;
    }
    assert used[..i] == used;
    forall k | 0 <= k < block.nodes.Length
      ensures !block.nodes[k].isUsing
    {
      assert block.nodes[..][k] == block.nodes[k] && ns[k].isUsing ==> k in used;
    }
  }

  lemma UsedChain(b: NodeList)
    requires b.NodesOk()
    ensures b.usedList == if |b.Used| > 0 then b.Used[0] else NIL
    ensures forall k {:trigger b.Used[k]} :: 0 <= k < |b.Used| ==>
      0 <= b.Used[k] < b.nodes.Length && b.nodes[b.Used[k]].next == if k + 1 < |b.Used| then b.Used[k + 1] else NIL
    ensures forall x {:trigger b.nodes[x]} :: 0 <= x < b.nodes.Length && b.nodes[x].isUsing ==> x in b.Used
  {
    forall k | 0 <= k < |b.Used|
      ensures 0 <= b.Used[k] < b.nodes.Length && b.nodes[b.Used[k]].next == if k + 1 < |b.Used| then b.Used[k + 1] else NIL
    {
      NextUsed(b, k);
    }
    forall x | 0 <= x < b.nodes.Length && b.nodes[x].isUsing
      ensures x in b.Used
    {
      assert b.nodes[..][x] == b.nodes[x];
    }
  }

  lemma NoCalls(c: map<Handle, Content>)
    ensures Elements<Handle>([]) <= c.Keys && WithCallback([], c) == [] && CallsOf([], c) == []
  {
  }

  lemma CallsConcat(hs: seq<Handle>, more: seq<Handle>, c: map<Handle, Content>)
    requires Elements(hs) <= c.Keys && Elements(more) <= c.Keys
    ensures Elements(hs + more) <= c.Keys
    ensures WithCallback(hs + more, c) == WithCallback(hs, c) + WithCallback(more, c)
    ensures Elements(WithCallback(hs, c)) <= c.Keys && Elements(WithCallback(more, c)) <= c.Keys
    ensures Elements(WithCallback(hs + more, c)) <= c.Keys
    ensures CallsOf(WithCallback(hs + more, c), c) == CallsOf(WithCallback(hs, c), c) + CallsOf(WithCallback(more, c), c)
  {
    assert Elements(hs + more) == Elements(hs) + Elements(more);
    WithCallbackConcat(hs, more, c);
    WithCallbackWithin(hs, c);
    WithCallbackWithin(more, c);
    WithCallbackWithin(hs + more, c);
  }

  lemma WithCallbackWithin(hs: seq<Handle>, c: map<Handle, Content>)
    requires Elements(hs) <= c.Keys
    ensures Elements(WithCallback(hs, c)) <= Elements(hs)
  {
    if |hs| > 0 {
      WithCallbackWithin(hs[1..], c);
      assert Elements(hs) == {hs[0]} + Elements(hs[1..]);
      assert forall h :: h in WithCallback(hs[1..], c) ==> h in Elements(WithCallback(hs[1..], c));
    }
  }

  lemma WithCallbackStep(hs: seq<Handle>, h: Handle, c: map<Handle, Content>)
    requires Elements(hs) <= c.Keys && h in c
    ensures Elements(hs + [h]) <= c.Keys
    ensures var before, after := WithCallback(hs, c), WithCallback(hs + [h], c);
      && after == (if c[h].callback != NULLPTR then before + [h] else before)
      && (Elements(before) <= c.Keys ==>
        Elements(after) <= c.Keys &&
        CallsOf(after, c) == CallsOf(before, c) + (if c[h].callback != NULLPTR then [Call(c[h].callback, c[h].reference)] else []))
  {
    assert Elements(hs + [h]) == Elements(hs) + {h};
    WithCallbackConcat(hs, [h], c);
    assert WithCallback([h], c) == if c[h].callback != NULLPTR then [h] else [];
    var before := WithCallback(hs, c);
    assert Elements(before + [h]) == Elements(before) + {h};
  }

  /** What TearDownBlock needs of a block of a store in order. */
  lemma BlockContents(s: HandleStore, b: NodeList)
    requires s.ReprOk() && s.EachBlockOk() && s.ContentsOk() && b in s.Blocks
    ensures b.NodesOk() && Holds(b, s.Contents) && b.nodes in s.Repr
  {
    forall x | x in b.Used
      ensures 0 <= x < b.nodes.Length && Handle(b, x) in s.Contents && s.Contents[Handle(b, x)] == Held(b.nodes[x])
    {
      assert Handle(b, x) in s.Contents;
    }
    forall h | h in s.Contents
      ensures !s.isWeak ==> s.Contents[h].callback == NULLPTR
    {
      s.UsingIsLive(h);
    }
  }

  /** The destructor's work on one store: every live handle is let go, and the callback of each one that has any is
      called once, with its reference. */
  method TearDown(s: HandleStore) returns (calls: seq<Call>, ghost called: seq<Handle>)
    requires s.BlocksValid()
    modifies s.Repr
    ensures Distinct(called) && Elements(called) == set h | h in old(s.Contents) && old(s.Contents)[h].callback != NULLPTR
    ensures Elements(old(AllHandles(s.Blocks))) <= old(s.Contents).Keys
    ensures called == WithCallback(old(AllHandles(s.Blocks)), old(s.Contents))
    ensures forall h :: h in called <==> h in old(s.Contents) && old(s.Contents)[h].callback != 0
    ensures calls == CallsOf(called, old(s.Contents)) && |calls| == |called|
    ensures forall i {:trigger calls[i]} :: 0 <= i < |calls| ==>
      && called[i] in old(s.Contents)
      && calls[i].callback == old(s.Contents)[called[i]].callback
      && calls[i].reference == old(s.Contents)[called[i]].reference
    ensures forall b, i :: b in old(s.Blocks) && 0 <= i < b.nodes.Length ==> !b.nodes[i].isUsing
  {
    hide HandleStore.LinksOk, HandleStore.FreeLinksOk, HandleStore.FullnessBut, HandleStore.FreeExactBut, NodeList.NodesOk,
      AllHandles, Distinct, Holds, WithCallback, Elements;
    calls, called := [], [];
    ghost var c, hs := s.Contents, [];
    ghost var front: seq<NodeList>, rest: seq<NodeList> := [], s.Blocks;
    EachLiveHandleOnce(s);
    forall b | b in s.Blocks
      ensures b.NodesOk() && Holds(b, s.Contents) && b.nodes in s.Repr
    {
      BlockContents(s, b);
    }
    s.ChainHead();
    NoCalls(c);
    var next: NodeList? := s.topNodes;
    while next != null
      invariant s.LinksOk() && s.Separate() && s.Blocks == old(s.Blocks) == front + rest && s.Repr == old(s.Repr)
      invariant next == if |rest| > 0 then rest[0] else null
      invariant old(AllHandles(s.Blocks)) == hs + AllHandles(rest)
      invariant Elements(hs) <= c.Keys && called == WithCallback(hs, c)
      invariant Elements(called) <= c.Keys && calls == CallsOf(called, c)
      invariant forall b {:trigger b in rest} :: b in rest ==> b.NodesOk() && Holds(b, c) && b.nodes in s.Repr
      invariant forall b {:trigger b in front} :: b in front ==> forall i :: 0 <= i < b.nodes.Length ==> !b.nodes[i].isUsing
      decreases |rest|
    {
      var current := next;
      next := current.next;
      NextBlock(s, front, rest);
      var more, moreCalled := TearDownBlock(current, c);
      CallsConcat(hs, HandlesOf(current, current.Used), c);
      calls, called := calls + more, called + moreCalled;
      hs := hs + HandlesOf(current, current.Used);
      front, rest := front + [current], rest[1..];
    }
    NoHandles();
    assert hs == old(AllHandles(s.Blocks)) && front == old(s.Blocks);
    WithCallbackExactly(hs, c);
    assert Elements(called) == set h | h in Elements(hs) && c[h].callback != NULLPTR;
    ElementsIn(called);
  }

  lemma ElementsIn<T>(s: seq<T>)
    ensures forall x {:trigger x in s} :: x in s <==> x in Elements(s)
    ensures forall i {:trigger s[i]} :: 0 <= i < |s| ==> s[i] in Elements(s)
  {
  }
}
