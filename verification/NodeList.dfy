/** One block of global handles: a fixed array of nodes threaded by a doubly linked used list and a LIFO free list. */
module HandleBlocks {

  /** A raw tagged value, the content of a handle. */
  type JSTaggedType = x: int | 0 <= x < 0x1_0000_0000_0000_0000

  const UNDEFINED: JSTaggedType := 2

  /** A native pointer or function pointer; zero is the null pointer. */
  type Pointer = nat

  const NULLPTR: Pointer := 0

  /** A node pointer within its own block, as an index into the node array; NIL is the null pointer. */
  type Link = x: int | -1 <= x

  const NIL: Link := -1

  /** A node, strong or weak; reference and callback are the two extra fields of a weak node. */
  datatype Node = Node(obj: JSTaggedType, next: Link, prev: Link, isUsing: bool, reference: Pointer, callback: Pointer)
  {
    predicate Idle() {
      !isUsing && reference == NULLPTR && callback == NULLPTR
    }
  }

  /** What a live handle holds. */
  datatype Content = Content(value: JSTaggedType, reference: Pointer, callback: Pointer)

  function Held(n: Node): Content {
    Content(n.obj, n.reference, n.callback)
  }

  ghost predicate Distinct<T>(s: seq<T>) {
    forall i, j :: 0 <= i < j < |s| ==> s[i] != s[j]
  }

  ghost function Without<T>(s: seq<T>, k: nat): seq<T>
    requires k < |s|
  {
    s[..k] + s[k + 1..]
  }

  /** `t` is `s` with one occurrence of `x` taken out. */
  ghost predicate RemovedOne<T>(s: seq<T>, x: T, t: seq<T>) {
    exists k :: 0 <= k < |s| && s[k] == x && t == Without(s, k)
  }

  lemma WithoutMembers<T>(s: seq<T>, k: nat)
    requires k < |s| && Distinct(s)
    ensures |Without(s, k)| == |s| - 1 && Distinct(Without(s, k))
    ensures forall x {:trigger x in s} {:trigger x in Without(s, k)} :: x in Without(s, k) <==> x in s && x != s[k]
  {
    var t := Without(s, k);
    forall i | 0 <= i < |s|
      ensures s[i] in t <==> i != k
    {
      if i < k { assert t[i] == s[i]; }
      if i > k { assert t[i - 1] == s[i]; }
    }
  }

  /** All of `s` are indices below `bound`. */
  ghost predicate Within(s: seq<Link>, bound: nat) {
    forall i :: 0 <= i < |s| ==> 0 <= s[i] < bound
  }

  /** From `head`, following `next` visits exactly `s` and ends; each node but the first points back. */
  ghost predicate Threaded(ns: seq<Node>, head: Link, s: seq<Link>)
    requires Within(s, |ns|)
  {
    && head == (if |s| == 0 then NIL else s[0])
    && (forall i {:trigger ns[s[i]].next} :: 0 <= i < |s| ==> ns[s[i]].next == if i + 1 < |s| then s[i + 1] else NIL)
    && (forall i {:trigger ns[s[i]].prev} :: 1 <= i < |s| ==> ns[s[i]].prev == s[i - 1])
  }

  /** The nodes below `index` split exactly into the used list and the free list; the rest were never handed out. */
  ghost predicate Partitioned(ns: seq<Node>, index: nat, used: seq<Link>, free: seq<Link>) {
    && index <= |ns|
    && Within(used, index)
    && Within(free, index)
    && Distinct(used)
    && Distinct(free)
    && (forall x {:trigger x in used} :: x in used ==> ns[x].isUsing)
    && (forall x {:trigger x in free} :: x in free ==> ns[x].Idle() && ns[x].obj == UNDEFINED)
    && (forall i {:trigger ns[i]} :: 0 <= i < index ==> if ns[i].isUsing then i in used else i in free)
    && (forall i :: index <= i < |ns| ==> ns[i].Idle())
  }

  /** Every node but `x` keeps its value and its status; only list links may differ. */
  ghost predicate Keeps(ns: seq<Node>, ns': seq<Node>, x: Link) {
    && |ns'| == |ns|
    && forall i {:trigger ns'[i]} :: 0 <= i < |ns| && i != x ==> ns'[i] == ns[i].(next := ns'[i].next, prev := ns'[i].prev)
  }

  /** A node put in front of a list; only it and the old head are written. */
  lemma PushFront(ns: seq<Node>, ns': seq<Node>, head: Link, s: seq<Link>, x: Link)
    requires |ns'| == |ns| && Within(s, |ns|) && 0 <= x < |ns| && x !in s && Distinct(s)
    requires Threaded(ns, head, s)
    requires forall y {:trigger ns'[y]} :: y in s && y != head ==> ns'[y] == ns[y]
    requires ns'[x].next == head
    requires head != NIL ==> ns'[head] == ns[head].(prev := x)
    ensures Within([x] + s, |ns|) && Threaded(ns', x, [x] + s)
  {
  }

  /** A list none of whose links was written. */
  lemma Untouched(ns: seq<Node>, ns': seq<Node>, head: Link, s: seq<Link>)
    requires |ns'| == |ns| && Within(s, |ns|) && Threaded(ns, head, s)
    requires forall x {:trigger ns'[x]} :: x in s ==> ns'[x].next == ns[x].next && ns'[x].prev == ns[x].prev
    ensures Threaded(ns', head, s)
  {
  }

  /** The list left after its head was taken; the new head keeps a stale back pointer. */
  lemma PopFront(ns: seq<Node>, ns': seq<Node>, head: Link, s: seq<Link>)
    requires |ns'| == |ns| && Within(s, |ns|) && Threaded(ns, head, s) && |s| > 0
    requires forall x {:trigger ns'[x]} :: x in s[1..] ==> ns'[x] == ns[x]
    ensures Within(s[1..], |ns|) && Threaded(ns', ns[head].next, s[1..])
  {
  }

  /** A node taken out from position `k`: its neighbours, where there are any, are tied to each other. */
  lemma Unlink(ns: seq<Node>, ns': seq<Node>, head: Link, s: seq<Link>, k: nat)
    requires |ns'| == |ns| && Within(s, |ns|) && Threaded(ns, head, s) && k < |s|
    requires ns[head].prev == NIL
    requires forall i {:trigger ns'[s[i]]} :: 0 <= i < |s| && (i < k - 1 || i > k + 1) ==> ns'[s[i]] == ns[s[i]]
    requires k > 0 ==> ns'[s[k - 1]] == ns[s[k - 1]].(next := ns[s[k]].next)
    requires k + 1 < |s| ==> ns'[s[k + 1]] == ns[s[k + 1]].(prev := ns[s[k]].prev)
    ensures Within(Without(s, k), |ns|)
    ensures var head' := if k == 0 then ns[head].next else head;
            Threaded(ns', head', Without(s, k)) && (head' != NIL ==> ns'[head'].prev == NIL)
  {
  }

  /** The invariant of a block: its node array, what was handed out, and both lists. */
  ghost predicate BlockOk(ns: seq<Node>, isWeak: bool, index: nat, usedList: Link, used: seq<Link>,
                          freeList: Link, free: seq<Link>)
  {
    && Partitioned(ns, index, used, free)
    && Threaded(ns, usedList, used)
    && (usedList != NIL ==> ns[usedList].prev == NIL)
    && Threaded(ns, freeList, free)
    && (!isWeak ==> forall x {:trigger x in used} :: x in used ==> ns[x].reference == NULLPTR && ns[x].callback == NULLPTR)
  }

  /** From `ns` to `ns'`, node `x` was filled with `value` and put in front of the used list. */
  ghost predicate Filled(ns: seq<Node>, ns': seq<Node>, x: Link, usedList: Link, value: JSTaggedType)
    requires |ns'| == |ns| && 0 <= x < |ns| && usedList < |ns|
  {
    && ns'[x] == ns[x].(prev := NIL, next := usedList, obj := value, isUsing := true)
    && (usedList != NIL ==> ns'[usedList] == ns[usedList].(prev := x))
    && (forall y {:trigger ns'[y]} :: 0 <= y < |ns| && y != x && y != usedList ==> ns'[y] == ns[y])
  }

  /** From `ns` to `ns'`, node `x` left its two neighbours and was put in front of the free list. */
  ghost predicate Released(ns: seq<Node>, ns': seq<Node>, isWeak: bool, x: Link, freeList: Link)
    requires |ns'| == |ns| && 0 <= x < |ns| && freeList < |ns| && ns[x].prev < |ns| && ns[x].next < |ns|
  {
    var p, n := ns[x].prev, ns[x].next;
    && ns'[x] == Node(UNDEFINED, freeList, NIL, false,
                      if isWeak then NULLPTR else ns[x].reference, if isWeak then NULLPTR else ns[x].callback)
    && (p != NIL ==> ns'[p] == ns[p].(next := n))
    && (n != NIL ==> ns'[n] == ns[n].(prev := p))
    && (freeList != NIL ==> ns'[freeList] == ns[freeList].(prev := x))
    && (forall y {:trigger ns'[y]} :: 0 <= y < |ns| && y != x && y != p && y != n && y != freeList ==> ns'[y] == ns[y])
  }

  lemma Heads(ns: seq<Node>, isWeak: bool, index: nat, usedList: Link, used: seq<Link>, freeList: Link, free: seq<Link>)
    requires BlockOk(ns, isWeak, index, usedList, used, freeList, free)
    ensures usedList == NIL || (usedList in used && usedList < index)
    ensures freeList == NIL || (freeList in free && freeList < index)
    ensures forall x {:trigger x in used} {:trigger x in free} :: !(x in used && x in free)
    ensures forall x {:trigger x in used} :: x in used ==> 0 <= x < index
    ensures forall x {:trigger x in free} :: x in free ==> 0 <= x < index
  {
  }

  /** Both list heads are null or nodes already handed out. */
  lemma InBounds(ns: seq<Node>, isWeak: bool, index: nat, usedList: Link, used: seq<Link>, freeList: Link, free: seq<Link>)
    requires BlockOk(ns, isWeak, index, usedList, used, freeList, free)
    ensures usedList < index <= |ns| || usedList == NIL
    ensures freeList < index <= |ns| || freeList == NIL
    ensures freeList == NIL || freeList != usedList
    ensures freeList !in used && index !in used
    ensures freeList == (if |free| == 0 then NIL else free[0])
  {
    Heads(ns, isWeak, index, usedList, used, freeList, free);
  }

  lemma TakeNew(ns: seq<Node>, ns': seq<Node>, isWeak: bool, index: nat, usedList: Link, used: seq<Link>,
                freeList: Link, free: seq<Link>, value: JSTaggedType)
    requires BlockOk(ns, isWeak, index, usedList, used, freeList, free) && index < |ns|
    requires |ns'| == |ns| && usedList < |ns| && Filled(ns, ns', index, usedList, value)
    ensures BlockOk(ns', isWeak, index + 1, index, [index] + used, freeList, free)
    ensures Keeps(ns, ns', index) && ns'[index] == Node(value, usedList, NIL, true, NULLPTR, NULLPTR)
  {
    Heads(ns, isWeak, index, usedList, used, freeList, free);
    PushFront(ns, ns', usedList, used, index);
    Untouched(ns, ns', freeList, free);
    PushedMembers(used, index);
  }

  lemma TakeFree(ns: seq<Node>, ns': seq<Node>, isWeak: bool, index: nat, usedList: Link, used: seq<Link>,
                 freeList: Link, free: seq<Link>, value: JSTaggedType)
    requires BlockOk(ns, isWeak, index, usedList, used, freeList, free) && 0 <= freeList < |ns|
    requires |ns'| == |ns| && usedList < |ns| && Filled(ns, ns', freeList, usedList, value)
    ensures freeList == free[0]
    ensures BlockOk(ns', isWeak, index, freeList, [freeList] + used, ns[freeList].next, free[1..])
    ensures Keeps(ns, ns', freeList) && ns'[freeList] == Node(value, usedList, NIL, true, NULLPTR, NULLPTR)
  {
    Heads(ns, isWeak, index, usedList, used, freeList, free);
    PushFront(ns, ns', usedList, used, freeList);
    PopFront(ns, ns', freeList, free);
  }

  /** The neighbours of the node at position `k` of the used list. */
  lemma Neighbours(ns: seq<Node>, usedList: Link, used: seq<Link>, freeList: Link, k: nat)
    requires Within(used, |ns|) && Threaded(ns, usedList, used) && Distinct(used) && k < |used|
    requires ns[usedList].prev == NIL
    requires freeList !in used
    ensures ns[used[k]].next == if k + 1 < |used| then used[k + 1] else NIL
    ensures ns[used[k]].prev == if k > 0 then used[k - 1] else NIL
    ensures var x, p, n := used[k], ns[used[k]].prev, ns[used[k]].next;
      && x != p && x != n && (p != n || p == NIL)
      && (freeList == NIL || (freeList != p && freeList != n && freeList != x))
      && forall i {:trigger used[i]} :: 0 <= i < |used| && (i < k - 1 || i > k + 1) ==> used[i] != x && used[i] != p && used[i] != n
  {
  }

  /** A used node, its neighbours and the head of the free list are different nodes. */
  lemma Detachable(ns: seq<Node>, isWeak: bool, index: nat, usedList: Link, used: seq<Link>,
                   freeList: Link, free: seq<Link>, k: nat)
    requires BlockOk(ns, isWeak, index, usedList, used, freeList, free) && k < |used|
    ensures 0 <= used[k] < |ns| && freeList < |ns| && ns[used[k]].prev < |ns| && ns[used[k]].next < |ns|
    ensures var x, p, n := used[k], ns[used[k]].prev, ns[used[k]].next;
      x != p && x != n && (p != n || p == NIL) && (freeList == NIL || (freeList != p && freeList != n && freeList != x))
  {
    Heads(ns, isWeak, index, usedList, used, freeList, free);
    Neighbours(ns, usedList, used, freeList, k);
  }

  lemma ReleasePartition(ns: seq<Node>, ns': seq<Node>, index: nat, used: seq<Link>, free: seq<Link>, k: nat)
    requires Partitioned(ns, index, used, free) && k < |used| && Keeps(ns, ns', used[k])
    requires ns'[used[k]].Idle() && ns'[used[k]].obj == UNDEFINED
    ensures Partitioned(ns', index, Without(used, k), [used[k]] + free)
    ensures forall y {:trigger y in Without(used, k)} :: y in Without(used, k) ==> y in used && y != used[k]
  {
    hide Without, Distinct;
    assert used[k] in used && used[k] !in free;
    WithoutMembers(used, k);
    PushedMembers(free, used[k]);
    var used', free' := Without(used, k), [used[k]] + free;
    assert forall i :: 0 <= i < |used'| ==> used'[i] in used';
    assert forall i :: 0 <= i < |free'| ==> free'[i] in free';
  }

  lemma PushedMembers<T>(s: seq<T>, x: T)
    requires Distinct(s) && x !in s
    ensures Distinct([x] + s)
    ensures forall y {:trigger y in [x] + s} :: y in [x] + s <==> y == x || y in s
  {
  }

  /** A used node that holds something else keeps both lists. */
  lemma Rewritten(ns: seq<Node>, ns': seq<Node>, isWeak: bool, index: nat, usedList: Link, used: seq<Link>,
                  freeList: Link, free: seq<Link>, x: Link)
    requires BlockOk(ns, isWeak, index, usedList, used, freeList, free) && x in used && 0 <= x < |ns|
    requires |ns'| == |ns| && forall y {:trigger ns'[y]} :: 0 <= y < |ns| && y != x ==> ns'[y] == ns[y]
    requires ns'[x] == ns[x].(obj := ns'[x].obj, reference := ns'[x].reference, callback := ns'[x].callback)
    requires isWeak || (ns'[x].reference == NULLPTR && ns'[x].callback == NULLPTR)
    ensures BlockOk(ns', isWeak, index, usedList, used, freeList, free)
  {
    Heads(ns, isWeak, index, usedList, used, freeList, free);
    Untouched(ns, ns', usedList, used);
    Untouched(ns, ns', freeList, free);
  }

  lemma ReleaseThreads(ns: seq<Node>, ns': seq<Node>, isWeak: bool, usedList: Link, used: seq<Link>,
                       freeList: Link, free: seq<Link>, k: nat)
    requires Within(used, |ns|) && Threaded(ns, usedList, used) && Distinct(used) && k < |used|
    requires Within(free, |ns|) && Threaded(ns, freeList, free) && Distinct(free)
    requires ns[usedList].prev == NIL
    requires forall x {:trigger x in used} {:trigger x in free} :: !(x in used && x in free)
    requires freeList < |ns| && ns[used[k]].prev < |ns| && ns[used[k]].next < |ns|
    requires |ns'| == |ns| && Released(ns, ns', isWeak, used[k], freeList)
    ensures Within(Without(used, k), |ns|) && Within([used[k]] + free, |ns|)
    ensures var x := used[k];
            var head := if x == usedList then ns[x].next else usedList;
            && Threaded(ns', head, Without(used, k)) && (head != NIL ==> ns'[head].prev == NIL)
            && Threaded(ns', x, [x] + free)
    ensures Keeps(ns, ns', used[k])
  {
    assert freeList != NIL ==> freeList == free[0] && freeList in free;
    Neighbours(ns, usedList, used, freeList, k);
    Unlink(ns, ns', usedList, used, k);
    PushFront(ns, ns', freeList, free, used[k]);
  }

  lemma Release(ns: seq<Node>, ns': seq<Node>, isWeak: bool, index: nat, usedList: Link, used: seq<Link>,
                freeList: Link, free: seq<Link>, k: nat)
    requires BlockOk(ns, isWeak, index, usedList, used, freeList, free) && k < |used|
    requires freeList < |ns| && ns[used[k]].prev < |ns| && ns[used[k]].next < |ns|
    requires |ns'| == |ns| && Released(ns, ns', isWeak, used[k], freeList)
    ensures var x := used[k];
      BlockOk(ns', isWeak, index, if x == usedList then ns[x].next else usedList, Without(used, k), x, [x] + free)
    ensures Keeps(ns, ns', used[k])
  {
    Heads(ns, isWeak, index, usedList, used, freeList, free);
    ReleaseThreads(ns, ns', isWeak, usedList, used, freeList, free, k);
    assert used[k] in used;
    ReleasePartition(ns, ns', index, used, free, k);
  }

  /** A node at the head of the free list holds nothing. */
  lemma FreeIsIdle(ns: seq<Node>, isWeak: bool, index: nat, usedList: Link, used: seq<Link>, freeList: Link, free: seq<Link>)
    requires BlockOk(ns, isWeak, index, usedList, used, freeList, free) && |free| > 0
    ensures 0 <= free[0] < |ns| && !ns[free[0]].isUsing && ns[free[0]].obj == 2
    ensures ns[free[0]].reference == 0 && ns[free[0]].callback == 0
  {
    assert free[0] in free;
  }

  class NodeList {
    const isWeak: bool
    const nodes: array<Node>
    var freeList: Link
    var usedList: Link
    var index: nat
    var next: NodeList?
    var prev: NodeList?
    var freeNext: NodeList?
    var freePrev: NodeList?
    ghost var Used: seq<Link>
    ghost var Free: seq<Link>

    ghost predicate NodesOk()
      reads `freeList, `usedList, `index, `Used, `Free, nodes
    {
      BlockOk(nodes[..], isWeak, index, usedList, Used, freeList, Free)
    }

    constructor (capacity: nat, isWeak: bool)
      ensures NodesOk()
      ensures nodes.Length == capacity && this.isWeak == isWeak
      ensures index == 0 && Used == [] && Free == [] && usedList == NIL && freeList == NIL
      ensures next == null && prev == null && freeNext == null && freePrev == null
      ensures fresh(nodes)
    {
      this.isWeak := isWeak;
      var obj: JSTaggedType := *;
      nodes := new Node[capacity](i => Node(obj, NIL, NIL, false, NULLPTR, NULLPTR));
      freeList, usedList, index := NIL, NIL, 0;
      next, prev, freeNext, freePrev := null, null, null, null;
      Used, Free := [], [];
    }

    /** Every node but `node` still holds what it held. */
    twostate predicate Undisturbed(node: Link)
      reads nodes
    {
      forall i {:trigger nodes[i]} :: 0 <= i < nodes.Length && i != node ==> Held(nodes[i]) == old(Held(nodes[i]))
    }

    /** Keeps, told of the array itself. */
    twostate lemma KeepsIsUndisturbed(node: Link)
      requires Keeps(old(nodes[..]), nodes[..], node)
      ensures Undisturbed(node)
    {
      forall i | 0 <= i < nodes.Length && i != node
        ensures Held(nodes[i]) == old(Held(nodes[i]))
      {
        assert nodes[..][i] == nodes[i];
      }
    }

    method SetNext(x: Link, node: Link)
      requires 0 <= x < nodes.Length
      modifies nodes
      ensures nodes[..] == old(nodes[..])[x := old(nodes[x]).(next := node)]
    {
      nodes[x] := nodes[x].(next := node);
    }

    method SetPrev(x: Link, node: Link)
      requires 0 <= x < nodes.Length
      modifies nodes
      ensures nodes[..] == old(nodes[..])[x := old(nodes[x]).(prev := node)]
    {
      nodes[x] := nodes[x].(prev := node);
    }

    /** Fills a node: no predecessor, the current used list behind it, the value, in use. */
    method Fill(x: Link, value: JSTaggedType)
      requires 0 <= x < nodes.Length
      modifies nodes
      ensures nodes[..] == old(nodes[..])[x := old(nodes[x]).(prev := NIL, next := usedList, obj := value, isUsing := true)]
    {
      nodes[x] := nodes[x].(prev := NIL, next := usedList, obj := value, isUsing := true);
    }

    /** Appends this block to the all-blocks chain. */
    method LinkTo(prev: NodeList)
      requires prev != this
      modifies `next, `prev, prev`next
      ensures next == null && this.prev == prev && prev.next == this
    {
      next := null;
      this.prev := prev;
      prev.next := this;
    }

    /** Ties the neighbours in both block chains to each other. */
    method RemoveList()
      requires this != next && this != prev && this != freeNext && this != freePrev
      modifies if next == null then {} else {next}`prev
      modifies if prev == null then {} else {prev}`next
      modifies if freeNext == null then {} else {freeNext}`freePrev
      modifies if freePrev == null then {} else {freePrev}`freeNext
      ensures next != null ==> next.prev == prev
      ensures prev != null ==> prev.next == next
      ensures freeNext != null ==> freeNext.freePrev == freePrev
      ensures freePrev != null ==> freePrev.freeNext == freeNext
    {
      if next != null {
        next.prev := prev;
      }
      if prev != null {
        prev.next := next;
      }
      if freeNext != null {
        freeNext.freePrev := freePrev;
      }
      if freePrev != null {
        freePrev.freeNext := freeNext;
      }
    }

    predicate IsFull()
      reads `index
    {
      index >= nodes.Length
    }

    predicate HasFreeNode()
      reads `freeList
    {
      freeList != NIL
    }

    predicate HasUsagedNode()
      reads `index, `usedList
    {
      !IsFull() || usedList != NIL
    }

    /** Hands out the next node that was never used. */
    method NewNode(value: JSTaggedType) returns (node: Link)
      requires NodesOk()
      modifies `index, `usedList, `Used, nodes
      ensures NodesOk() && Undisturbed(node)
      ensures old(IsFull()) ==> node == NIL && index == old(index) && Used == old(Used)
      ensures !old(IsFull()) ==> node !in old(Used) && usedList == node == old(index) && index == old(index) + 1 && Used == [node] + old(Used)
      ensures !old(IsFull()) ==> nodes[node] == Node(value, nodes[node].next, NIL, true, NULLPTR, NULLPTR)
    {
      if IsFull() {
        return NIL;
      }
      ghost var ns := nodes[..];
      InBounds(ns, isWeak, index, usedList, Used, freeList, Free);
      node := index;
      index := index + 1;
      Fill(node, value);
      if usedList != NIL {
        SetPrev(usedList, node);
      }
      TakeNew(ns, nodes[..], isWeak, node, usedList, Used, freeList, Free, value);
      KeepsIsUndisturbed(node);
      usedList := node;
      Used := [node] + Used;
    }

    /** Reuses the node freed last. */
    method GetFreeNode(value: JSTaggedType) returns (node: Link)
      requires NodesOk()
      modifies `freeList, `usedList, `Used, `Free, nodes
      ensures NodesOk() && Undisturbed(node)
      ensures !old(HasFreeNode()) ==> node == NIL && Free == old(Free) && Used == old(Used)
      ensures !old(HasFreeNode()) ==> freeList == old(freeList) && usedList == old(usedList) && nodes[..] == old(nodes[..])
      ensures old(HasFreeNode()) ==> 0 <= node < nodes.Length && usedList == node && node !in old(Used)
      ensures old(HasFreeNode()) ==> old(Free) == [node] + Free && Used == [node] + old(Used)
      ensures old(HasFreeNode()) ==> nodes[node] == Node(value, nodes[node].next, NIL, true, NULLPTR, NULLPTR)
    {
      node := freeList;
      if node != NIL {
        hide BlockOk;
        ghost var ns := nodes[..];
        InBounds(ns, isWeak, index, usedList, Used, freeList, Free);
        freeList := nodes[node].next;
        Fill(node, value);
        if usedList != NIL {
          SetPrev(usedList, node);
        }
        TakeFree(ns, nodes[..], isWeak, index, usedList, Used, node, Free, value);
        KeepsIsUndisturbed(node);
        usedList := node;
        Used := [node] + Used;
        Free := Free[1..];
      }
    }

    /** The writes to nodes that FreeNode makes. */
    method Relink(node: Link)
      requires 0 <= node < nodes.Length && freeList < nodes.Length
      requires nodes[node].prev < nodes.Length && nodes[node].next < nodes.Length
      requires var p, n := nodes[node].prev, nodes[node].next;
        node != p && node != n && (p != n || p == NIL) && (freeList == NIL || (freeList != p && freeList != n && freeList != node))
      modifies nodes
      ensures Released(old(nodes[..]), nodes[..], isWeak, node, freeList)
    {
      var p, n := nodes[node].prev, nodes[node].next;
      if p != NIL {
        SetNext(p, n);
      }
      if n != NIL {
        SetPrev(n, p);
      }
      nodes[node] := nodes[node].(prev := NIL, next := freeList, obj := UNDEFINED, isUsing := false);
      if isWeak {
        nodes[node] := nodes[node].(reference := NULLPTR, callback := NULLPTR);
      }
      if freeList != NIL {
        SetPrev(freeList, node);
      }
    }

    /** Takes a node out of the used list, wherever it stands, and pushes it on the free list. */
    method FreeNode(node: Link) returns (ghost k: nat)
      requires NodesOk()
      requires node in Used
      modifies `freeList, `usedList, `Used, `Free, nodes
      ensures NodesOk() && Undisturbed(node)
      ensures k < |old(Used)| && old(Used)[k] == node
      ensures Used == Without(old(Used), k)
      ensures Free == [node] + old(Free) && freeList == node
      ensures 0 <= node < nodes.Length && nodes[node].obj == 2 && !nodes[node].isUsing
      ensures nodes[node].reference == 0 && nodes[node].callback == 0
    {
      hide BlockOk;
      k :| 0 <= k < |Used| && Used[k] == node;
      ghost var ns, head := nodes[..], usedList;
      Detachable(ns, isWeak, index, usedList, Used, freeList, Free, k);
      if node == usedList {
        usedList := nodes[node].next;
      }
      Relink(node);
      Release(ns, nodes[..], isWeak, index, head, Used, freeList, Free, k);
      KeepsIsUndisturbed(node);
      freeList := node;
      Used := Without(Used, k);
      Free := [node] + Free;
      FreeIsIdle(nodes[..], isWeak, index, usedList, Used, freeList, Free);
    }

    /** Rewrites what a used node holds. */
    method SetContent(node: Link, content: Content)
      requires NodesOk() && node in Used && 0 <= node < nodes.Length
      requires isWeak || (content.reference == NULLPTR && content.callback == NULLPTR)
      modifies nodes
      ensures NodesOk() && Undisturbed(node) && Held(nodes[node]) == content
      ensures nodes[node].obj == content.value && nodes[node].reference == content.reference
      ensures nodes[node].callback == content.callback
      ensures forall i :: 0 <= i < nodes.Length ==> nodes[i].next == old(nodes[i].next)
    {
      ghost var ns := nodes[..];
      nodes[node] := nodes[node].(obj := content.value, reference := content.reference, callback := content.callback);
      Rewritten(ns, nodes[..], isWeak, index, usedList, Used, freeList, Free, node);
    }
  }
}
