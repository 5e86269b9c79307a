/** The global handle storage: a strong and a weak store between which handles can migrate. */
module GlobalStorage {
  import opened HandleBlocks
  import opened HandleStores
  import opened StoredValues

  /** One call made by a client; `k` is the ordinal of a handle among all that were ever handed out. */
  datatype Op =
    | New(value: JSTaggedType)
    | Drop(k: nat)
    | MakeWeak(k: nat, reference: Pointer, callback: Pointer)
    | MakeStrong(k: nat)

  /** What became of a handle that was handed out. */
  datatype Slot = Gone | Strong(value: JSTaggedType) | Weak(value: JSTaggedType, reference: Pointer, callback: Pointer)

  predicate Enabled(slots: seq<Slot>, op: Op) {
    op.New? || (op.k < |slots| && !slots[op.k].Gone?)
  }

  /** The storage seen from outside: a list to which handles are appended and in which they are crossed out. */
  function Step(slots: seq<Slot>, op: Op): (r: seq<Slot>)
    requires Enabled(slots, op)
  {
    match op
    case New(value) => slots + [Strong(value)]
    case Drop(k) => slots[k := Gone]
    case MakeWeak(k, reference, callback) => slots[k := Gone] + [Weak(slots[k].value, reference, callback)]
    case MakeStrong(k) => slots[k := Gone] + [Strong(slots[k].value)]
  }

  /** What a call makes of each slot: one is crossed out, unless the call is New, and one is appended, unless it is Drop. */
  lemma StepAt(slots: seq<Slot>, op: Op, j: nat)
    requires Enabled(slots, op)
    ensures var slots' := Step(slots, op);
      && |slots'| == |slots| + (if op.Drop? then 0 else 1)
      && (j < |slots| ==> slots'[j] == if !op.New? && j == op.k then Gone else slots[j])
      && match op
         case New(value) => slots'[|slots|] == Strong(value)
         case Drop(k) => true
         case MakeWeak(k, reference, callback) =>
           slots'[|slots|] == Slot.Weak(slots[k].value, reference, callback)
         case MakeStrong(k) => slots'[|slots|] == Strong(slots[k].value)
  {
  }

  predicate AllEnabled(slots: seq<Slot>, ops: seq<Op>)
    decreases |ops|
  {
    |ops| == 0 || (Enabled(slots, ops[0]) && AllEnabled(Step(slots, ops[0]), ops[1..]))
  }

  function Steps(slots: seq<Slot>, ops: seq<Op>): seq<Slot>
    requires AllEnabled(slots, ops)
    decreases |ops|
  {
    if |ops| == 0 then slots else Steps(Step(slots, ops[0]), ops[1..])
  }

  /** What one slot adds to the values held by the weak handles, or by the strong ones. */
  function Value(slot: Slot, weak: bool): multiset<JSTaggedType> {
    if slot.Gone? || slot.Weak? != weak then multiset{} else multiset{slot.value}
  }

  /** The values held by the weak handles, or by the strong ones. */
  function Values(slots: seq<Slot>, weak: bool): multiset<JSTaggedType> {
    if |slots| == 0 then multiset{} else Value(slots[0], weak) + Values(slots[1..], weak)
  }

  lemma {:induction false} ValuesAppend(slots: seq<Slot>, slot: Slot, weak: bool)
    ensures Values(slots + [slot], weak) == Values(slots, weak) + Value(slot, weak)
  {
    if |slots| > 0 {
      assert (slots + [slot])[1..] == slots[1..] + [slot];
      ValuesAppend(slots[1..], slot, weak);
    } else {
      assert slots + [slot] == [slot];
    }
  }

  lemma {:induction false} ValuesCrossOut(slots: seq<Slot>, k: nat, weak: bool)
    requires k < |slots|
    ensures Values(slots, weak) == Values(slots[k := Gone], weak) + Value(slots[k], weak)
  {
    if k > 0 {
      assert slots[k := Gone][1..] == slots[1..][k - 1 := Gone];
      ValuesCrossOut(slots[1..], k - 1, weak);
      assert Values(slots[k := Gone], weak) == Value(slots[0], weak) + Values(slots[1..][k - 1 := Gone], weak);
      Swap(Value(slots[0], weak), Values(slots[1..][k - 1 := Gone], weak), Value(slots[k], weak));
    } else {
      assert slots[k := Gone][1..] == slots[1..];
    }
  }

  lemma Cancel<T>(a: multiset<T>, b: multiset<T>, c: multiset<T>)
    requires a + c == b + c
    ensures a == b
  {
    assert (a + c) - c == a && (b + c) - c == b;
  }

  /** Making a handle weak or strong: each store loses what the old handle held there and gains what the new one holds. */
  lemma Migrates(slots: seq<Slot>, op: Op, weak: bool)
    requires Enabled(slots, op) && (op.MakeWeak? || op.MakeStrong?)
    ensures |Step(slots, op)| == |slots| + 1 && Step(slots, op)[|slots|].Weak? == op.MakeWeak?
    ensures Values(Step(slots, op), weak) + Value(slots[op.k], weak) == Values(slots, weak) + Value(Step(slots, op)[|slots|], weak)
  {
    var slot := Step(slots, op)[|slots|];
    ValuesCrossOut(slots, op.k, weak);
    ValuesAppend(slots[op.k := Gone], slot, weak);
  }

  /** Making a handle weak or strong conserves the values held in the two stores together. */
  lemma MigrationConserves(slots: seq<Slot>, op: Op)
    requires Enabled(slots, op) && (op.MakeWeak? || op.MakeStrong?)
    ensures Values(Step(slots, op), true) + Values(Step(slots, op), false) == Values(slots, true) + Values(slots, false)
  {
    var slots', v := Step(slots, op), multiset{slots[op.k].value};
    Migrates(slots, op, true);
    Migrates(slots, op, false);
    assert Value(slots[op.k], true) + Value(slots[op.k], false) == v;
    assert Value(slots'[|slots|], true) + Value(slots'[|slots|], false) == v;
    Regroup(Values(slots', true), Value(slots[op.k], true), Values(slots', false), Value(slots[op.k], false));
    Regroup(Values(slots, true), Value(slots'[|slots|], true), Values(slots, false), Value(slots'[|slots|], false));
    Cancel(Values(slots', true) + Values(slots', false), Values(slots, true) + Values(slots, false), v);
  }

  lemma Regroup<T>(a: multiset<T>, b: multiset<T>, c: multiset<T>, d: multiset<T>)
    ensures (a + b) + (c + d) == (a + c) + (b + d)
  {
  }

  /** Making a strong handle weak and the new handle strong again restores what both stores hold. */
  lemma WeakThenStrong(slots: seq<Slot>, k: nat, reference: Pointer, callback: Pointer, weak: bool)
    requires k < |slots| && slots[k].Strong?
    ensures AllEnabled(slots, [MakeWeak(k, reference, callback), MakeStrong(|slots|)])
    ensures var slots' := Steps(slots, [MakeWeak(k, reference, callback), MakeStrong(|slots|)]);
      && Values(slots', weak) == Values(slots, weak)
      && slots' == slots[k := Gone] + [Gone, slots[k]]
  {
    hide Values, Steps, AllEnabled;
    var first, second := MakeWeak(k, reference, callback), MakeStrong(|slots|);
    var middle := Step(slots, first);
    TwoSteps(slots, first, second);
    var slots' := Step(middle, second);
    assert slots' == (slots[k := Gone] + [Gone]) + [slots[k]];
    ValuesCrossOut(slots, k, weak);
    ValuesAppend(slots[k := Gone], Gone, weak);
    ValuesAppend(slots[k := Gone] + [Gone], slots[k], weak);
  }

  lemma TwoSteps(slots: seq<Slot>, first: Op, second: Op)
    requires Enabled(slots, first) && Enabled(Step(slots, first), second)
    ensures AllEnabled(slots, [first, second])
    ensures Steps(slots, [first, second]) == Step(Step(slots, first), second)
  {
    assert [first, second][1..] == [second] && [second][1..] == [];
    var middle := Step(slots, first);
    assert AllEnabled(middle, [second]) && AllEnabled(slots, [first, second]);
    assert Steps(middle, [second]) == Steps(Step(middle, second), []);
  }

  class EcmaGlobalStorage {
    const strong: HandleStore
    const weak: HandleStore

    ghost predicate Valid()
      reads this, strong, weak, strong.Repr, weak.Repr
    {
      && strong.Valid() && weak.Valid()
      && !strong.isWeak && weak.isWeak
      && strong in strong.Repr && weak in weak.Repr
      && strong.Repr !! weak.Repr && this !in strong.Repr && this !in weak.Repr
    }

    constructor (blockSize: nat, successor: FreeSuccessor)
      requires blockSize >= 1
      ensures Valid() && fresh(strong.Repr) && fresh(weak.Repr)
      ensures strong.Contents == map[] && weak.Contents == map[]
      ensures strong.successor == successor && weak.successor == successor
    {
      hide HandleStore.Valid;
      strong := new HandleStore(blockSize, false, successor);
      weak := new HandleStore(blockSize, true, successor);
    }

    /** The address of a node in a block that was not deleted. */
    ghost predicate Addressable(h: Handle)
      reads strong`Blocks, weak`Blocks
    {
      (h.block in strong.Blocks || h.block in weak.Blocks) && 0 <= h.node < h.block.nodes.Length
    }

    /** A live handle is in one of the two stores, and only in one. */
    lemma Apart(h: Handle)
      requires Valid()
      ensures h in strong.Contents ==> h.block in strong.Blocks && h.block in strong.Repr
      ensures h in weak.Contents ==> h.block in weak.Blocks && h.block in weak.Repr
      ensures !(h in strong.Contents && h in weak.Contents)
      ensures h in strong.Contents || h in weak.Contents ==> h.node != NIL
    {
      strong.HandlesInRepr();
      weak.HandlesInRepr();
    }

    /** The same of all live handles. */
    lemma AllApart()
      requires Valid()
      ensures forall h {:trigger h in strong.Contents} :: h in strong.Contents ==> h.block in strong.Repr && h.node != NIL
      ensures forall h {:trigger h in weak.Contents} :: h in weak.Contents ==> h.block in weak.Repr && h.node != NIL
    {
      strong.HandlesInRepr();
      weak.HandlesInRepr();
    }

    method NewGlobalHandle(value: JSTaggedType) returns (h: Handle)
      requires Valid()
      modifies strong.Repr
      ensures Valid() && fresh(strong.Repr - old(strong.Repr)) && strong.Repr >= old(strong.Repr)
      ensures h.node != NIL && h !in old(strong.Contents) && h !in old(weak.Contents)
      ensures strong.Contents == old(strong.Contents)[h := Content(value, NULLPTR, NULLPTR)]
      ensures weak.Contents == old(weak.Contents) && weak.Repr == old(weak.Repr)
    {
      hide HandleStore.Valid, HandleStore.BlocksValid, HandleStore.Allocatable, HandleStore.TakesNull;
      AllApart();
      strong.ValidIsAllocatable();
      h := strong.NewGlobalHandle(value);
      Apart(h);
    }

    /** Whether disposing of `h` breaks a free-block chain. */
    ghost predicate LosesFreeChain(h: Handle)
      reads strong, weak, h.block
    {
      (h in strong.Contents && strong.LosesFreeChain(h)) || (h in weak.Contents && weak.LosesFreeChain(h))
    }

    /** The same, told from what a caller can look at before the call. */
    predicate BreaksFreeChain(h: Handle)
      requires 0 <= h.node < h.block.nodes.Length
      reads strong, weak, h.block, h.block.nodes
    {
      if h.block.isWeak then weak.BreaksFreeChain(h) else strong.BreaksFreeChain(h)
    }

    lemma BreaksIffLoses(h: Handle)
      requires Valid() && (h in strong.Contents || h in weak.Contents)
      ensures Addressable(h)
      ensures BreaksFreeChain(h) <==> LosesFreeChain(h)
    {
      hide HandleStore.Valid, HandleStore.BreaksFreeChain, HandleStore.LosesFreeChain;
      Apart(h);
      if h in strong.Contents {
        strong.BreaksIffLoses(h);
      } else {
        weak.BreaksIffLoses(h);
      }
      Flags(h);
    }

    /** Disposes of a handle; disposing of one that is not in use does nothing. */
    method DisposeGlobalHandle(h: Handle)
      requires Valid() && Addressable(h)
      modifies strong.Repr, weak.Repr
      ensures strong.Contents == old(strong.Contents) - {h} && weak.Contents == old(weak.Contents) - {h}
      ensures Valid() <==> !old(LosesFreeChain(h))
      ensures strong.Valid() <==> !old(h in strong.Contents && strong.LosesFreeChain(h))
      ensures weak.Valid() <==> !old(h in weak.Contents && weak.LosesFreeChain(h))
      ensures strong.BlocksValid() && weak.BlocksValid()
      ensures strong.Allocatable() && (strong.TakesNull() <==> old(h in strong.Contents && strong.LeavesNull(h)))
      ensures weak.Allocatable() && (weak.TakesNull() <==> old(h in weak.Contents && weak.LeavesNull(h)))
      ensures strong.Repr == old(strong.Repr) && weak.Repr == old(weak.Repr)
    {
      hide HandleStore.Valid, HandleStore.BlocksValid, HandleStore.LosesFreeChain, HandleStore.LeavesNull, HandleStore.Allocatable,
        HandleStore.TakesNull;
      Flags(h);
      strong.ValidIsAllocatable();
      weak.ValidIsAllocatable();
      if !h.block.nodes[h.node].isUsing {
        return;
      }
      if h.block.isWeak {
        weak.DisposeGlobalHandle(h);
        strong.ValidIsAllocatable();
      } else {
        strong.DisposeGlobalHandle(h);
        weak.ValidIsAllocatable();
      }
    }

    /** What the flags of an addressable node say. */
    lemma Flags(h: Handle)
      requires Valid() && Addressable(h)
      ensures h.block.nodes[h.node].isUsing <==> h in strong.Contents || h in weak.Contents
      ensures h.block.isWeak <==> h.block in weak.Blocks
      ensures h in strong.Contents ==> !h.block.isWeak && strong.Contents[h] == Held(h.block.nodes[h.node])
      ensures h in weak.Contents ==> h.block.isWeak && weak.Contents[h] == Held(h.block.nodes[h.node])
      ensures !(h in strong.Contents && h in weak.Contents)
    {
      Apart(h);
      if h.block in strong.Blocks {
        strong.UsingIsLive(h);
      } else {
        weak.UsingIsLive(h);
      }
    }

    /** Moves a value to a new weak handle. When the freed node is reused at once the handle keeps its address. With a free
        chain just lost the new handle can be null, and the source goes on to write through it. */
    method SetWeak(h: Handle, reference: Pointer, callback: Pointer) returns (r: Handle)
      requires Valid() && Addressable(h)
      modifies strong.Repr, weak.Repr
      ensures r.node == NIL <==> old(h in weak.Contents && weak.LeavesNull(h))
      ensures strong.Contents == old(strong.Contents) - {h}
      ensures r !in old(strong.Contents) && r !in old(weak.Contents) - {h}
      ensures weak.Contents ==
        if r.node == NIL then old(weak.Contents) - {h}
        else (old(weak.Contents) - {h})[r := Content(old(h.block.nodes[h.node].obj), reference, callback)]
      ensures strong.BlocksValid() && weak.BlocksValid()
      ensures !old(h in weak.Contents && weak.LosesFreeChain(h)) ==> (Valid() <==> !old(LosesFreeChain(h)))
      ensures old(h in strong.Contents || h in weak.Contents) && r.node != NIL ==>
        ValuesIn(strong.Contents) + ValuesIn(weak.Contents) == ValuesIn(old(strong.Contents)) + ValuesIn(old(weak.Contents))
      ensures strong.Repr == old(strong.Repr) && weak.Repr >= old(weak.Repr) && fresh(weak.Repr - old(weak.Repr))
    {
      hide HandleStore.Valid, HandleStore.BlocksValid, HandleStore.Allocatable, HandleStore.LosesFreeChain, HandleStore.LeavesNull,
        HandleStore.TakesNull, ValuesIn;
      var value := h.block.nodes[h.node].obj;
      Flags(h);
      AllApart();
      DisposeGlobalHandle(h);
      r := weak.NewGlobalHandle(value);
      if r.node == NIL {
        return;
      }
      weak.HandlesInRepr();
      assert r in weak.Contents;
      weak.Put(r, Content(value, reference, callback));
      if old(h in strong.Contents || h in weak.Contents) {
        Moved(old(strong.Contents), old(weak.Contents), h, r, Content(value, reference, callback));
        assert weak.Contents == (old(weak.Contents) - {h})[r := Content(value, reference, callback)];
      }
    }

    /** Moves a value to a new strong handle. */
    method ClearWeak(h: Handle) returns (r: Handle)
      requires Valid() && Addressable(h)
      modifies strong.Repr, weak.Repr
      ensures r.node == NIL <==> old(h in strong.Contents && strong.LeavesNull(h))
      ensures weak.Contents == old(weak.Contents) - {h}
      ensures r !in old(weak.Contents) && r !in old(strong.Contents) - {h}
      ensures strong.Contents ==
        if r.node == NIL then old(strong.Contents) - {h}
        else (old(strong.Contents) - {h})[r := Content(old(h.block.nodes[h.node].obj), NULLPTR, NULLPTR)]
      ensures strong.BlocksValid() && weak.BlocksValid()
      ensures !old(h in strong.Contents && strong.LosesFreeChain(h)) ==> (Valid() <==> !old(LosesFreeChain(h)))
      ensures old(h in strong.Contents || h in weak.Contents) && r.node != NIL ==>
        ValuesIn(strong.Contents) + ValuesIn(weak.Contents) == ValuesIn(old(strong.Contents)) + ValuesIn(old(weak.Contents))
      ensures weak.Repr == old(weak.Repr) && strong.Repr >= old(strong.Repr) && fresh(strong.Repr - old(strong.Repr))
    {
      hide HandleStore.Valid, HandleStore.BlocksValid, HandleStore.Allocatable, HandleStore.LosesFreeChain, HandleStore.LeavesNull,
        HandleStore.TakesNull, ValuesIn;
      var value := h.block.nodes[h.node].obj;
      Flags(h);
      AllApart();
      DisposeGlobalHandle(h);
      r := strong.NewGlobalHandle(value);
      if r.node == NIL {
        return;
      }
      strong.HandlesInRepr();
      assert r in strong.Contents;
      if old(h in strong.Contents || h in weak.Contents) {
        Moved(old(weak.Contents), old(strong.Contents), h, r, Content(value, NULLPTR, NULLPTR));
        assert strong.Contents == (old(strong.Contents) - {h})[r := Content(value, NULLPTR, NULLPTR)];
      }
    }
  }

  /** The contents of the two stores as one map. */
  ghost function View(strong: map<Handle, Content>, weak: map<Handle, Content>): map<Handle, Slot> {
    map h | h in strong.Keys + weak.Keys ::
      if h in strong then Strong(strong[h].value) else Weak(weak[h].value, weak[h].reference, weak[h].callback)
  }

  /** What is live is exactly what the slots say, under different addresses. */
  ghost predicate Represents(view: map<Handle, Slot>, handles: seq<Handle>, slots: seq<Slot>) {
    && |handles| == |slots|
    && (forall k {:trigger slots[k]} :: 0 <= k < |slots| && !slots[k].Gone? ==>
      handles[k] in view && view[handles[k]] == slots[k])
    && (forall i, j {:trigger slots[i], slots[j]} :: 0 <= i < j < |slots| && !slots[i].Gone? && !slots[j].Gone? ==>
      handles[i] != handles[j])
    && (forall h {:trigger h in view} :: h in view ==> exists k :: 0 <= k < |slots| && !slots[k].Gone? && handles[k] == h)
  }

  /** In terms of the stores: each live slot has its own handle, in the store of its kind, which holds what the slot says,
      and no other handle is live. */
  lemma RepresentsContents(strong: map<Handle, Content>, weak: map<Handle, Content>, handles: seq<Handle>, slots: seq<Slot>)
    requires strong.Keys !! weak.Keys && Represents(View(strong, weak), handles, slots)
    ensures |handles| == |slots|
    ensures forall k {:trigger slots[k]} :: 0 <= k < |slots| ==>
      match slots[k]
      case Gone => true
      case Strong(value) => handles[k] in strong && strong[handles[k]].value == value
      case Weak(value, reference, callback) => handles[k] in weak && weak[handles[k]] == Content(value, reference, callback)
    ensures forall h {:trigger h in strong} :: h in strong ==> exists k :: 0 <= k < |slots| && slots[k].Strong? && handles[k] == h
    ensures forall h {:trigger h in weak} :: h in weak ==> exists k :: 0 <= k < |slots| && slots[k].Weak? && handles[k] == h
    ensures forall i, j {:trigger slots[i], slots[j]} :: 0 <= i < j < |slots| && !slots[i].Gone? && !slots[j].Gone? ==>
      handles[i] != handles[j]
  {
    var view := View(strong, weak);
    forall h
      ensures h in view <==> h in strong || h in weak
    {
    }
  }

  lemma Append(view: map<Handle, Slot>, handles: seq<Handle>, slots: seq<Slot>, h: Handle, slot: Slot)
    requires Represents(view, handles, slots) && h !in view && !slot.Gone?
    ensures Represents(view[h := slot], handles + [h], slots + [slot])
  {
    var view', handles', slots' := view[h := slot], handles + [h], slots + [slot];
    forall g | g in view'
      ensures exists k :: 0 <= k < |slots'| && !slots'[k].Gone? && handles'[k] == g
    {
      var k := |slots|;
      if g != h {
        k :| 0 <= k < |slots| && !slots[k].Gone? && handles[k] == g;
      }
      assert !slots'[k].Gone? && handles'[k] == g;
    }
  }

  lemma CrossOut(view: map<Handle, Slot>, handles: seq<Handle>, slots: seq<Slot>, k: nat)
    requires Represents(view, handles, slots) && k < |slots| && !slots[k].Gone?
    ensures Represents(view - {handles[k]}, handles, slots[k := Gone])
  {
    var view', slots' := view - {handles[k]}, slots[k := Gone];
    forall g | g in view'
      ensures exists i :: 0 <= i < |slots'| && !slots'[i].Gone? && handles[i] == g
    {
      var i :| 0 <= i < |slots| && !slots[i].Gone? && handles[i] == g;
      assert !slots'[i].Gone? && handles[i] == g;
    }
  }

  lemma ViewDrop(strong: map<Handle, Content>, weak: map<Handle, Content>, h: Handle)
    ensures View(strong - {h}, weak - {h}) == View(strong, weak) - {h}
  {
  }

  lemma ViewPutStrong(strong: map<Handle, Content>, weak: map<Handle, Content>, h: Handle, c: Content)
    requires h !in weak
    ensures View(strong[h := c], weak) == View(strong, weak)[h := Strong(c.value)]
  {
  }

  lemma ViewPutWeak(strong: map<Handle, Content>, weak: map<Handle, Content>, h: Handle, c: Content)
    requires h !in strong
    ensures View(strong, weak[h := c]) == View(strong, weak)[h := Weak(c.value, c.reference, c.callback)]
  {
  }

  predicate OfKind(slot: Slot, weak: bool) {
    !slot.Gone? && slot.Weak? == weak
  }

  /** One store holds exactly what the slots of its kind say, as far as values go. */
  ghost predicate HeldBy(c: map<Handle, Content>, handles: seq<Handle>, slots: seq<Slot>, weak: bool) {
    && |handles| == |slots|
    && (forall k {:trigger slots[k]} :: 0 <= k < |slots| && OfKind(slots[k], weak) ==>
      handles[k] in c && c[handles[k]].value == slots[k].value)
    && (forall i, j {:trigger slots[i], slots[j]} :: 0 <= i < j < |slots| && OfKind(slots[i], weak) && OfKind(slots[j], weak) ==>
      handles[i] != handles[j])
    && (forall h {:trigger h in c} :: h in c ==> exists k :: 0 <= k < |slots| && OfKind(slots[k], weak) && handles[k] == h)
  }

  lemma HeldByRest(c: map<Handle, Content>, handles: seq<Handle>, slots: seq<Slot>, weak: bool)
    requires HeldBy(c, handles, slots, weak) && |slots| > 0
    ensures HeldBy(if OfKind(slots[0], weak) then c - {handles[0]} else c, handles[1..], slots[1..], weak)
  {
    var d := if OfKind(slots[0], weak) then c - {handles[0]} else c;
    assert forall k :: 0 <= k < |slots[1..]| ==> slots[1..][k] == slots[k + 1] && handles[1..][k] == handles[k + 1];
    forall h | h in d
      ensures exists k :: 0 <= k < |slots[1..]| && OfKind(slots[1..][k], weak) && handles[1..][k] == h
    {
      var k :| 0 <= k < |slots| && OfKind(slots[k], weak) && handles[k] == h;
      assert slots[1..][k - 1] == slots[k] && handles[1..][k - 1] == h;
    }
  }

  lemma {:induction false} HeldValues(c: map<Handle, Content>, handles: seq<Handle>, slots: seq<Slot>, weak: bool)
    requires HeldBy(c, handles, slots, weak)
    ensures ValuesIn(c) == Values(slots, weak)
    decreases |slots|
  {
    hide ValuesIn;
    if |slots| == 0 {
      assert c == map[];
      NoValues();
    } else {
      HeldByRest(c, handles, slots, weak);
      if OfKind(slots[0], weak) {
        TakeOut(c, handles[0]);
        HeldValues(c - {handles[0]}, handles[1..], slots[1..], weak);
      } else {
        HeldValues(c, handles[1..], slots[1..], weak);
      }
    }
  }

  /** The values of the slots are the values in the two stores. */
  lemma RepresentsValues(strong: map<Handle, Content>, weak: map<Handle, Content>, handles: seq<Handle>, slots: seq<Slot>)
    requires strong.Keys !! weak.Keys && Represents(View(strong, weak), handles, slots)
    ensures ValuesIn(strong) == Values(slots, false) && ValuesIn(weak) == Values(slots, true)
  {
    hide ValuesIn, Values;
    var view := View(strong, weak);
    forall h
      ensures h in view <==> h in strong || h in weak
    {
    }
    HeldValues(strong, handles, slots, false);
    HeldValues(weak, handles, slots, true);
  }

  /** A live handle is addressable and its node holds what the slot says. */
  lemma LiveNode(s: EcmaGlobalStorage, handles: seq<Handle>, slots: seq<Slot>, k: nat)
    requires s.Valid() && Represents(View(s.strong.Contents, s.weak.Contents), handles, slots)
    requires k < |slots| && !slots[k].Gone?
    ensures k < |handles| && s.Addressable(handles[k])
    ensures handles[k].block.nodes[handles[k].node].obj == slots[k].value
  {
    var h := handles[k];
    assert h in View(s.strong.Contents, s.weak.Contents);
    if h in s.strong.Contents {
      s.strong.ContentsAreUsed(h);
    } else {
      s.weak.ContentsAreUsed(h);
    }
    s.Flags(h);
  }

  /** Making a strong handle weak and the new handle strong again: both stores hold the values that they held. */
  method WeakAndBack(s: EcmaGlobalStorage, h: Handle, reference: Pointer, callback: Pointer) returns (r: Handle)
    requires s.Valid() && h in s.strong.Contents && !s.LosesFreeChain(h)
    modifies s.strong.Repr, s.weak.Repr
    ensures r.node != NIL && r in s.strong.Contents && s.strong.Contents[r].value == old(s.strong.Contents[h].value)
    ensures ValuesIn(s.strong.Contents) == ValuesIn(old(s.strong.Contents))
    ensures s.weak.Contents == old(s.weak.Contents)
  {
    hide HandleStore.Valid, HandleStore.LosesFreeChain, HandleStore.LeavesNull, ValuesIn;
    ghost var strong, weak := s.strong.Contents, s.weak.Contents;
    s.BreaksIffLoses(h);
    s.Flags(h);
    s.AllApart();
    NotNull(s.weak, h);
    var w := s.SetWeak(h, reference, callback);
    s.BreaksIffLoses(w);
    s.Flags(w);
    r := s.ClearWeak(w);
    TakeOut(strong, h);
    PutIn(strong - {h}, r, Content(strong[h].value, NULLPTR, NULLPTR));
    OutAndBack(weak, h, w, Content(strong[h].value, reference, callback));
    WithoutStranger(strong - {h}, w);
  }

  lemma OutAndBack(c: map<Handle, Content>, h: Handle, w: Handle, content: Content)
    requires h !in c && w !in c - {h}
    ensures (c - {h})[w := content] - {w} == c
  {
  }

  lemma WithoutStranger(c: map<Handle, Content>, h: Handle)
    requires h !in c
    ensures c - {h} == c
  {
  }

  /** One client call that loses no free chain refines one step of the list of slots, and no handle handed out before
      changes its address. */
  method Perform(s: EcmaGlobalStorage, handles: seq<Handle>, ghost slots: seq<Slot>, op: Op) returns (handles': seq<Handle>)
    requires s.Valid() && Represents(View(s.strong.Contents, s.weak.Contents), handles, slots) && Enabled(slots, op)
    requires op.New? || !s.LosesFreeChain(handles[op.k])
    modifies s.strong.Repr, s.weak.Repr
    ensures s.Valid() && fresh(s.strong.Repr - old(s.strong.Repr)) && fresh(s.weak.Repr - old(s.weak.Repr))
    ensures Represents(View(s.strong.Contents, s.weak.Contents), handles', Step(slots, op))
    ensures handles <= handles'
  {
    hide EcmaGlobalStorage.Valid, Represents, View, HandleStore.LosesFreeChain, HandleStore.LeavesNull, ValuesIn;
    ghost var strong, weak := s.strong.Contents, s.weak.Contents;
    ghost var view := View(strong, weak);
    if op.New? {
      var h := s.NewGlobalHandle(op.value);
      ViewPutStrong(strong, weak, h, Content(op.value, NULLPTR, NULLPTR));
      InView(strong, weak, h);
      Append(view, handles, slots, h, Strong(op.value));
      return handles + [h];
    }
    LiveNode(s, handles, slots, op.k);
    var d := handles[op.k];
    ghost var v := slots[op.k].value;
    CrossOut(view, handles, slots, op.k);
    ViewDrop(strong, weak, d);
    NotNull(s.strong, d);
    NotNull(s.weak, d);
    match op {
      case Drop(_) =>
        s.DisposeGlobalHandle(d);
        handles' := handles;
      case MakeWeak(_, reference, callback) =>
        var h := s.SetWeak(d, reference, callback);
        ViewPutWeak(strong - {d}, weak - {d}, h, Content(v, reference, callback));
        InView(strong - {d}, weak - {d}, h);
        Append(view - {d}, handles, slots[op.k := Gone], h, Weak(v, reference, callback));
        handles' := handles + [h];
      case MakeStrong(_) =>
        var h := s.ClearWeak(d);
        ViewPutStrong(strong - {d}, weak - {d}, h, Content(v, NULLPTR, NULLPTR));
        InView(strong - {d}, weak - {d}, h);
        Append(view - {d}, handles, slots[op.k := Gone], h, Strong(v));
        handles' := handles + [h];
    }
  }

  lemma NotNull(s: HandleStore, d: Handle)
    ensures !s.LosesFreeChain(d) ==> !s.LeavesNull(d)
  {
  }

  lemma InView(strong: map<Handle, Content>, weak: map<Handle, Content>, h: Handle)
    ensures h in View(strong, weak) <==> h in strong || h in weak
  {
  }

  lemma StepsSplit(slots: seq<Slot>, ops: seq<Op>, n: nat)
    requires n < |ops| && AllEnabled(slots, ops)
    ensures AllEnabled(slots, ops[..n]) && AllEnabled(slots, ops[..n + 1])
    ensures Enabled(Steps(slots, ops[..n]), ops[n])
    ensures Steps(slots, ops[..n + 1]) == Step(Steps(slots, ops[..n]), ops[n])
    decreases |ops|
  {
    hide Enabled, Step;
    if n > 0 {
      StepsSplit(Step(slots, ops[0]), ops[1..], n - 1);
      assert ops[..n][1..] == ops[1..][..n - 1] && ops[..n + 1][1..] == ops[1..][..n];
    } else {
      assert ops[..1][1..] == [] && ops[..0] == [];
    }
  }

  /** Any run of client calls from any state, up to the first that would lose a free chain: the storage stays in order and
      holds exactly what the list of slots says, and handles keep their addresses. With the successor as meant, nothing
      stops a run. */
  method Run(s: EcmaGlobalStorage, start: seq<Handle>, ghost slots: seq<Slot>, ops: seq<Op>)
    returns (handles: seq<Handle>, done: nat)
    requires s.Valid() && Represents(View(s.strong.Contents, s.weak.Contents), start, slots) && AllEnabled(slots, ops)
    modifies s.strong.Repr, s.weak.Repr
    ensures s.Valid() && start <= handles
    ensures done <= |ops| && AllEnabled(slots, ops[..done])
    ensures Represents(View(s.strong.Contents, s.weak.Contents), handles, Steps(slots, ops[..done]))
    ensures done < |ops| ==> !ops[done].New? && ops[done].k < |handles| && s.LosesFreeChain(handles[ops[done].k])
    ensures s.strong.successor.FreeBlocksNext? && s.weak.successor.FreeBlocksNext? ==> done == |ops|
  {
    hide EcmaGlobalStorage.Valid, EcmaGlobalStorage.BreaksFreeChain, EcmaGlobalStorage.LosesFreeChain, Represents, View, Steps, AllEnabled;
    handles, done := start, 0;
    NoSteps(slots, ops);
    while done < |ops|
      invariant s.Valid() && start <= handles && done <= |ops|
      invariant fresh(s.strong.Repr - old(s.strong.Repr)) && fresh(s.weak.Repr - old(s.weak.Repr))
      invariant AllEnabled(slots, ops[..done])
      invariant Represents(View(s.strong.Contents, s.weak.Contents), handles, Steps(slots, ops[..done]))
    {
      var op := ops[done];
      StepsSplit(slots, ops, done);
      if !op.New? {
        IsLive(s, handles, Steps(slots, ops[..done]), op.k);
        s.BreaksIffLoses(handles[op.k]);
        if s.BreaksFreeChain(handles[op.k]) {
          NeverLost(s, handles[op.k]);
          return;
        }
      }
      handles := Perform(s, handles, Steps(slots, ops[..done]), op);
      done := done + 1;
    }
  }

  lemma NoSteps(slots: seq<Slot>, ops: seq<Op>)
    ensures AllEnabled(slots, ops[..0]) && Steps(slots, ops[..0]) == slots
  {
  }

  lemma IsLive(s: EcmaGlobalStorage, handles: seq<Handle>, slots: seq<Slot>, k: nat)
    requires Represents(View(s.strong.Contents, s.weak.Contents), handles, slots) && k < |slots| && !slots[k].Gone?
    ensures k < |handles| && (handles[k] in s.strong.Contents || handles[k] in s.weak.Contents)
  {
    assert handles[k] in View(s.strong.Contents, s.weak.Contents);
  }

  lemma NeverLost(s: EcmaGlobalStorage, h: Handle)
    ensures s.LosesFreeChain(h) ==> !(s.strong.successor.FreeBlocksNext? && s.weak.successor.FreeBlocksNext?)
  {
  }

}
