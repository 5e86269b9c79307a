/** What the operations of an array list do to the sequence it stands for, and what an iterator sees of it. */
module ArrayListSpec {
  import opened Words

  /** The operations that change a list. */
  datatype Op<T> =
    | Add(value: T)
    | Insert(value: T, index: int)
    | Set(index: int, value: T)
    | Clear
    | RemoveByIndex(index: int)
    | Remove(value: T)
    | RemoveByRange(startIndex: int, endIndex: int)
    | IncreaseCapacityTo(capacity: I32)
    | TrimToCurrentLength

  type Equality<!T> = (T, T) -> bool

  /** The first place of an element that equals `value`, or the length. */
  function FirstEqual<T>(eq: Equality<T>, value: T, s: seq<T>): (r: nat)
    ensures r <= |s| && (r < |s| ==> eq(value, s[r]))
    ensures forall k :: 0 <= k < r ==> !eq(value, s[k])
  {
    if |s| == 0 || eq(value, s[0]) then 0 else 1 + FirstEqual(eq, value, s[1..])
  }

  /** When an operation answers with a range error. */
  predicate Refused<T>(op: Op<T>, s: seq<T>) {
    match op
    case Insert(_, index) => index < 0 || index >= |s|
    case Set(index, _) => index < 0 || index >= |s|
    case RemoveByIndex(index) => index < 0 || index >= |s|
    case RemoveByRange(startIndex, endIndex) => endIndex <= startIndex || startIndex < 0 || startIndex >= |s|
    case _ => false
  }

  /** Where the part that stays begins: the end index, save that at the length it is the last element. */
  function ToIndex(n: nat, endIndex: int): int {
    if endIndex > n then n else if endIndex == n then n - 1 else endIndex
  }

  function Cut<T>(s: seq<T>, from: nat, to: nat): seq<T>
    requires from <= to <= |s|
  {
    s[..from] + s[to..]
  }

  /** The sequence after an operation. */
  function Effect<T>(eq: Equality<T>, op: Op<T>, s: seq<T>): seq<T> {
    if Refused(op, s) then s
    else
      match op
      case Add(value) => s + [value]
      case Insert(value, index) => s[..index] + [value] + s[index..]
      case Set(index, value) => s[index := value]
      case Clear => []
      case RemoveByIndex(index) => Cut(s, index, index + 1)
      case Remove(value) => var i := FirstEqual(eq, value, s); if i == |s| then s else Cut(s, i, i + 1)
      case RemoveByRange(startIndex, endIndex) => Cut(s, startIndex, ToIndex(|s|, endIndex))
      case IncreaseCapacityTo(_) => s
      case TrimToCurrentLength => s
  }

  lemma RemoveEffect<T>(eq: Equality<T>, value: T, s: seq<T>)
    ensures var i := FirstEqual(eq, value, s);
      Effect(eq, Remove(value), s) == if i == |s| then s else Cut(s, i, i + 1)
  {
    hide FirstEqual, Cut;
  }

  /** Removing a value takes out the first element that equals it, if there is one. */
  lemma RemovesFirst<T>(eq: Equality<T>, value: T, s: seq<T>)
    ensures var i, t := FirstEqual(eq, value, s), Effect(eq, Remove(value), s);
      if i == |s| then t == s && forall k :: 0 <= k < |s| ==> !eq(value, s[k])
      else t == s[..i] + s[i + 1..] && eq(value, s[i]) && forall k :: 0 <= k < i ==> !eq(value, s[k])
  {
  }

  function Effects<T>(eq: Equality<T>, ops: seq<Op<T>>, s: seq<T>): seq<T> {
    if |ops| == 0 then s else Effects(eq, ops[1..], Effect(eq, ops[0], s))
  }

  /** What an operation makes of each place of the sequence. */
  lemma EffectAt<T>(eq: Equality<T>, op: Op<T>, s: seq<T>, k: nat)
    requires k < |Effect(eq, op, s)|
    ensures var t := Effect(eq, op, s);
      match op
      case Add(value) => |t| == |s| + 1 && t[k] == if k == |s| then value else s[k]
      case Insert(value, index) =>
        if index < 0 || index >= |s| then t == s
        else |t| == |s| + 1 && t[k] == if k < index then s[k] else if k == index then value else s[k - 1]
      case Set(index, value) => |t| == |s| && t[k] == if k == index then value else s[k]
      case Clear => false
      case RemoveByIndex(index) =>
        if index < 0 || index >= |s| then t == s else |t| == |s| - 1 && t[k] == if k < index then s[k] else s[k + 1]
      case Remove(value) =>
        if |t| == |s| then t == s
        else |t| == |s| - 1 && t[k] == if exists j :: 0 <= j <= k && eq(value, s[j]) then s[k + 1] else s[k]
      case RemoveByRange(start, end) =>
        if end <= start || start < 0 || start >= |s| then t == s
        else
          && |t| == |s| - (if end > |s| then |s| - start else if end == |s| then |s| - 1 - start else end - start)
          && t[k] == if k < start then s[k] else s[k + (|s| - |t|)]
      case IncreaseCapacityTo(_) => t == s
      case TrimToCurrentLength => t == s
  {
    hide FirstEqual, Cut;
    match op
    case RemoveByIndex(index) =>
      if 0 <= index < |s| {
        CutAt(s, index, index + 1, k);
      }
    case Remove(value) =>
      var i := FirstEqual(eq, value, s);
      if i < |s| {
        CutAt(s, i, i + 1, k);
      }
    case RemoveByRange(start, end) =>
      if !Refused(op, s) {
        CutAt(s, start, ToIndex(|s|, end), k);
      }
    case _ =>
  }

  lemma CutAt<T>(s: seq<T>, from: nat, to: nat, k: nat)
    requires from <= to <= |s|
    ensures |Cut(s, from, to)| == |s| - (to - from)
    ensures k < |Cut(s, from, to)| ==> Cut(s, from, to)[k] == if k < from then s[k] else s[k + (to - from)]
  {
  }

  /** Removing what was inserted gives the list back. */
  lemma InsertThenRemove<T>(eq: Equality<T>, value: T, index: nat, s: seq<T>)
    requires index < |s|
    ensures Effect(eq, RemoveByIndex(index), Effect(eq, Insert(value, index), s)) == s
  {
    var t := Effect(eq, Insert(value, index), s);
    assert t[..index] == s[..index] && t[index + 1..] == s[index..];
  }

  lemma AddThenRemove<T>(eq: Equality<T>, value: T, s: seq<T>)
    ensures Effect(eq, RemoveByIndex(|s|), Effect(eq, Add(value), s)) == s
  {
    assert (s + [value])[..|s|] == s && (s + [value])[|s| + 1..] == [];
  }

  /** Removing a range removes everything before the end index exactly if the end index is not the length; there the last
      element stays. */
  lemma RangeEndIsExclusiveIff<T>(eq: Equality<T>, startIndex: int, endIndex: int, s: seq<T>)
    requires !Refused(RemoveByRange(startIndex, endIndex), s)
    ensures var end := if endIndex < |s| then endIndex else |s|;
      Effect(eq, RemoveByRange(startIndex, endIndex), s) == s[..startIndex] + s[end..] <==> endIndex != |s|
    ensures endIndex == |s| ==> Effect(eq, RemoveByRange(startIndex, endIndex), s) == s[..startIndex] + [s[|s| - 1]]
  {
    if endIndex == |s| {
      assert s[|s| - 1..] == [s[|s| - 1]];
      assert |s[..startIndex] + s[|s|..]| == startIndex;
    }
  }

  function Repeat<X>(x: X, n: nat): seq<X> {
    seq(n, _ => x)
  }

  /** Removing a range is removing by index as often, always at the start of the range. */
  lemma RangeIsRepeatedRemoval<T>(eq: Equality<T>, startIndex: int, endIndex: int, s: seq<T>)
    requires !Refused(RemoveByRange(startIndex, endIndex), s)
    ensures Effect(eq, RemoveByRange(startIndex, endIndex), s) ==
      Effects(eq, Repeat(RemoveByIndex(startIndex), ToIndex(|s|, endIndex) - startIndex), s)
  {
    hide Effects, FirstEqual, Cut;
    RemovalsCut(eq, startIndex, ToIndex(|s|, endIndex), s);
  }

  lemma {:induction false} RemovalsCut<T>(eq: Equality<T>, start: nat, end: nat, s: seq<T>)
    requires start <= end <= |s|
    ensures Cut(s, start, end) == Effects(eq, Repeat(RemoveByIndex(start), end - start), s)
    decreases end
  {
    hide FirstEqual;
    var ops: seq<Op<T>> := Repeat(RemoveByIndex(start), end - start);
    if start == end {
      assert ops == [];
      assert Cut(s, start, end) == s;
    } else {
      CutAgain(s, start, end);
      assert ops[1..] == Repeat(RemoveByIndex(start), end - 1 - start);
      assert Effect(eq, ops[0], s) == Cut(s, start, start + 1);
      RemovalsCut(eq, start, end - 1, Cut(s, start, start + 1));
    }
  }

  lemma CutAgain<T>(s: seq<T>, start: nat, end: nat)
    requires start < end <= |s|
    ensures Cut(Cut(s, start, start + 1), start, end - 1) == Cut(s, start, end)
  {
    var t := s[..start] + s[start + 1..];
    assert t[..start] == s[..start] && t[end - 1..] == s[end..];
  }

  function SubList<T>(s: seq<T>, from: int, to: int): seq<T>
    requires 0 <= from < to && from < |s|
  {
    s[from..if to >= |s| - 1 then |s| - 1 else to]
  }

  /** A sub-list has all elements of its range exactly if the range ends before the length. */
  lemma SubListIsWholeIff<T>(s: seq<T>, from: int, to: int)
    requires 0 <= from < to && from < |s|
    ensures SubList(s, from, to) == s[from..if to < |s| then to else |s|] <==> to < |s|
    ensures to >= |s| ==> SubList(s, from, to) + [s[|s| - 1]] == s[from..]
  {
    if to >= |s| {
      assert |SubList(s, from, to)| < |s[from..|s|]|;
      assert s[from..|s| - 1] + [s[|s| - 1]] == s[from..];
    }
  }

  // What growing costs.

  const DEFAULT_CAPACITY_LENGTH: nat := 10

  function ComputeCapacity(oldCapacity: nat): (r: nat)
    ensures r >= 10 && (oldCapacity >= 2 ==> r > oldCapacity)
    ensures 3 * oldCapacity <= 2 * r + 1
    ensures r > 10 ==> 2 * r <= 3 * oldCapacity
  {
    var newCapacity := oldCapacity + oldCapacity / 2;
    if newCapacity > DEFAULT_CAPACITY_LENGTH then newCapacity else DEFAULT_CAPACITY_LENGTH
  }

  /** The capacity that a list of this length and capacity has for one more element: one slot is always left over. */
  function CapacityForOneMore(length: nat, capacity: nat): (r: nat)
    requires length <= capacity
    ensures length + 1 < r && r >= capacity
  {
    if length + 1 < capacity then capacity else ComputeCapacity(length + 1)
  }

  /** Half as much again, and at least ten, unless a slot is left over as it is. */
  lemma CapacityIs(length: nat, capacity: nat)
    requires length <= capacity
    ensures var grown := (length + 1) * 3 / 2;
      CapacityForOneMore(length, capacity) == if length + 1 < capacity then capacity else if grown > 10 then grown else 10
  {
  }

  /** The capacity after an operation on a list of this capacity. */
  function CapacityAfter<T>(op: Op<T>, s: seq<T>, capacity: nat): nat
    requires |s| <= capacity
  {
    match op
    case Add(_) => CapacityForOneMore(|s|, capacity)
    case Insert(_, _) => if Refused(op, s) then capacity else CapacityForOneMore(|s|, capacity)
    case IncreaseCapacityTo(wanted) => if |s| < wanted then wanted else capacity
    case TrimToCurrentLength => |s|
    case _ => capacity
  }

  lemma FitsAfter<T>(eq: Equality<T>, op: Op<T>, s: seq<T>, capacity: nat)
    requires |s| <= capacity
    ensures |Effect(eq, op, s)| <= CapacityAfter(op, s, capacity) && |Effect(eq, op, s)| <= |s| + 1
  {
    hide FirstEqual;
  }

  /** Whether an operation reads or writes past the end of the array: inserting at the start, removing a range from a list
      that fills its array, and asking a long array for a smaller capacity that still exceeds the length. */
  predicate Leaves<T>(op: Op<T>, s: seq<T>, capacity: nat) {
    match op
    case Insert(_, index) => index == 0 && |s| > 0
    case RemoveByRange(_, _) => !Refused(op, s) && |s| == capacity
    case IncreaseCapacityTo(wanted) => |s| < wanted < capacity
    case _ => false
  }

  /** The slots that growing will have to copy and that earlier additions have paid for. */
  function Potential(length: nat, capacity: nat): nat {
    if 3 * length > 2 * capacity then 3 * length - 2 * capacity else 0
  }

  lemma PotentialAtMost(length: nat, capacity: nat)
    requires length <= capacity
    ensures Potential(length, capacity) <= length
  {
  }

  lemma PotentialFalls(length: nat, capacity: nat)
    ensures Potential(length, capacity) <= Potential(length + 1, capacity)
  {
  }

  /** One more element costs at most four slots: what is copied now, and what is put aside for growing later. */
  lemma GrowthIsPaidFor(length: nat, capacity: nat)
    requires length <= capacity <= length + 1
    ensures capacity + Potential(length + 1, ComputeCapacity(length + 1)) <= Potential(length, capacity) + 4
    ensures length + 1 < ComputeCapacity(length + 1) && capacity < ComputeCapacity(length + 1)
  {
  }

  // What an iterator sees.

  /** A change of the list, or a step of the iterator. */
  datatype Event<T> = Mutate(op: Op<T>) | Next

  datatype Result<T> = Value(value: T) | Done

  /** The iterator: at an index, or finished. */
  datatype Position = At(index: nat) | Finished

  function ResultAt<T>(s: seq<T>, position: Position): Result<T> {
    if position.At? && position.index < |s| then Value(s[position.index]) else Done
  }

  function Advance<T>(s: seq<T>, position: Position): Position {
    if position.At? && position.index < |s| then At(position.index + 1) else Finished
  }

  /** The answers of an iterator while the list changes under it. */
  function Seen<T>(eq: Equality<T>, events: seq<Event<T>>, s: seq<T>, position: Position): seq<Result<T>> {
    if |events| == 0 then []
    else
      match events[0]
      case Mutate(op) => Seen(eq, events[1..], Effect(eq, op, s), position)
      case Next => [ResultAt(s, position)] + Seen(eq, events[1..], s, Advance(s, position))
  }

  function Mutations<T>(events: seq<Event<T>>): seq<Op<T>> {
    if |events| == 0 then []
    else (if events[0].Mutate? then [events[0].op] else []) + Mutations(events[1..])
  }

  /** Whether one of the changes, on the list as it then is, goes past the end of the array. */
  predicate LeavesSometime<T>(eq: Equality<T>, events: seq<Event<T>>, s: seq<T>, capacity: nat)
    requires |s| <= capacity
    decreases |events|
  {
    if |events| == 0 then false
    else
      match events[0]
      case Mutate(op) =>
        FitsAfter(eq, op, s, capacity);
        Leaves(op, s, capacity) || LeavesSometime(eq, events[1..], Effect(eq, op, s), CapacityAfter(op, s, capacity))
      case Next => LeavesSometime(eq, events[1..], s, capacity)
  }

  function Additions<T>(events: seq<Event<T>>): nat {
    if |events| == 0 then 0
    else (if events[0].Mutate? && (events[0].op.Add? || events[0].op.Insert?) then 1 else 0) + Additions(events[1..])
  }

  /** They are as many as there are places of additions. */
  lemma {:induction false} AdditionsAreCounted<T>(events: seq<Event<T>>)
    ensures Additions(events) ==
      |set i | 0 <= i < |events| && events[i].Mutate? && (events[i].op.Add? || events[i].op.Insert?)|
  {
    if |events| > 0 {
      var n := |events| - 1;
      AdditionsAreCounted(events[..n]);
      AdditionsUpTo(events, n);
      assert events[..n + 1] == events;
      var before := set i | 0 <= i < n && events[..n][i].Mutate? && (events[..n][i].op.Add? || events[..n][i].op.Insert?);
      var after := set i | 0 <= i < |events| && events[i].Mutate? && (events[i].op.Add? || events[i].op.Insert?);
      assert after == if events[n].Mutate? && (events[n].op.Add? || events[n].op.Insert?) then before + {n} else before;
    }
  }

  predicate AboutCapacity<T>(event: Event<T>) {
    event.Mutate? && (event.op.IncreaseCapacityTo? || event.op.TrimToCurrentLength?)
  }

  lemma {:induction false} AdditionsUpTo<T>(events: seq<Event<T>>, n: nat)
    requires n < |events|
    ensures Additions(events[..n + 1]) == Additions(events[..n]) + Additions([events[n]])
  {
    if n > 0 {
      AdditionsUpTo(events[1..], n - 1);
      assert events[..n][1..] == events[1..][..n - 1] && events[..n + 1][1..] == events[1..][..n];
    } else {
      assert events[..1] == [events[0]] && events[..0] == [];
    }
  }

  /** One event at a time. */
  lemma FromEvent<T>(eq: Equality<T>, events: seq<Event<T>>, i: nat, s: seq<T>, capacity: nat, position: Position)
    requires i < |events| && |s| <= capacity
    ensures match events[i]
      case Mutate(op) =>
        && Effects(eq, Mutations(events[i..]), s) == Effects(eq, Mutations(events[i + 1..]), Effect(eq, op, s))
        && Seen(eq, events[i..], s, position) == Seen(eq, events[i + 1..], Effect(eq, op, s), position)
        && |Effect(eq, op, s)| <= CapacityAfter(op, s, capacity)
        && (LeavesSometime(eq, events[i..], s, capacity) <==>
            Leaves(op, s, capacity) || LeavesSometime(eq, events[i + 1..], Effect(eq, op, s), CapacityAfter(op, s, capacity)))
      case Next =>
        && Effects(eq, Mutations(events[i..]), s) == Effects(eq, Mutations(events[i + 1..]), s)
        && Seen(eq, events[i..], s, position) == [ResultAt(s, position)] + Seen(eq, events[i + 1..], s, Advance(s, position))
        && LeavesSometime(eq, events[i..], s, capacity) == LeavesSometime(eq, events[i + 1..], s, capacity)
  {
    hide Effect, CapacityAfter, Leaves;
    if events[i].Mutate? {
      FitsAfter(eq, events[i].op, s, capacity);
    }
    assert events[i..][0] == events[i] && events[i..][1..] == events[i + 1..];
    var rest := Mutations(events[i + 1..]);
    match events[i]
    case Mutate(op) =>
      assert ([op] + rest)[1..] == rest;
    case Next =>
      assert [] + rest == rest;
  }

  /** How far a run has come: `i` events are done, and the rest makes of what there is now what all of them make of what
      there was at the start. */
  ghost predicate OnCourse<T>(eq: Equality<T>, events: seq<Event<T>>, i: nat, s0: seq<T>, capacity0: nat, position0: Position,
                              s: seq<T>, capacity: nat, position: Position, results: seq<Result<T>>, outside: bool) {
    && i <= |events| && |s0| <= capacity0 && |s| <= capacity
    && Effects(eq, Mutations(events[i..]), s) == Effects(eq, Mutations(events), s0)
    && results + Seen(eq, events[i..], s, position) == Seen(eq, events, s0, position0)
    && (outside || LeavesSometime(eq, events[i..], s, capacity) <==> LeavesSometime(eq, events, s0, capacity0))
  }

  lemma AtStart<T>(eq: Equality<T>, events: seq<Event<T>>, s: seq<T>, capacity: nat, position: Position)
    requires |s| <= capacity
    ensures OnCourse(eq, events, 0, s, capacity, position, s, capacity, position, [], false)
  {
    hide Seen, Effects, Mutations, LeavesSometime;
    assert events[0..] == events;
    assert [] + Seen(eq, events, s, position) == Seen(eq, events, s, position);
  }

  lemma AfterEvent<T>(eq: Equality<T>, events: seq<Event<T>>, i: nat, s0: seq<T>, capacity0: nat, position0: Position,
                      s: seq<T>, capacity: nat, position: Position, results: seq<Result<T>>, outside: bool)
    requires OnCourse(eq, events, i, s0, capacity0, position0, s, capacity, position, results, outside) && i < |events|
    ensures match events[i]
      case Mutate(op) =>
        OnCourse(eq, events, i + 1, s0, capacity0, position0, Effect(eq, op, s), CapacityAfter(op, s, capacity), position,
                 results, outside || Leaves(op, s, capacity))
      case Next =>
        OnCourse(eq, events, i + 1, s0, capacity0, position0, s, capacity, Advance(s, position),
                 results + [ResultAt(s, position)], outside)
  {
    hide Effect, Seen, Effects, Mutations, LeavesSometime, CapacityAfter, Leaves, ResultAt, Advance;
    FromEvent(eq, events, i, s, capacity, position);
    var rest := Seen(eq, events[i + 1..], s, Advance(s, position));
    assert results + [ResultAt(s, position)] + rest == results + ([ResultAt(s, position)] + rest);
  }

  lemma AtEnd<T>(eq: Equality<T>, events: seq<Event<T>>, s0: seq<T>, capacity0: nat, position0: Position,
                 s: seq<T>, capacity: nat, position: Position, results: seq<Result<T>>, outside: bool)
    requires OnCourse(eq, events, |events|, s0, capacity0, position0, s, capacity, position, results, outside)
    ensures s == Effects(eq, Mutations(events), s0) && results == Seen(eq, events, s0, position0)
    ensures outside <==> LeavesSometime(eq, events, s0, capacity0)
  {
    assert events[|events|..] == [];
  }

  /** Once an iterator answered that it is done it never gives a value again, even if the list grows. */
  lemma {:induction false} DoneStaysDone<T>(eq: Equality<T>, events: seq<Event<T>>, s: seq<T>, position: Position, i: nat, j: nat)
    requires i < j < |Seen(eq, events, s, position)|
    requires Seen(eq, events, s, position)[i].Done?
    ensures Seen(eq, events, s, position)[j].Done?
  {
    match events[0]
    case Mutate(op) =>
      DoneStaysDone(eq, events[1..], Effect(eq, op, s), position, i, j);
    case Next =>
      if i == 0 {
        FinishedSeesNothing(eq, events[1..], s, j - 1);
      } else {
        DoneStaysDone(eq, events[1..], s, Advance(s, position), i - 1, j - 1);
      }
  }

  lemma {:induction false} FinishedSeesNothing<T>(eq: Equality<T>, events: seq<Event<T>>, s: seq<T>, j: nat)
    requires j < |Seen(eq, events, s, Finished)|
    ensures Seen(eq, events, s, Finished)[j].Done?
  {
    match events[0]
    case Mutate(op) =>
      FinishedSeesNothing(eq, events[1..], Effect(eq, op, s), j);
    case Next =>
      if j > 0 {
        FinishedSeesNothing(eq, events[1..], s, j - 1);
      }
  }

  /** A list that is left alone is seen once through, in order. */
  lemma {:induction false} SeesWholeList<T>(eq: Equality<T>, s: seq<T>, from: nat)
    requires from <= |s|
    ensures Seen(eq, Repeat(Next, |s| - from + 1), s, At(from)) ==
        seq(|s| - from, k requires 0 <= k < |s| - from => Value(s[from + k])) + [Done]
    decreases |s| - from
  {
    var events: seq<Event<T>> := Repeat(Next, |s| - from + 1);
    if from < |s| {
      assert events[1..] == Repeat(Next, |s| - (from + 1) + 1);
      SeesWholeList(eq, s, from + 1);
    } else {
      assert events[1..] == [];
    }
  }
}
