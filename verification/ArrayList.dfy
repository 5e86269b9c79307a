/** A list over a growable array, changed in place, and its iterator. */
module ArrayLists {
  import opened ArrayListSpec
  import opened Words

  /** Lengths are 32-bit signed. */
  const MAX_LENGTH: nat := 0x7fff_ffff

  datatype Outcome = Success | RangeError

  /** A longer array is filled up with holes; all slots of the old array are copied, even past the end of the new one. */
  method ExtendArray<T>(source: array<T>, length: nat, hole: T)
    returns (newArray: array<T>, outside: bool, ghost slots: nat)
    ensures fresh(newArray) && newArray.Length == length
    ensures forall i :: 0 <= i < length ==> newArray[i] == if i < source.Length then source[i] else hole
    ensures outside <==> source.Length > length
    ensures slots == source.Length
  {
    newArray := new T[length](_ => hole);
    outside, slots := false, 0;
    for i := 0 to source.Length
      invariant forall k {:trigger newArray[k]} :: 0 <= k < length ==> newArray[k] == if k < i then source[k] else hole
      invariant outside <==> i > length
      invariant slots == i
    {
      if i < length {
        newArray[i] := source[i];
      } else {
        outside := true;
      }
      slots := slots + 1;
    }
  }

  method CopyArray<T>(source: array<T>, oldLength: nat, newLength: nat, hole: T)
    returns (newArray: array<T>, outside: bool, ghost slots: nat)
    requires newLength <= oldLength ==> newLength <= source.Length
    ensures fresh(newArray) && newArray.Length == newLength
    ensures forall i :: 0 <= i < newLength ==> newArray[i] == if i < source.Length then source[i] else hole
    ensures outside <==> oldLength < newLength < source.Length
    ensures slots == if newLength > oldLength then source.Length else newLength
  {
    if newLength == 0 {
      newArray := new T[0];
      return newArray, false, 0;
    }
    if newLength > oldLength {
      newArray, outside, slots := ExtendArray(source, newLength, hole);
      return;
    }
    newArray := new T[newLength](_ => hole);
    outside, slots := false, 0;
    for i := 0 to newLength
      invariant forall k {:trigger newArray[k]} :: 0 <= k < i ==> newArray[k] == source[k]
      invariant slots == i
    {
      newArray[i] := source[i];
      slots := slots + 1;
    }
  }

  lemma IsCut<T>(t: seq<T>, s: seq<T>, from: nat, to: nat)
    requires from <= to <= |s| && |t| == |s| - (to - from)
    requires forall k {:trigger t[k]} :: 0 <= k < from ==> t[k] == s[k]
    requires forall k {:trigger t[k]} :: from <= k < |t| ==> t[k] == s[k + (to - from)]
    ensures t == Cut(s, from, to)
  {
    var u := s[..from] + s[to..];
    forall k | 0 <= k < |t|
      ensures t[k] == u[k]
    {
      if k >= from {
        assert u[k] == s[to..][k - from] == s[k + (to - from)];
      }
    }
  }

  /** The parts of a list are the parts of its array. */
  lemma Parts<T>(elements: array<T>, length: nat, from: nat, to: nat)
    requires from <= to <= length <= elements.Length
    ensures elements[..length][..from] == elements[..from] && elements[..length][to..] == elements[to..length]
  {
  }

  lemma Assembled<T>(elements: array<T>, index: nat, length: nat)
    requires index < length <= elements.Length
    ensures elements[..length] == elements[..index] + [elements[index]] + elements[index + 1..length]
  {
  }

  /** Shifts the elements behind `index` down by one. */
  method ShiftDown<T>(elements: array<T>, index: nat, length: nat)
    requires index < length <= elements.Length
    modifies elements
    ensures elements[..length - 1] == Cut(old(elements[..length]), index, index + 1)
  {
    ghost var s := elements[..length];
    var i := index;
    while i <= length - 2
      invariant index <= i <= length - 1
      invariant forall k {:trigger elements[k]} :: 0 <= k < index ==> elements[k] == s[k]
      invariant forall k {:trigger elements[k]} :: index <= k < i ==> elements[k] == s[k + 1]
      invariant forall k {:trigger elements[k]} :: i <= k < length ==> elements[k] == s[k]
    {
      elements[i] := elements[i + 1];
      i := i + 1;
    }
    IsCut(elements[..length - 1], s, index, index + 1);
  }

  /** Shifts the elements from `index` on up by one. With index 0 the last step asks for the slot before the first, which as
      an unsigned number is 4294967295, past the end of any array. */
  method ShiftUp<T>(elements: array<T>, index: nat, length: nat, stray: T) returns (outside: bool)
    requires index < length < elements.Length < 0x1_0000_0000
    modifies elements
    ensures elements[..index] == old(elements[..index])
    ensures elements[index + 1..length + 1] == old(elements[index..length])
    ensures outside <==> index == 0
  {
    ghost var s := elements[..length];
    outside := false;
    var i: int := length;
    while i >= index
      invariant index - 1 <= i <= length
      invariant outside <==> i < 0
      invariant forall k {:trigger elements[k]} :: 0 <= k < length && (k < index || k <= i) ==> elements[k] == s[k]
      invariant forall k {:trigger elements[k]} :: i < k <= length && index < k ==> elements[k] == s[k - 1]
    {
      var previous := (i - 1) % 0x1_0000_0000;
      if previous < elements.Length {
        elements[i] := elements[previous];
      } else {
        elements[i] := stray;
        outside := true;
      }
      i := i - 1;
    }
  }

  /** Shifts the elements from `toIndex` on down to `startIndex`, and one slot more. */
  method CloseGap<T>(elements: array<T>, startIndex: nat, toIndex: nat, length: nat, stray: T) returns (outside: bool)
    requires startIndex <= toIndex <= length <= elements.Length
    modifies elements
    ensures elements[..length - (toIndex - startIndex)] == Cut(old(elements[..length]), startIndex, toIndex)
    ensures outside <==> length == elements.Length
  {
    ghost var s := elements[..length];
    outside := false;
    var numMoved := length - toIndex;
    var i := 0;
    while i <= numMoved
      invariant 0 <= i <= numMoved + 1
      invariant outside <==> i > numMoved && length == elements.Length
      invariant forall k {:trigger elements[k]} :: 0 <= k < length && (k < startIndex || toIndex + i <= k) ==> elements[k] == s[k]
      invariant forall k {:trigger elements[k]} :: startIndex <= k < startIndex + i && k < startIndex + numMoved ==>
        elements[k] == s[k + (toIndex - startIndex)]
    {
      var value := if toIndex + i < elements.Length then elements[toIndex + i] else stray;
      outside := outside || toIndex + i >= elements.Length;
      if startIndex + i < elements.Length {
        elements[startIndex + i] := value;
      }
      i := i + 1;
    }
    IsCut(elements[..length - (toIndex - startIndex)], s, startIndex, toIndex);
  }

  class ArrayList<T> {
    const hole: T
    const strictEqual: Equality<T>
    var elements: array<T>
    var length: nat
    /** How many slots were copied from array to array so far. */
    ghost var copied: nat

    ghost predicate Valid()
      reads this
    {
      length <= elements.Length < 0x1_0000_0000 && length <= MAX_LENGTH
    }

    ghost function Contents(): (s: seq<T>)
      reads this, elements
      requires Valid()
      ensures |s| == length
    {
      elements[..length]
    }

    ghost function Cost(): nat
      reads this
    {
      copied + Potential(length, elements.Length)
    }

    constructor (capacity: U32, hole: T, strictEqual: Equality<T>)
      ensures Valid() && Contents() == [] && elements.Length == capacity && fresh(elements) && copied == 0
      ensures this.hole == hole && this.strictEqual == strictEqual
    {
      this.hole, this.strictEqual := hole, strictEqual;
      elements := new T[capacity](_ => hole);
      length, copied := 0, 0;
    }

    /** Makes room when no slot would be left over; returns the array that is now in use. */
    method GrowCapacity(capacity: nat) returns (newElements: array<T>)
      requires Valid() && length < MAX_LENGTH && capacity == length + 1
      modifies this
      ensures Valid() && newElements == elements && length == old(length)
      ensures elements == old(elements) || fresh(elements)
      ensures elements[..length] == old(elements[..length])
      ensures elements.Length == CapacityForOneMore(length, old(elements.Length))
      ensures copied + Potential(length + 1, elements.Length) <= old(Cost()) + 4
    {
      var oldCapacity := elements.Length;
      if capacity < oldCapacity {
        return elements;
      }
      var newCapacity := ComputeCapacity(capacity);
      GrowthIsPaidFor(length, oldCapacity);
      ghost var slots;
      ghost var outside;
      newElements, outside, slots := CopyArray(elements, oldCapacity, newCapacity, hole);
      elements := newElements;
      copied := copied + slots;
    }

    /** Appends; a slot is always left over. */
    method Add(value: T)
      requires Valid() && length < MAX_LENGTH
      modifies this, elements
      ensures Valid() && (elements == old(elements) || fresh(elements))
      ensures Contents() == Effect(strictEqual, Op.Add(value), old(Contents()))
      ensures Contents() == old(Contents()) + [value]
      ensures length < elements.Length == CapacityForOneMore(old(length), old(elements.Length))
      ensures Cost() <= old(Cost()) + 4
    {
      var newElements := GrowCapacity(length + 1);
      newElements[length] := value;
      length := length + 1;
    }

    /** Inserts before an element. With index 0, shifting asks for the slot before the first, which as an unsigned number is
        4294967295, past the end of any array; whatever value that read gives, it is overwritten. */
    method Insert(value: T, index: int, stray: T) returns (outcome: Outcome, outside: bool)
      requires Valid() && length < MAX_LENGTH
      modifies this, elements
      ensures Valid() && (elements == old(elements) || fresh(elements))
      ensures outcome.RangeError? <==> Refused(Op.Insert(value, index), old(Contents()))
      ensures outcome.Success? <==> 0 <= index < old(length)
      ensures Contents() == Effect(strictEqual, Op.Insert(value, index), old(Contents()))
      ensures outcome.Success? ==>
        && Contents()[..index] == old(Contents())[..index] && Contents()[index] == value
        && Contents()[index + 1..] == old(Contents())[index..]
      ensures outcome.RangeError? ==> Contents() == old(Contents())
      ensures elements.Length ==
        if outcome.Success? then CapacityForOneMore(old(length), old(elements.Length)) else old(elements.Length)
      ensures outside <==> Leaves(Op.Insert(value, index), old(Contents()), old(elements.Length))
      ensures outside <==> outcome.Success? && index == 0
      ensures Cost() <= old(Cost()) + 4
    {
      outside := false;
      if index < 0 || index >= length {
        return RangeError, false;
      }
      var newElements := GrowCapacity(length + 1);
      Parts(newElements, length, index, index);
      outside := ShiftUp(newElements, index, length, stray);
      newElements[index] := value;
      length := length + 1;
      Assembled(newElements, index, length);
      return Success, outside;
    }

    method Clear()
      requires Valid()
      modifies `length
      ensures Valid() && Contents() == Effect(strictEqual, Op.Clear, old(Contents())) && Contents() == []
      ensures Cost() <= old(Cost())
    {
      length := 0;
    }

    /** A new list of the same capacity with the same elements. */
    method Clone() returns (newArrayList: ArrayList<T>)
      requires Valid()
      ensures fresh(newArrayList) && fresh(newArrayList.elements) && newArrayList.Valid()
      ensures newArrayList.Contents() == Contents() && newArrayList.elements.Length == elements.Length
    {
      newArrayList := new ArrayList(elements.Length, hole, strictEqual);
      newArrayList.length := length;
      for i := 0 to length
        invariant newArrayList.Valid() && fresh(newArrayList) && fresh(newArrayList.elements)
        invariant newArrayList.length == length && newArrayList.elements.Length == elements.Length
        invariant forall k {:trigger newArrayList.elements[k]} :: 0 <= k < i ==> newArrayList.elements[k] == elements[k]
      {
        var outcome := newArrayList.Set(i, elements[i]);
      }
    }

    /** Makes the array longer, or, when it is longer already than is asked for and the length is less, cuts it. Cutting
        writes past the end of the new array, by copying all slots of the old one. */
    method IncreaseCapacityTo(capacity: I32) returns (outside: bool)
      requires Valid()
      modifies this
      ensures Valid() && Contents() == old(Contents()) && (elements == old(elements) || fresh(elements))
      ensures elements.Length == if length < capacity then capacity else old(elements.Length)
      ensures outside <==> length < capacity < old(elements.Length)
      ensures copied == old(copied) + if length < capacity then old(elements.Length) else 0
    {
      outside := false;
      if length < capacity {
        ghost var slots;
        ghost var s := Contents();
        var newElements;
        newElements, outside, slots := CopyArray(elements, length, capacity, hole);
        elements := newElements;
        copied := copied + slots;
        assert elements[..length] == s;
      }
    }

    method TrimToCurrentLength()
      requires Valid()
      modifies this
      ensures Valid() && Contents() == old(Contents()) && fresh(elements)
      ensures elements.Length == length && copied == old(copied) + length
    {
      ghost var slots;
      ghost var outside;
      ghost var s := Contents();
      var newElements;
      newElements, outside, slots := CopyArray(elements, length, length, hole);
      elements := newElements;
      copied := copied + slots;
      assert elements[..length] == s;
    }

    method Get(index: nat) returns (outcome: Outcome, value: T)
      requires Valid()
      ensures outcome.Success? <==> index < |Contents()|
      ensures value == if index < |Contents()| then Contents()[index] else hole
    {
      if index >= length {
        return RangeError, hole;
      }
      return Success, elements[index];
    }

    method Set(index: nat, value: T) returns (outcome: Outcome)
      requires Valid()
      modifies elements
      ensures Valid()
      ensures forall k {:trigger elements[k]} :: 0 <= k < elements.Length ==>
        elements[k] == if outcome.Success? && k == index then value else old(elements[k])
      ensures outcome.RangeError? <==> Refused(Op.Set(index, value), old(Contents()))
      ensures outcome.Success? <==> index < old(length)
      ensures |Contents()| == |old(Contents())|
      ensures forall k {:trigger Contents()[k]} :: 0 <= k < |Contents()| ==>
        Contents()[k] == if k == index then value else old(Contents())[k]
      ensures Contents() == Effect(strictEqual, Op.Set(index, value), old(Contents()))
    {
      if index >= length {
        return RangeError;
      }
      elements[index] := value;
      return Success;
    }

    method GetIndexOf(value: T) returns (index: int)
      requires Valid()
      ensures index == if FirstEqual(strictEqual, value, Contents()) == length then -1
                       else FirstEqual(strictEqual, value, Contents())
    {
      for i := 0 to length
        invariant forall k :: 0 <= k < i ==> !strictEqual(value, Contents()[k])
      {
        var element := elements[i];
        if strictEqual(value, element) {
          return i;
        }
      }
      return -1;
    }

    method GetLastIndexOf(value: T) returns (index: int)
      requires Valid()
      ensures -1 <= index < length && (index >= 0 ==> strictEqual(value, Contents()[index]))
      ensures forall k :: index < k < length ==> !strictEqual(value, Contents()[k])
    {
      index := length - 1;
      while index >= 0
        invariant -1 <= index < length
        invariant forall k :: index < k < length ==> !strictEqual(value, Contents()[k])
      {
        if strictEqual(value, elements[index]) {
          return;
        }
        index := index - 1;
      }
    }

    method RemoveByIndex(index: int) returns (outcome: Outcome)
      requires Valid()
      modifies `length, elements
      ensures Valid()
      ensures outcome.RangeError? <==> Refused(Op.RemoveByIndex(index), old(Contents()))
      ensures outcome.Success? <==> 0 <= index < old(length)
      ensures Contents() == Effect(strictEqual, Op.RemoveByIndex(index), old(Contents()))
      ensures Contents() == if outcome.Success? then old(Contents())[..index] + old(Contents())[index + 1..] else old(Contents())
      ensures Cost() <= old(Cost())
    {
      if index < 0 || index >= length {
        return RangeError;
      }
      ShiftDown(elements, index, length);
      length := length - 1;
      return Success;
    }

    method Remove(value: T) returns (removed: bool)
      requires Valid()
      modifies `length, elements
      ensures Valid()
      ensures removed <==> FirstEqual(strictEqual, value, old(Contents())) < old(length)
      ensures Contents() == Effect(strictEqual, Op.Remove(value), old(Contents()))
      ensures !removed ==> Contents() == old(Contents()) && forall k :: 0 <= k < old(length) ==> !strictEqual(value, Contents()[k])
      ensures removed ==> exists i {:trigger old(Contents())[i]} ::
        && 0 <= i < old(length) && strictEqual(value, old(Contents())[i])
        && (forall k :: 0 <= k < i ==> !strictEqual(value, old(Contents())[k]))
        && Contents() == old(Contents())[..i] + old(Contents())[i + 1..]
      ensures Cost() <= old(Cost())
    {
      hide FirstEqual, Potential, Cut;
      ghost var s := Contents();
      RemoveEffect(strictEqual, value, s);
      RemovesFirst(strictEqual, value, s);
      hide Effect;
      var index := GetIndexOf(value);
      if index >= 0 {
        ShiftDown(elements, index, length);
        length := length - 1;
        PotentialFalls(length, elements.Length);
        return true;
      }
      return false;
    }

    /** Removes a range. Shifting goes one slot too far: it reads the slot at the length, and what is read there, or past
        the end of the array, never gets into the list. (A slot past the end is written only if it was read, with what was
        read.) */
    method RemoveByRange(startIndex: int, endIndex: int, stray: T) returns (outcome: Outcome, outside: bool)
      requires Valid()
      modifies `length, elements
      ensures Valid()
      ensures outcome.RangeError? <==> Refused(Op.RemoveByRange(startIndex, endIndex), old(Contents()))
      ensures outcome.Success? <==> 0 <= startIndex < old(length) && startIndex < endIndex
      ensures Contents() == Effect(strictEqual, Op.RemoveByRange(startIndex, endIndex), old(Contents()))
      ensures outcome.RangeError? ==> Contents() == old(Contents())
      ensures outcome.Success? ==>
        Contents() == old(Contents())[..startIndex] +
          (if endIndex > old(length) then [] else if endIndex == old(length) then [old(Contents())[old(length) - 1]]
           else old(Contents())[endIndex..])
      ensures outside <==> Leaves(Op.RemoveByRange(startIndex, endIndex), old(Contents()), elements.Length)
      ensures outside <==> outcome.Success? && old(length) == elements.Length
      ensures Cost() <= old(Cost())
    {
      hide FirstEqual;
      outside := false;
      if endIndex <= startIndex {
        return RangeError, false;
      }
      if startIndex < 0 || startIndex >= length || endIndex < 0 {
        return RangeError, false;
      }
      var toIndex := if endIndex > length then length else if endIndex == length then length - 1 else endIndex;
      outside := CloseGap(elements, startIndex, toIndex, length, stray);
      length := length - (toIndex - startIndex);
      return Success, outside;
    }

    /** A new list of a range. The end index is at most that of the last element, so that element is never included, and
        the indices are never out of order. */
    method SubArrayList(from: int, to: int) returns (outcome: Outcome, subArrayList: ArrayList<T>)
      requires Valid()
      ensures fresh(subArrayList) && fresh(subArrayList.elements) && subArrayList.Valid()
      ensures outcome.RangeError? <==> to <= from || from < 0 || from >= length
      ensures subArrayList.Contents() == if outcome.RangeError? then [] else SubList(Contents(), from, to)
      ensures outcome.Success? ==> subArrayList.Contents() == Contents()[from..if to < length then to else length - 1]
      ensures subArrayList.elements.Length == |subArrayList.Contents()|
    {
      hide FirstEqual;
      var fromIndex, toIndex := from, to;
      if toIndex <= fromIndex {
        subArrayList := new ArrayList(0, hole, strictEqual);
        return RangeError, subArrayList;
      }
      if fromIndex < 0 || fromIndex >= length || toIndex < 0 {
        subArrayList := new ArrayList(0, hole, strictEqual);
        return RangeError, subArrayList;
      }
      var endIndex := if toIndex >= length - 1 then length - 1 else toIndex;
      assert fromIndex <= endIndex;
      if fromIndex > endIndex {
        fromIndex, endIndex := endIndex, fromIndex;
      }
      var newLength := endIndex - fromIndex;
      subArrayList := new ArrayList(newLength, hole, strictEqual);
      subArrayList.length := newLength;
      ghost var s := Contents()[fromIndex..endIndex];
      for i := 0 to newLength
        invariant subArrayList.Valid() && fresh(subArrayList) && fresh(subArrayList.elements)
        invariant subArrayList.length == newLength == subArrayList.elements.Length
        invariant forall k {:trigger subArrayList.elements[k]} :: 0 <= k < i ==> subArrayList.elements[k] == s[k]
      {
        assert elements[fromIndex + i] == s[i];
        var outcome := subArrayList.Set(i, elements[fromIndex + i]);
      }
      assert subArrayList.Contents() == s;
      return Success, subArrayList;
    }

    /** Any operation does to the list what it does to the sequence, whatever a read past the end of the array gives; it
        goes past the end exactly if Leaves says so. It costs at most four slots if it is an addition and none otherwise,
        unless it is about the capacity itself. */
    method Perform(op: Op<T>, stray: T) returns (outside: bool)
      requires Valid() && length < MAX_LENGTH
      modifies this, elements
      ensures Valid() && (elements == old(elements) || fresh(elements))
      ensures Contents() == Effect(strictEqual, op, old(Contents())) && length <= old(length) + 1
      ensures elements.Length == CapacityAfter(op, old(Contents()), old(elements.Length))
      ensures outside <==> Leaves(op, old(Contents()), old(elements.Length))
      ensures !op.IncreaseCapacityTo? && !op.TrimToCurrentLength? ==> Cost() <= old(Cost()) + if op.Add? || op.Insert? then 4 else 0
    {
      hide FirstEqual, Potential, CapacityForOneMore;
      outside := false;
      match op {
        case Add(value) => Add(value);
        case Insert(value, index) =>
          var outcome;
          outcome, outside := Insert(value, index, stray);
        case Set(index, value) =>
          if index >= 0 {
            var outcome := Set(index, value);
          }
        case Clear => Clear();
        case RemoveByIndex(index) => var outcome := RemoveByIndex(index);
        case Remove(value) => var removed := Remove(value);
        case RemoveByRange(startIndex, endIndex) =>
          var outcome;
          outcome, outside := RemoveByRange(startIndex, endIndex, stray);
        case IncreaseCapacityTo(capacity) => outside := IncreaseCapacityTo(capacity);
        case TrimToCurrentLength => TrimToCurrentLength();
      }
    }

    /** Additions to a list that starts empty with the capacity of a new list copy at most four slots each, all growing
        together. */
    method AddAll(values: seq<T>)
      requires Valid() && length == 0 && elements.Length == 10 && |values| <= MAX_LENGTH
      modifies this, elements
      ensures Valid() && Contents() == values && length < elements.Length
      ensures copied <= old(copied) + 4 * |values|
    {
      hide Potential;
      PotentialAtMost(0, 10);
      for i := 0 to |values|
        invariant Valid() && Contents() == values[..i] && length < elements.Length
        invariant elements == old(elements) || fresh(elements)
        invariant Cost() <= old(copied) + 4 * i
      {
        Add(values[i]);
      }
      assert values[..|values|] == values;
    }
  }

  class ArrayListIterator<T> {
    var iteratedArrayList: ArrayList?<T>
    var nextIndex: nat

    /** Where the iterator is; it is finished once it let go of the list. */
    ghost function Where(): Position
      reads this
    {
      if iteratedArrayList == null then Finished else At(nextIndex)
    }

    constructor (arrayList: ArrayList<T>)
      ensures iteratedArrayList == arrayList && Where() == At(0)
    {
      iteratedArrayList, nextIndex := arrayList, 0;
    }

    method Next() returns (result: Result<T>)
      requires iteratedArrayList != null ==> iteratedArrayList.Valid()
      modifies this
      ensures iteratedArrayList == old(iteratedArrayList) || iteratedArrayList == null
      ensures var s := if old(iteratedArrayList) == null then [] else old(iteratedArrayList.Contents());
        result == ResultAt(s, old(Where())) && Where() == Advance(s, old(Where()))
      ensures result.Value? <==> old(iteratedArrayList) != null && old(nextIndex) < old(iteratedArrayList).length
      ensures result.Value? ==>
        && iteratedArrayList == old(iteratedArrayList) && nextIndex == old(nextIndex) + 1
        && result.value == old(iteratedArrayList).Contents()[old(nextIndex)]
      ensures result.Done? ==> iteratedArrayList == null
    {
      if iteratedArrayList == null {
        return Done;
      }
      var index := nextIndex;
      var length := iteratedArrayList.length;
      if index >= length {
        iteratedArrayList := null;
        return Done;
      }
      nextIndex := index + 1;
      var outcome, value := iteratedArrayList.Get(index);
      return Value(value);
    }
  }

  /** Any run of changes to a list with steps of an iterator of it between them: the list becomes what the changes make of
      the sequence, and the iterator sees, at each step, the element of the sequence as it then is. The run goes past the
      end of an array exactly if LeavesSometime says so, and unless it is about the capacity itself, it costs at most four
      slots for each addition. */
  method Run<T>(list: ArrayList<T>, iter: ArrayListIterator<T>, events: seq<Event<T>>, stray: T)
    returns (results: seq<Result<T>>, outside: bool)
    requires list.Valid() && list.length + |events| <= MAX_LENGTH && iter.iteratedArrayList == list
    modifies list, list.elements, iter
    ensures list.Valid() && list.Contents() == Effects(list.strictEqual, Mutations(events), old(list.Contents()))
    ensures results == Seen(list.strictEqual, events, old(list.Contents()), old(iter.Where()))
    ensures outside <==> LeavesSometime(list.strictEqual, events, old(list.Contents()), old(list.elements.Length))
    ensures (forall i :: 0 <= i < |events| ==> !AboutCapacity(events[i])) ==>
      list.Cost() <= old(list.Cost()) + 4 * Additions(events) && list.copied <= old(list.copied + list.length) + 4 * Additions(events)
  {
    PotentialAtMost(list.length, list.elements.Length);
    hide OnCourse, LeavesSometime, Effects, Seen, Mutations, Potential;
    results, outside := [], false;
    ghost var eq, s, capacity, position := list.strictEqual, list.Contents(), list.elements.Length, iter.Where();
    AtStart(eq, events, s, capacity, position);
    assert events[..0] == [];
    for i := 0 to |events|
      invariant list.Valid() && list.length + |events| - i <= MAX_LENGTH
      invariant list.elements == old(list.elements) || fresh(list.elements)
      invariant iter.iteratedArrayList == list || iter.iteratedArrayList == null
      invariant OnCourse(eq, events, i, s, capacity, position, list.Contents(), list.elements.Length, iter.Where(), results, outside)
      invariant (forall k :: 0 <= k < |events| ==> !AboutCapacity(events[k])) ==>
        list.Cost() <= old(list.Cost()) + 4 * Additions(events[..i])
    {
      hide Effect, Leaves, CapacityAfter;
      AfterEvent(eq, events, i, s, capacity, position, list.Contents(), list.elements.Length, iter.Where(), results, outside);
      AdditionsUpTo(events, i);
      match events[i]
      case Mutate(op) =>
        var left := list.Perform(op, stray);
        outside := outside || left;
      case Next =>
        var result := iter.Next();
        results := results + [result];
    }
    AtEnd(eq, events, s, capacity, position, list.Contents(), list.elements.Length, iter.Where(), results, outside);
    assert events[..|events|] == events;
  }
}
