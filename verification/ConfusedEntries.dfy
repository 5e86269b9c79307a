/** Runs of interning after which, spans being compared as written, the table's validity check is wrong. */
module ConfusedEntries {
  import opened StringData
  import opened Words
  import opened EcmaStrings
  import opened StringOps
  import opened StringTable

  /** Any 16-bit string of 128 units or more gets into one table with another that compares equal to it, by way of two parts
      of that other one. The check then fails, although all contents are different. */
  method FailsValidTable(s: seq<Unit>, m: nat, codec: Codec) returns (t: EcmaStringTable, valid: bool)
    requires SMALL_STRING_SIZE <= |s| < MAX_STRING_LENGTH && m < |s| && !IsASCIICharacter(s[m]) && codec.Lawful()
    ensures t.check == ElementCountBytes && t.Valid() && NoDuplicates(t.table) && !valid
    ensures Has(t.table, s) && Has(t.table, Twin(s, m))
  {
    hide Hash, Twin, NoDuplicates, NoSameStrings, Has, EcmaStringTable.Valid;
    var other := Twin(s, m);
    TwinIsConfused(s, m);
    assert !AllAscii(s) && !AllAscii(other);
    Parted(s, other);
    t := InternBoth(s, other[..|s| - 10], other[|s| - 10..], codec);
    BothThere(t, s, other);
    valid := CheckValid(t);
  }

  method CheckValid(t: EcmaStringTable) returns (valid: bool)
    requires t.Valid()
    modifies t.Strings`rawHashcode
    ensures t.Valid() && NoDuplicates(t.table) && (valid <==> NoSameStrings(t.check, t.table))
  {
    hide Hash, NoDuplicates, NoSameStrings, Holds;
    valid := t.CheckStringTableValidity();
  }

  lemma BothThere(t: EcmaStringTable, s: seq<Unit>, other: seq<Unit>)
    requires t.Valid() && t.check == ElementCountBytes && |t.table| == 4
    requires t.table[0].str.Units() == s && t.table[3].str.Units() == other
    requires !AllAscii(s) && !AllAscii(other) && Confused(s, other)
    ensures !NoSameStrings(t.check, t.table) && Has(t.table, s) && Has(t.table, other)
  {
    hide Hash, SpansMatch;
    assert SameString(t.check, t.table[0].str.payload, t.table[3].str.payload);
  }

  lemma Parted(s: seq<Unit>, other: seq<Unit>)
    requires |other| == |s| >= 10 && other != s && other[..|s| - 10] == s[..|s| - 10]
    ensures other[..|s| - 10] + other[|s| - 10..] == other && s[|s| - 10..] != other[|s| - 10..]
  {
    assert s == s[..|s| - 10] + s[|s| - 10..];
  }

  method NewTable(codec: Codec) returns (t: EcmaStringTable)
    requires codec.Lawful()
    ensures fresh(t) && fresh(t.Strings) && t.Valid() && t.check == ElementCountBytes && t.table == []
  {
    var empty := new EcmaString(Utf8([]));
    t := new EcmaStringTable(ElementCountBytes, codec, empty);
  }

  /** Interns `s`, and then another string of its length by its two parts. */
  method InternBoth(s: seq<Unit>, left: seq<Unit>, right: seq<Unit>, codec: Codec) returns (t: EcmaStringTable)
    requires |left| + |right| == |s| < MAX_STRING_LENGTH && |right| < SMALL_STRING_SIZE && codec.Lawful()
    requires 0 < |right| < |left| && s[|left|..] != right
    ensures fresh(t) && fresh(t.Strings) && t.Valid() && t.check == ElementCountBytes
    ensures |t.table| == 4 && t.table[0].str.Units() == s && t.table[3].str.Units() == left + right
  {
    hide Hash, EcmaStringTable.Valid, Apart;
    t := NewTable(codec);
    var whole := Intern(t, s);
    var head := Intern(t, left);
    var tail := Intern(t, right);
    ghost var e0, e1, e2 := Entry(Hash(s, 0), whole), Entry(Hash(left, 0), head), Entry(Hash(right, 0), tail);
    assert t.table == [e0, e1, e2];
    ThreeApart(e0, e1, e2);
    SpliceIn(t, head, tail);
  }

  /** No entry has `head` as long as its first part and `tail` as its second. */
  ghost predicate Apart(entries: seq<Entry>, head: EcmaString, tail: EcmaString) {
    forall i {:trigger entries[i]} :: 0 <= i < |entries| ==>
      var units, n := entries[i].str.Units(), |head.Units()|;
      |units| >= n ==> units[n..] != tail.Units()
  }

  lemma ThreeApart(whole: Entry, head: Entry, tail: Entry)
    requires 0 < |tail.str.Units()| < |head.str.Units()| <= |whole.str.Units()|
    requires whole.str.Units()[|head.str.Units()|..] != tail.str.Units()
    ensures Apart([whole, head, tail], head.str, tail.str)
  {
  }

  /** Interns two strings joined that match no entry. */
  method SpliceIn(t: EcmaStringTable, head: EcmaString, tail: EcmaString)
    requires t.Valid() && t.check == ElementCountBytes && head in t.Strings && tail in t.Strings
    requires |head.Units()| + |tail.Units()| < MAX_STRING_LENGTH && |tail.Units()| < SMALL_STRING_SIZE
    requires Apart(t.table, head, tail)
    modifies t, t.Strings
    ensures t.Valid() && fresh(t.Strings - old(t.Strings))
    ensures old(t.table) <= t.table && |t.table| == |old(t.table)| + 1
    ensures t.table[|old(t.table)|].str.Units() == head.Units() + tail.Units()
  {
    hide Hash, NoDuplicates, Spliced;
    forall i | 0 <= i < |t.table|
      ensures !Spliced(ElementCountBytes, t.table[i].str.payload, head.payload, tail.payload)
    {
      NotSpliced(t.table[i].str.payload, head.payload, tail.payload);
    }
    var twin := t.GetOrInternSpliced(head, tail);
  }

  /** Interns data of a length that no entry has. */
  method Intern(t: EcmaStringTable, units: seq<Unit>) returns (r: EcmaString)
    requires t.Valid() && |units| < MAX_STRING_LENGTH
    requires forall i :: 0 <= i < |t.table| ==> |t.table[i].str.Units()| != |units|
    modifies t, t.Strings
    ensures t.Valid() && fresh(t.Strings - old(t.Strings)) && old(t.Strings) <= t.Strings && r in t.Strings
    ensures t.table == old(t.table) + [Entry(Hash(units, 0), r)] && r.Units() == units
  {
    hide Hash, NoDuplicates;
    var canBeCompress := CanBeCompressed(units);
    r := t.GetOrInternUtf16(units, canBeCompress);
  }

  lemma NotSpliced(p: Payload, p1: Payload, p2: Payload)
    requires p.Canonical() && p1.Canonical() && p2.Canonical() && |p2.Units()| < SMALL_STRING_SIZE
    requires var n := |p1.Units()|; |p.Units()| >= n ==> p.Units()[n..] != p2.Units()
    ensures !Spliced(ElementCountBytes, p, p1, p2)
  {
    hide UnitBytes;
    if p.Utf8? && |p.Units()| >= |p1.Units()| {
      assert (p1.Units() + p2.Units())[|p1.Units()|..] == p2.Units();
    }
  }
}
