/** The table of interned strings: a multimap from hash codes to strings with four ways to look a string up. */
module StringTable {
  import opened StringData
  import opened Words
  import opened EcmaStrings
  import opened StringOps

  datatype Entry = Entry(key: U32, str: EcmaString)

  /** The entries under one key, in table order. */
  function EqualRange(table: seq<Entry>, key: U32): seq<Entry> {
    if |table| == 0 then []
    else (if table[0].key == key then [table[0]] else []) + EqualRange(table[1..], key)
  }

  lemma {:induction false} InEqualRange(table: seq<Entry>, key: U32, e: Entry)
    ensures e in EqualRange(table, key) <==> e in table && e.key == key
  {
    if |table| > 0 {
      InEqualRange(table[1..], key, e);
      assert e in table <==> e == table[0] || e in table[1..];
    }
  }

  /** The entries of a bucket are in table order. */
  lemma {:induction false} EqualRangeConcat(table: seq<Entry>, more: seq<Entry>, key: U32)
    ensures EqualRange(table + more, key) == EqualRange(table, key) + EqualRange(more, key)
  {
    if |table| > 0 {
      assert (table + more)[1..] == table[1..] + more;
      EqualRangeConcat(table[1..], more, key);
    } else {
      assert table + more == more;
    }
  }

  ghost predicate Holds(table: seq<Entry>, str: EcmaString) {
    exists i :: 0 <= i < |table| && table[i].str == str
  }

  /** Some entry has exactly these units: what a scan of the whole table looks for. */
  ghost predicate Has(table: seq<Entry>, units: seq<Unit>) {
    exists i :: 0 <= i < |table| && table[i].str.Units() == units
  }

  ghost predicate Keyed(table: seq<Entry>) {
    forall i {:trigger table[i]} :: 0 <= i < |table| ==> table[i].key == Hash(table[i].str.Units(), 0)
  }

  ghost predicate NoDuplicates(table: seq<Entry>) {
    forall i, j :: 0 <= i < j < |table| ==> table[i].str.Units() != table[j].str.Units()
  }

  lemma Appended(table: seq<Entry>, e: Entry)
    ensures forall s {:trigger Holds(table + [e], s)} :: Holds(table + [e], s) <==> Holds(table, s) || s == e.str
    ensures Keyed(table) && e.key == Hash(e.str.Units(), 0) ==> Keyed(table + [e])
    ensures NoDuplicates(table) && !Has(table, e.str.Units()) ==> NoDuplicates(table + [e])
  {
    forall s
      ensures Holds(table + [e], s) <==> Holds(table, s) || s == e.str
    {
      if Holds(table, s) {
        var i :| 0 <= i < |table| && table[i].str == s;
        assert (table + [e])[i].str == s;
      }
      assert (table + [e])[|table|] == e;
    }
  }

  /** Interned strings of equal content are one object. */
  lemma OneObjectPerContent(table: seq<Entry>, s: EcmaString, t: EcmaString)
    requires NoDuplicates(table) && Holds(table, s) && Holds(table, t)
    ensures s == t <==> s.Units() == t.Units()
  {
    var i :| 0 <= i < |table| && table[i].str == s;
    var j :| 0 <= j < |table| && table[j].str == t;
  }

  /** The entries under the key of `units` are all that need to be looked at. */
  lemma BucketIsScan(table: seq<Entry>, units: seq<Unit>)
    requires Keyed(table)
    ensures Has(table, units) <==> exists e :: e in EqualRange(table, Hash(units, 0)) && e.str.Units() == units
  {
    if Has(table, units) {
      var i :| 0 <= i < |table| && table[i].str.Units() == units;
      InEqualRange(table, Hash(units, 0), table[i]);
    }
    if e :| e in EqualRange(table, Hash(units, 0)) && e.str.Units() == units {
      InEqualRange(table, Hash(units, 0), e);
    }
  }

  /** A request to intern: two strings joined, UTF-8 data, 16-bit data, or a string. */
  datatype Request =
    | Splice(first: EcmaString, second: EcmaString)
    | Utf8Data(bytes: seq<Byte>, canBeCompress: bool)
    | Utf16Data(units: seq<Unit>, canBeCompress: bool)
    | Object(str: EcmaString)

  class EcmaStringTable {
    const check: SpanCheck
    const codec: Codec
    const empty: EcmaString
    var table: seq<Entry>
    ghost var Strings: set<EcmaString>

    /** All strings in the heap are in order and flagged exactly when they are in the table; entries differ in content. */
    ghost predicate Valid()
      reads this, Strings
    {
      && codec.Lawful()
      && empty in Strings && empty.Units() == []
      && (forall s {:trigger s in Strings} :: s in Strings ==> s.Valid() && (s.IsInternString() <==> Holds(table, s)))
      && (forall i {:trigger table[i]} :: 0 <= i < |table| ==> table[i].str in Strings)
      && Keyed(table)
      && NoDuplicates(table)
    }

    constructor (check: SpanCheck, codec: Codec, empty: EcmaString)
      requires codec.Lawful() && empty.Valid() && empty.Units() == [] && !empty.IsInternString()
      ensures Valid() && table == [] && Strings == {empty}
      ensures this.check == check && this.codec == codec && this.empty == empty
    {
      this.check, this.codec, this.empty := check, codec, empty;
      table, Strings := [], {empty};
    }

    /** The content a request asks for. */
    ghost function Asked(request: Request): seq<Unit> {
      match request
      case Splice(a, b) => a.Units() + b.Units()
      case Utf8Data(data, _) => codec.decode(data)
      case Utf16Data(data, _) => data
      case Object(str) => str.Units()
    }

    /** How the lookup for a request compares an entry of the right hash with what is asked for. */
    ghost predicate Accepts(request: Request, p: Payload) {
      match request
      case Splice(a, b) => Spliced(check, p, a.payload, b.payload)
      case Utf8Data(data, canBeCompress) => MatchesUtf8(check, p, data, canBeCompress, codec)
      case Utf16Data(data, _) => SpansMatch(check, p.Units(), data)
      case Object(str) => SameString(check, p, str.payload)
    }

    /** Where the comparison with an entry of the right hash is equality of contents. */
    ghost predicate ExactRequest(request: Request) {
      match request
      case Splice(a, b) => SpliceExact(check, a.payload, b.payload)
      case Utf8Data(data, canBeCompress) => Utf8Exact(check, data, canBeCompress, codec)
      case Utf16Data(data, _) => Exact(check, |data|)
      case Object(str) => InFull(check, str.payload)
    }

    /** The strings named are in the heap, and the caller is right about the encoding of UTF-8 data. */
    ghost predicate Known(request: Request)
      reads `Strings
    {
      match request
      case Splice(a, b) => a in Strings && b in Strings
      case Utf8Data(data, canBeCompress) => Utf8Input(data, canBeCompress, codec)
      case Utf16Data(_, _) => true
      case Object(str) => str in Strings
    }

    lemma AcceptsItsOwn(request: Request, p: Payload)
      requires Valid() && Known(request) && p.Canonical()
      ensures p.Units() == Asked(request) ==> Accepts(request, p)
      ensures ExactRequest(request) && Accepts(request, p) && Hash(p.Units(), 0) == Hash(Asked(request), 0) ==>
        p.Units() == Asked(request)
    {
      hide Hash, SpansMatch, Spliced, SameString, MatchesUtf8;
      match request {
        case Splice(a, b) => SplicedIsConcat(check, p, a.payload, b.payload);
        case Utf8Data(data, canBeCompress) => MatchesUtf8IsEqual(check, p, data, canBeCompress, codec);
        case Utf16Data(data, _) => EqualSpansMatch(check, p.Units(), data);
        case Object(str) => SameStringIsEqual(check, str.payload, p); SameStringSymmetric(check, str.payload, p);
      }
    }

    /** Requests are exact precisely where no string of other content can ever be found for them. */
    lemma RequestIsExactIff(request: Request)
      requires Valid() && Known(request)
      ensures ExactRequest(request) <==>
        forall p: Payload {:trigger Accepts(request, p)} ::
          p.Canonical() && Hash(p.Units(), 0) == Hash(Asked(request), 0) && Accepts(request, p) ==> p.Units() == Asked(request)
    {
      hide Hash, SpansMatch, Spliced, SameString, MatchesUtf8;
      if ExactRequest(request) {
        forall p: Payload | p.Canonical() && Hash(p.Units(), 0) == Hash(Asked(request), 0) && Accepts(request, p)
          ensures p.Units() == Asked(request)
        {
          AcceptsItsOwn(request, p);
        }
      } else {
        var p := Lookalike(request);
      }
    }

    lemma Lookalike(request: Request) returns (p: Payload)
      requires Valid() && Known(request) && !ExactRequest(request)
      ensures p.Canonical() && Accepts(request, p)
      ensures Hash(p.Units(), 0) == Hash(Asked(request), 0) && p.Units() != Asked(request)
    {
      hide Hash, SpansMatch, Spliced, MatchesUtf8, SpliceExact, Utf8Exact;
      match request {
        case Splice(a, b) =>
          p := SplicedTwin(check, a.payload, b.payload);
        case Utf8Data(data, canBeCompress) =>
          Utf8IsExactIff(check, data, canBeCompress, codec);
          p :| p.Canonical() && MatchesUtf8(check, p, data, canBeCompress, codec) &&
            Hash(p.Units(), 0) == Hash(codec.decode(data), 0) && p.Units() != codec.decode(data);
        case Utf16Data(data, _) =>
          SpanIsExactIff(check, data);
          var s :| SpansMatch(check, s, data) && Hash(s, 0) == Hash(data, 0) && s != data;
          p := Encoded(s);
        case Object(str) =>
          SameStringIsExactIff(check, str.payload);
          p :| p.Canonical() && SameString(check, p, str.payload) && p.Units() != str.Units();
      }
    }

    /** Some entry of the hash asked for is accepted. */
    ghost predicate Found(entries: seq<Entry>, request: Request) {
      exists i :: 0 <= i < |entries| && entries[i].key == Hash(Asked(request), 0) && Accepts(request, entries[i].str.payload)
    }

    lemma HasIsFound(request: Request)
      requires Valid() && Known(request)
      ensures Has(table, Asked(request)) ==> Found(table, request)
      ensures ExactRequest(request) && Found(table, request) ==> Has(table, Asked(request))
    {
      hide Hash, Accepts, ExactRequest, Asked, NoDuplicates, Known;
      forall i | 0 <= i < |table|
        ensures table[i].str.Units() == Asked(request) ==> Accepts(request, table[i].str.payload)
        ensures ExactRequest(request) && table[i].key == Hash(Asked(request), 0) && Accepts(request, table[i].str.payload) ==>
          table[i].str.Units() == Asked(request)
      {
        AcceptsItsOwn(request, table[i].str.payload);
      }
    }

    /** What a lookup answers: null exactly if no entry is accepted, and so only if none has the content, and else an
        entry that is, and so has the content where the request is exact. */
    ghost predicate Answers(r: EcmaString?, request: Request)
      reads `table
    {
      && (r == null <==> !Found(table, request))
      && (r == null ==> !Has(table, Asked(request)))
      && (r != null ==> Holds(table, r) && Hash(r.Units(), 0) == Hash(Asked(request), 0) && Accepts(request, r.payload))
      && (r != null && ExactRequest(request) ==> r.Units() == Asked(request))
    }

    lemma Hit(request: Request, e: Entry)
      requires Valid() && Known(request) && e in EqualRange(table, Hash(Asked(request), 0))
      requires Accepts(request, e.str.payload)
      ensures Answers(e.str, request)
    {
      hide Hash, Accepts, ExactRequest, Asked, NoDuplicates, EqualRange, Known;
      InEqualRange(table, Hash(Asked(request), 0), e);
      AcceptsItsOwn(request, e.str.payload);
    }

    lemma Missed(request: Request)
      requires Valid() && Known(request)
      requires forall e {:trigger e in EqualRange(table, Hash(Asked(request), 0))} ::
        e in EqualRange(table, Hash(Asked(request), 0)) ==> !Accepts(request, e.str.payload)
      ensures Answers(null, request)
    {
      hide Hash, Accepts, ExactRequest, Asked, NoDuplicates, EqualRange, Known;
      forall i | 0 <= i < |table|
        ensures !(table[i].key == Hash(Asked(request), 0) && Accepts(request, table[i].str.payload))
        ensures table[i].str.Units() != Asked(request)
      {
        InEqualRange(table, Hash(Asked(request), 0), table[i]);
        AcceptsItsOwn(request, table[i].str.payload);
      }
    }

    /** Looks two strings up as if they were joined. */
    method GetSplicedString(firstString: EcmaString, secondString: EcmaString) returns (r: EcmaString?)
      requires Valid() && firstString in Strings && secondString in Strings
      modifies firstString`rawHashcode
      ensures Valid() && Answers(r, Splice(firstString, secondString))
    {
      hide Hash, Spliced, NoDuplicates, EqualRange, Answers, ExactRequest;
      ghost var request := Splice(firstString, secondString);
      var hashCode := firstString.GetHashcode();
      hashCode := secondString.ComputeHashcode(hashCode);
      HashConcat(firstString.Units(), secondString.Units(), 0);
      var range := EqualRange(table, hashCode);
      var item := 0;
      while item < |range|
        invariant 0 <= item <= |range|
        invariant forall i :: 0 <= i < item ==> !Accepts(request, range[i].str.payload)
        modifies {}
      {
        var foundString := range[item].str;
        InEqualRange(table, hashCode, range[item]);
        var found := EqualToSplicedString(check, foundString, firstString, secondString, codec);
        if found {
          Hit(request, range[item]);
          return foundString;
        }
        item := item + 1;
      }
      Missed(request);
      return null;
    }

    /** Looks UTF-8 data up. */
    method GetStringUtf8(utf8Data: seq<Byte>, canBeCompress: bool) returns (r: EcmaString?)
      requires Valid() && Utf8Input(utf8Data, canBeCompress, codec)
      ensures Answers(r, Utf8Data(utf8Data, canBeCompress))
      ensures r != null && Exact(check, |codec.decode(utf8Data)|) && !codec.StopsShort(utf8Data, |r.Units()|) ==>
        r.Units() == codec.decode(utf8Data)
    {
      hide Hash, MatchesUtf8, NoDuplicates, EqualRange, Answers, ExactRequest;
      ghost var request := Utf8Data(utf8Data, canBeCompress);
      var hashCode := ComputeHashcodeUtf8(utf8Data, canBeCompress);
      var range := EqualRange(table, hashCode);
      var item := 0;
      while item < |range|
        invariant 0 <= item <= |range|
        invariant forall i :: 0 <= i < item ==> !Accepts(request, range[i].str.payload)
      {
        var foundString := range[item].str;
        InEqualRange(table, hashCode, range[item]);
        var found := StringsAreEqualUtf8(check, foundString, utf8Data, canBeCompress, codec);
        if found {
          MatchesUtf8IsEqual(check, foundString.payload, utf8Data, canBeCompress, codec);
          Hit(request, range[item]);
          return foundString;
        }
        item := item + 1;
      }
      Missed(request);
      return null;
    }

    method ComputeHashcodeUtf8(utf8Data: seq<Byte>, canBeCompress: bool) returns (hash: U32)
      requires Valid() && Utf8Input(utf8Data, canBeCompress, codec)
      ensures hash == Hash(codec.decode(utf8Data), 0)
    {
      if canBeCompress {
        hash := ComputeHashForData(utf8Data, 0);
      } else {
        hash := ComputeHashForData(codec.convert(utf8Data, |codec.decode(utf8Data)|), 0);
      }
    }

    /** Looks 16-bit data up. */
    method GetStringUtf16(utf16Data: seq<Unit>) returns (r: EcmaString?)
      requires Valid()
      ensures Answers(r, Utf16Data(utf16Data, AllAscii(utf16Data)))
    {
      hide Hash, SpansMatch, NoDuplicates, EqualRange, Answers, ExactRequest;
      ghost var request := Utf16Data(utf16Data, AllAscii(utf16Data));
      var hashCode := ComputeHashForData(utf16Data, 0);
      var range := EqualRange(table, hashCode);
      var item := 0;
      while item < |range|
        invariant 0 <= item <= |range|
        invariant forall i :: 0 <= i < item ==> !Accepts(request, range[i].str.payload)
      {
        var foundString := range[item].str;
        InEqualRange(table, hashCode, range[item]);
        var found := StringsAreEqualUtf16(check, foundString, utf16Data, codec);
        if found {
          Hit(request, range[item]);
          return foundString;
        }
        item := item + 1;
      }
      Missed(request);
      return null;
    }

    /** Looks a string up. */
    method GetString(str: EcmaString) returns (r: EcmaString?)
      requires Valid() && str in Strings
      modifies Strings`rawHashcode
      ensures Valid() && Answers(r, Object(str))
    {
      hide Hash, SameString, NoDuplicates, EqualRange, Answers, ExactRequest;
      ghost var request := Object(str);
      var hashCode := str.GetHashcode();
      var range := EqualRange(table, hashCode);
      var item := 0;
      while item < |range|
        invariant 0 <= item <= |range|
        invariant Valid()
        invariant forall i :: 0 <= i < item ==> !Accepts(request, range[i].str.payload)
      {
        var foundString := range[item].str;
        InEqualRange(table, hashCode, range[item]);
        var found := StringsAreEqual(check, foundString, str);
        if found {
          Hit(request, range[item]);
          return foundString;
        }
        item := item + 1;
      }
      Missed(request);
      return null;
    }

    /** Puts a string in the table, unless its flag says that it is there. */
    method InternString(str: EcmaString)
      requires Valid() && str in Strings && (str.IsInternString() || !Has(table, str.Units()))
      modifies `table, str`mixLength, str`rawHashcode
      ensures Valid() && Holds(table, str)
      ensures table == if old(str.IsInternString()) then old(table) else old(table) + [Entry(Hash(str.Units(), 0), str)]
    {
      hide Hash, Holds, Has, NoDuplicates, Keyed;
      if str.IsInternString() {
        return;
      }
      var hashCode := str.GetHashcode();
      Appended(table, Entry(hashCode, str));
      table := table + [Entry(hashCode, str)];
      str.SetIsInternString();
    }

    method InternEmptyString(emptyStr: EcmaString)
      requires Valid() && emptyStr == empty && (empty.IsInternString() || !Has(table, []))
      modifies `table, emptyStr`mixLength, emptyStr`rawHashcode
      ensures Valid() && Holds(table, empty)
      ensures table == if old(empty.IsInternString()) then old(table) else old(table) + [Entry(Hash([], 0), empty)]
    {
      InternString(emptyStr);
    }

    /** A string that was just allocated, outside the table, is one of the strings of the heap. */
    ghost method Track(str: EcmaString)
      requires Valid() && str.Valid() && !str.IsInternString()
      modifies `Strings
      ensures Valid() && Strings == old(Strings) + {str}
    {
      hide Hash, NoDuplicates, Keyed, Holds;
      NoneHolds(str);
      Strings := Strings + {str};
    }

    lemma NoneHolds(str: EcmaString)
      requires Valid() && (str in Strings ==> !str.IsInternString())
      ensures str !in Strings ==> !Holds(table, str)
    {
    }

    /** What interning does: `r` is an entry that was there and is accepted, or, exactly if there was none, it is new and of
        the content asked for, which no entry had. It has that content in any case where the request is exact. */
    twostate predicate Interned(new r: EcmaString, request: Request)
      reads this
    {
      && r in Strings
      && old(Strings) <= Strings
      && Hash(r.Units(), 0) == Hash(Asked(request), 0) && Accepts(request, r.payload)
      && (ExactRequest(request) ==> r.Units() == Asked(request))
      && (Found(old(table), request) ==> table == old(table) && Holds(table, r))
      && (!Found(old(table), request) ==>
            && table == old(table) + [Entry(Hash(Asked(request), 0), r)]
            && r.Units() == Asked(request) && !Has(old(table), Asked(request)))
    }

    /** Interns a string of the heap that no entry has the content of. */
    method AddNew(str: EcmaString)
      requires Valid() && str.Valid() && !Has(table, str.Units())
      requires str in Strings || !str.IsInternString()
      modifies this, str
      ensures Valid() && Strings == old(Strings) + {str} && Holds(table, str)
      ensures table == old(table) + [Entry(Hash(str.Units(), 0), str)] && !Holds(old(table), str)
    {
      if str !in Strings {
        Track(str);
      }
      InternString(str);
    }

    method GetOrInternSpliced(firstString: EcmaString, secondString: EcmaString) returns (r: EcmaString)
      requires Valid() && firstString in Strings && secondString in Strings
      requires |firstString.Units()| + |secondString.Units()| < MAX_STRING_LENGTH
      modifies this, Strings
      ensures Valid() && fresh(Strings - old(Strings))
      ensures Interned(r, Splice(firstString, secondString))
    {
      hide Hash, Accepts, ExactRequest, NoDuplicates, Keyed, Found;
      var concatString := GetSplicedString(firstString, secondString);
      if concatString != null {
        return concatString;
      }
      r := Concat(firstString, secondString, empty);
      AcceptsItsOwn(Splice(firstString, secondString), r.payload);
      AddNew(r);
    }

    method GetOrInternUtf8(utf8Data: seq<Byte>, canBeCompress: bool) returns (r: EcmaString)
      requires Valid() && Utf8Input(utf8Data, canBeCompress, codec)
      modifies this, Strings
      ensures Valid() && fresh(Strings - old(Strings))
      ensures Interned(r, Utf8Data(utf8Data, canBeCompress))
      ensures Exact(check, |codec.decode(utf8Data)|) && !codec.StopsShort(utf8Data, |r.Units()|) ==>
        r.Units() == codec.decode(utf8Data)
    {
      hide Hash, Accepts, ExactRequest, NoDuplicates, Keyed, Found;
      var result := GetStringUtf8(utf8Data, canBeCompress);
      if result != null {
        return result;
      }
      r := CreateFromUtf8(utf8Data, canBeCompress, codec, empty);
      AcceptsItsOwn(Utf8Data(utf8Data, canBeCompress), r.payload);
      AddNew(r);
    }

    /** Interns ASCII data without looking it up first: the caller answers for its not being there, save for no data at
        all, which is the empty string and can be interned already. */
    method CreateAndInternStringNonMovable(utf8Data: seq<Byte>) returns (r: EcmaString)
      requires Valid() && AllAscii(utf8Data) && |utf8Data| < MAX_STRING_LENGTH
      requires Has(table, utf8Data) ==> |utf8Data| == 0 && empty.IsInternString()
      modifies this, Strings
      ensures Valid() && fresh(Strings - old(Strings))
      ensures Interned(r, Utf8Data(utf8Data, true))
    {
      hide Hash, NoDuplicates, Keyed;
      HasIsFound(Utf8Data(utf8Data, true));
      if |utf8Data| == 0 {
        assert utf8Data == [];
        r := empty;
      } else {
        var buffer := new Byte[|utf8Data|];
        StringCopy(buffer, 0, utf8Data);
        assert buffer[..] == utf8Data;
        r := new EcmaString(Utf8(buffer[..]));
      }
      AcceptsItsOwn(Utf8Data(utf8Data, true), r.payload);
      if !r.IsInternString() {
        AddNew(r);
      }
    }

    method GetOrInternUtf16(utf16Data: seq<Unit>, canBeCompress: bool) returns (r: EcmaString)
      requires Valid() && |utf16Data| < MAX_STRING_LENGTH && (canBeCompress <==> AllAscii(utf16Data))
      modifies this, Strings
      ensures Valid() && fresh(Strings - old(Strings))
      ensures Interned(r, Utf16Data(utf16Data, canBeCompress))
    {
      hide Hash, Accepts, ExactRequest, NoDuplicates, Keyed, Found;
      var result := GetStringUtf16(utf16Data);
      if result != null {
        return result;
      }
      r := CreateFromUtf16(utf16Data, canBeCompress, empty);
      AcceptsItsOwn(Utf16Data(utf16Data, canBeCompress), r.payload);
      AddNew(r);
    }

    method GetOrInternString(str: EcmaString) returns (r: EcmaString)
      requires Valid() && str in Strings
      modifies this, Strings
      ensures Valid() && Strings == old(Strings)
      ensures Interned(r, Object(str)) && (old(str.IsInternString()) ==> r == str)
    {
      hide Hash, Accepts, ExactRequest, NoDuplicates, Keyed, Found;
      AcceptsItsOwn(Object(str), str.payload);
      if str.IsInternString() {
        HasIsFound(Object(str));
        return str;
      }
      var result := GetString(str);
      if result != null {
        return result;
      }
      AddNew(str);
      return str;
    }

    method InsertStringIfNotExist(str: EcmaString) returns (ghost r: EcmaString)
      requires Valid() && str in Strings
      modifies this, Strings
      ensures Valid() && Strings == old(Strings)
      ensures Interned(r, Object(str))
    {
      hide Hash, Accepts, ExactRequest, NoDuplicates, Keyed, Found;
      AcceptsItsOwn(Object(str), str.payload);
      var found := GetString(str);
      if found == null {
        AddNew(str);
      }
      r := if found == null then str else found;
    }

    ghost predicate Acceptable(request: Request)
      reads `Strings
    {
      && Known(request)
      && match request
         case Splice(a, b) => |a.Units()| + |b.Units()| < MAX_STRING_LENGTH
         case Utf16Data(data, canBeCompress) => |data| < MAX_STRING_LENGTH && (canBeCompress <==> AllAscii(data))
         case _ => true
    }

    method GetOrIntern(request: Request) returns (r: EcmaString)
      requires Valid() && Acceptable(request)
      modifies this, Strings
      ensures Valid() && fresh(Strings - old(Strings))
      ensures Interned(r, request)
      ensures old(table) <= table && Holds(table, r)
      ensures request.Object? && Holds(old(table), request.str) ==> r == request.str
    {
      hide Hash, NoDuplicates, Keyed, Accepts, ExactRequest, Found;
      match request {
        case Splice(a, b) => r := GetOrInternSpliced(a, b);
        case Utf8Data(data, canBeCompress) => r := GetOrInternUtf8(data, canBeCompress);
        case Utf16Data(data, canBeCompress) => r := GetOrInternUtf16(data, canBeCompress);
        case Object(str) => r := GetOrInternString(str);
      }
      Appended(old(table), Entry(Hash(Asked(request), 0), r));
    }

    /** The content of the answer can be relied on: the request is exact, or is a string that is an entry already. */
    ghost predicate Certain(request: Request, entries: seq<Entry>) {
      ExactRequest(request) || (request.Object? && Holds(entries, request.str))
    }

    /** An answer is an entry of the hash asked for that the lookup accepts, and has the content if that is certain. */
    ghost predicate Answer(request: Request, r: EcmaString, start: seq<Entry>, entries: seq<Entry>) {
      && Holds(entries, r)
      && Hash(r.Units(), 0) == Hash(Asked(request), 0)
      && Accepts(request, r.payload)
      && (Certain(request, start) ==> r.Units() == Asked(request))
    }

    ghost predicate Answered(requests: seq<Request>, results: seq<EcmaString>, start: seq<Entry>, entries: seq<Entry>) {
      && |results| <= |requests|
      && forall i {:trigger results[i]} :: 0 <= i < |results| ==> Answer(requests[i], results[i], start, entries)
    }

    /** Any run of interning: where the answers are certain, equal contents give one object, whatever routes they were asked
        for by, and different contents give different ones. */
    method Run(requests: seq<Request>) returns (results: seq<EcmaString>)
      requires Valid() && forall i :: 0 <= i < |requests| ==> Acceptable(requests[i])
      modifies this, Strings
      ensures Valid() && old(table) <= table && |results| == |requests|
      ensures Answered(requests, results, old(table), table)
      ensures forall i, j :: 0 <= i < j < |results| && Certain(requests[i], old(table)) && Certain(requests[j], old(table)) ==>
        (results[i] == results[j] <==> Asked(requests[i]) == Asked(requests[j]))
    {
      results := [];
      for n := 0 to |requests|
        invariant Valid() && old(table) <= table && |results| == n
        invariant old(Strings) <= Strings && fresh(Strings - old(Strings))
        invariant Answered(requests, results, old(table), table)
      {
        hide NoDuplicates, Valid, Has, Holds, Found, Asked, Accepts, ExactRequest, Hash;
        ghost var before := table;
        var r := GetOrIntern(requests[n]);
        StillHolds(old(table), before);
        AnsweredToo(requests, results, old(table), before, table, r);
        results := results + [r];
      }
      Distinguished(requests, results, old(table), table);
    }

    lemma AnsweredToo(requests: seq<Request>, results: seq<EcmaString>, start: seq<Entry>, before: seq<Entry>,
                      after: seq<Entry>, r: EcmaString)
      requires Answered(requests, results, start, before) && before <= after && |results| < |requests|
      requires Answer(requests[|results|], r, start, after)
      ensures Answered(requests, results + [r], start, after)
    {
      hide Holds, Asked, ExactRequest, Accepts, Hash;
      StillHolds(before, after);
    }

    lemma Distinguished(requests: seq<Request>, results: seq<EcmaString>, start: seq<Entry>, entries: seq<Entry>)
      requires Answered(requests, results, start, entries) && NoDuplicates(entries)
      ensures forall i, j :: 0 <= i < j < |results| && Certain(requests[i], start) && Certain(requests[j], start) ==>
        (results[i] == results[j] <==> Asked(requests[i]) == Asked(requests[j]))
    {
      hide NoDuplicates, Certain, Asked, Accepts, Hash;
      forall i, j | 0 <= i < j < |results| && Certain(requests[i], start) && Certain(requests[j], start)
        ensures results[i] == results[j] <==> Asked(requests[i]) == Asked(requests[j])
      {
        OneObjectPerContent(entries, results[i], results[j]);
      }
    }

    /** What the collector's visitor must be like: null or a string of the same content that carries the intern flag, for
        each entry, and `live` the heap it leaves, where exactly the survivors are flagged. */
    ghost predicate Forwards(visitor: EcmaString -> EcmaString?, live: set<EcmaString>)
      reads this, live
    {
      && empty in live
      && (forall s {:trigger s in live} :: s in live ==>
            s.Valid() && (s.IsInternString() <==> Survives(table, visitor, s)))
      && (forall i {:trigger table[i]} :: 0 <= i < |table| && visitor(table[i].str) != null ==> visitor(table[i].str) in live)
      && KeepsContent(table, visitor)
    }

    lemma SweptIsValid(visitor: EcmaString -> EcmaString?, live: set<EcmaString>)
      requires Valid() && Forwards(visitor, live)
      ensures var t := Swept(table, visitor);
        && Keyed(t) && NoDuplicates(t)
        && (forall s {:trigger s in live} :: s in live ==> s.Valid() && (s.IsInternString() <==> Holds(t, s)))
        && (forall i {:trigger t[i]} :: 0 <= i < |t| ==> t[i].str in live)
    {
      hide Swept, Hash;
      SweptKeeps(table, visitor);
      SweptHolds(table, visitor);
      var t := Swept(table, visitor);
      forall i | 0 <= i < |t|
        ensures t[i].str in live
      {
        assert Holds(t, t[i].str);
      }
    }

    /** Drops the entries of dead strings and redirects the others. */
    method SweepWeakReference(visitor: EcmaString -> EcmaString?, ghost live: set<EcmaString>)
      requires Valid() && Forwards(visitor, live)
      modifies this
      ensures Valid() && Strings == live
      ensures table == Swept(old(table), visitor)
    {
      hide Swept, Survives, Hash, Sweeping;
      SweptIsValid(visitor, live);
      ghost var done: seq<Entry>, left: seq<Entry> := [], table;
      SweepStarts(table, visitor);
      var it := 0;
      while it < |table|
        invariant 0 <= it <= |table|
        invariant Sweeping(table, it, done, left, visitor, Swept(old(table), visitor))
        decreases |left|
      {
        hide Valid, Forwards, Keyed, NoDuplicates;
        var str := table[it].str;
        var fwd := visitor(str);
        SweepGoesOn(table, it, done, left, visitor, Swept(old(table), visitor));
        if fwd == null {
          table := table[..it] + table[it + 1..];
        } else if fwd != str {
          done := done + [Entry(table[it].key, fwd)];
          table := table[it := Entry(table[it].key, fwd)];
          it := it + 1;
        } else {
          done := done + [Entry(table[it].key, fwd)];
          it := it + 1;
        }
        left := left[1..];
      }
      SweepEnds(table, it, done, left, visitor, Swept(old(table), visitor));
      Strings := live;
    }

    /** The strings are in order, and each key is the hash of its string; contents may repeat. */
    ghost predicate Consistent()
      reads this, Strings
    {
      && (forall s {:trigger s in Strings} :: s in Strings ==> s.Valid())
      && (forall i {:trigger table[i]} :: 0 <= i < |table| ==> table[i].str in Strings)
      && Keyed(table)
    }

    /** The inner loop of the validity check: how many entries in its bucket a string compares equal to. */
    method CountEqual(outerString: EcmaString) returns (counter: nat)
      requires Consistent() && outerString in Strings
      modifies Strings`rawHashcode
      ensures Consistent()
      ensures counter == Matches(check, table, outerString.payload)
    {
      hide Keyed, SameString, Hash, Matches, EcmaString.Valid, EqualRange;
      counter := 0;
      var hashCode := outerString.GetHashcode();
      var range := EqualRange(table, hashCode);
      MatchesFrom(check, range, 0, outerString.payload);
      for it := 0 to |range|
        invariant Consistent()
        invariant counter + Matches(check, range[it..], outerString.payload) == Matches(check, range, outerString.payload)
      {
        var foundString := range[it].str;
        InEqualRange(table, hashCode, range[it]);
        var found := StringsAreEqual(check, foundString, outerString);
        MatchesFrom(check, range, it, outerString.payload);
        if found {
          counter := counter + 1;
        }
      }
      MatchesFrom(check, range, |range|, outerString.payload);
      MatchesInBucket(check, table, outerString.payload);
    }

    /** True exactly if no two entries compare equal. */
    method CheckStringTableValidity() returns (valid: bool)
      requires Consistent()
      modifies Strings`rawHashcode
      ensures Consistent()
      ensures valid <==> NoSameStrings(check, table)
      ensures valid <==> forall i, j :: 0 <= i < j < |table| ==> !SameString(check, table[i].str.payload, table[j].str.payload)
    {
      var itemOuter := 0;
      while itemOuter < |table|
        invariant 0 <= itemOuter <= |table|
        invariant Consistent()
        invariant MatchedOnce(check, table, itemOuter)
      {
        hide Keyed, SameString, Hash, NoSameStrings, Matches, MatchedOnce, EcmaString.Valid;
        var outerString := table[itemOuter].str;
        var counter := CountEqual(outerString);
        MatchedOnceUpTo(check, table, itemOuter);
        if counter > 1 {
          SameStringsIff(check, table);
          return false;
        }
        itemOuter := itemOuter + 1;
      }
      SameStringsIff(check, table);
      return true;
    }
  }

  ghost predicate NoSameStrings(check: SpanCheck, table: seq<Entry>) {
    forall i, j :: 0 <= i < j < |table| ==> !SameString(check, table[i].str.payload, table[j].str.payload)
  }

  /** How many entries compare equal to `p`. */
  ghost function Matches(check: SpanCheck, table: seq<Entry>, p: Payload): nat {
    if |table| == 0 then 0
    else (if SameString(check, table[0].str.payload, p) then 1 else 0) + Matches(check, table[1..], p)
  }

  /** Each of the first `n` entries compares equal to no entry but itself. */
  ghost predicate MatchedOnce(check: SpanCheck, table: seq<Entry>, n: nat) {
    n <= |table| && forall i {:trigger table[i]} :: 0 <= i < n ==> Matches(check, table, table[i].str.payload) <= 1
  }

  lemma MatchedOnceUpTo(check: SpanCheck, table: seq<Entry>, n: nat)
    requires n < |table|
    ensures MatchedOnce(check, table, n) && Matches(check, table, table[n].str.payload) <= 1 ==> MatchedOnce(check, table, n + 1)
    ensures Matches(check, table, table[n].str.payload) > 1 ==> !MatchedOnce(check, table, |table|)
  {
    hide Matches;
  }

  lemma MatchesFrom(check: SpanCheck, table: seq<Entry>, from: nat, p: Payload)
    requires from <= |table|
    ensures from == 0 ==> table[from..] == table
    ensures Matches(check, table[from..], p) ==
      if from == |table| then 0
      else (if SameString(check, table[from].str.payload, p) then 1 else 0) + Matches(check, table[from + 1..], p)
  {
    hide SameString;
    assert from < |table| ==> table[from..][0] == table[from] && table[from..][1..] == table[from + 1..];
  }

  lemma {:induction false} MatchesInBucket(check: SpanCheck, table: seq<Entry>, p: Payload)
    requires Keyed(table)
    ensures Matches(check, EqualRange(table, Hash(p.Units(), 0)), p) == Matches(check, table, p)
  {
    if |table| > 0 {
      hide Hash, SpansMatch;
      MatchesInBucket(check, table[1..], p);
      var rest := EqualRange(table[1..], Hash(p.Units(), 0));
      assert ([table[0]] + rest)[1..] == rest;
      assert [] + rest == rest;
    }
  }

  lemma {:induction false} MatchesAtLeast(check: SpanCheck, table: seq<Entry>, p: Payload, i: nat)
    requires i < |table| && SameString(check, table[i].str.payload, p)
    ensures Matches(check, table, p) >= 1
    ensures Matches(check, table[i + 1..], p) < Matches(check, table, p)
  {
    hide SameString;
    if i == 0 {
    } else {
      MatchesAtLeast(check, table[1..], p, i - 1);
      assert table[1..][i..] == table[i + 1..];
    }
  }

  /** Two entries compare equal exactly if some entry compares equal to more than itself. */
  lemma SameStringsIff(check: SpanCheck, table: seq<Entry>)
    ensures NoSameStrings(check, table) <==> MatchedOnce(check, table, |table|)
  {
    if i, j :| 0 <= i < j < |table| && SameString(check, table[i].str.payload, table[j].str.payload) {
      var p := table[j].str.payload;
      MatchesAtLeast(check, table, p, i);
      MatchesAtLeast(check, table[i + 1..], p, j - i - 1);
    }
    if NoSameStrings(check, table) {
      forall i | 0 <= i < |table|
        ensures Matches(check, table, table[i].str.payload) <= 1
      {
        MatchesOnce(check, table, i, 0);
      }
    }
  }

  lemma {:induction false} MatchesOnce(check: SpanCheck, table: seq<Entry>, i: nat, from: nat)
    requires i < |table| && NoSameStrings(check, table) && from <= |table|
    ensures Matches(check, table[from..], table[i].str.payload) == if from <= i then 1 else 0
    decreases |table| - from
  {
    if from < |table| {
      MatchesOnce(check, table, i, from + 1);
      assert table[from..][1..] == table[from + 1..];
      SameStringSymmetric(check, table[from].str.payload, table[i].str.payload);
    }
  }

  lemma SameStringSymmetric(check: SpanCheck, p: Payload, q: Payload)
    ensures SameString(check, p, q) <==> SameString(check, q, p)
    ensures SameString(check, p, p)
  {
  }

  /** The answer of the validity check in terms of contents. Where a 16-bit entry is not compared in full, contents can all
      differ and the check can fail (`ConfusedEntries.FailsValidTable`). */
  lemma NoSameStringsIff(check: SpanCheck, table: seq<Entry>)
    requires forall i {:trigger table[i]} :: 0 <= i < |table| ==> table[i].str.payload.Canonical()
    ensures NoSameStrings(check, table) ==> NoDuplicates(table)
    ensures (forall i {:trigger table[i]} :: 0 <= i < |table| ==> InFull(check, table[i].str.payload)) ==>
      (NoSameStrings(check, table) <==> NoDuplicates(table))
  {
    hide Hash, SameString;
    forall i, j | 0 <= i < j < |table|
      ensures table[i].str.Units() == table[j].str.Units() ==> SameString(check, table[i].str.payload, table[j].str.payload)
      ensures InFull(check, table[i].str.payload) && SameString(check, table[i].str.payload, table[j].str.payload) ==>
        table[i].str.Units() == table[j].str.Units()
    {
      SameStringIsEqual(check, table[i].str.payload, table[j].str.payload);
    }
  }

  /** A table after a sweep. */
  ghost function Swept(table: seq<Entry>, visitor: EcmaString -> EcmaString?): seq<Entry> {
    if |table| == 0 then []
    else
      var fwd := visitor(table[0].str);
      (if fwd == null then [] else [Entry(table[0].key, fwd)]) + Swept(table[1..], visitor)
  }

  /** The sweep keeps the order, and each entry's key. */
  lemma {:induction false} SweptConcat(table: seq<Entry>, more: seq<Entry>, visitor: EcmaString -> EcmaString?)
    ensures Swept(table + more, visitor) == Swept(table, visitor) + Swept(more, visitor)
    ensures |table| == 1 ==>
      var e, fwd := table[0], visitor(table[0].str);
      Swept(table, visitor) == if fwd == null then [] else [Entry(e.key, fwd)]
  {
    if |table| > 0 {
      assert (table + more)[1..] == table[1..] + more;
      SweptConcat(table[1..], more, visitor);
    } else {
      assert table + more == more;
    }
  }

  /** A survivor is what the visitor gives for some entry. */
  ghost predicate Survives(table: seq<Entry>, visitor: EcmaString -> EcmaString?, s: EcmaString) {
    exists i :: 0 <= i < |table| && visitor(table[i].str) == s
  }

  lemma {:induction false} SweptHolds(table: seq<Entry>, visitor: EcmaString -> EcmaString?)
    ensures forall s {:trigger Holds(Swept(table, visitor), s)} :: Holds(Swept(table, visitor), s) <==> Survives(table, visitor, s)
  {
    if |table| > 0 {
      var rest := Swept(table[1..], visitor);
      SweptHolds(table[1..], visitor);
      var t := Swept(table, visitor);
      var fwd := visitor(table[0].str);
      forall s
        ensures Holds(t, s) <==> s == fwd || Holds(rest, s)
        ensures Survives(table, visitor, s) <==> s == fwd || Survives(table[1..], visitor, s)
      {
        var n := if fwd == null then 0 else 1;
        if Holds(rest, s) {
          var i :| 0 <= i < |rest| && rest[i].str == s;
          assert t[n + i].str == s;
        }
        if s == fwd {
          assert t[0].str == s && visitor(table[0].str) == s;
        }
        if Survives(table[1..], visitor, s) {
          var i :| 0 <= i < |table[1..]| && visitor(table[1..][i].str) == s;
          assert visitor(table[i + 1].str) == s;
        }
      }
    }
  }

  ghost predicate KeepsContent(table: seq<Entry>, visitor: EcmaString -> EcmaString?) {
    forall i {:trigger table[i]} :: 0 <= i < |table| && visitor(table[i].str) != null ==>
      visitor(table[i].str).payload == table[i].str.payload
  }

  lemma Prepended(e: Entry, rest: seq<Entry>)
    ensures Keyed([e] + rest) <==> Keyed(rest) && e.key == Hash(e.str.Units(), 0)
    ensures NoDuplicates([e] + rest) <==> NoDuplicates(rest) && !Has(rest, e.str.Units())
    ensures forall q {:trigger Has([e] + rest, q)} :: Has([e] + rest, q) <==> Has(rest, q) || q == e.str.Units()
  {
    hide Hash;
    var t := [e] + rest;
    assert t[0] == e && t[1..] == rest;
    assert Keyed(rest) && e.key == Hash(e.str.Units(), 0) ==> Keyed(t);
    if Keyed(t) {
      assert forall i :: 0 <= i < |rest| ==> rest[i] == t[i + 1];
    }
    forall q
      ensures Has(t, q) <==> Has(rest, q) || q == e.str.Units()
    {
      if Has(rest, q) {
        var i :| 0 <= i < |rest| && rest[i].str.Units() == q;
        assert t[i + 1] == rest[i];
      }
      if Has(t, q) {
        var i :| 0 <= i < |t| && t[i].str.Units() == q;
        assert i > 0 ==> t[i] == rest[i - 1];
      }
    }
    if NoDuplicates(t) {
      forall i, j | 0 <= i < j < |rest|
        ensures rest[i].str.Units() != rest[j].str.Units()
      {
        assert t[i + 1] == rest[i] && t[j + 1] == rest[j];
      }
      forall j | 0 <= j < |rest|
        ensures rest[j].str.Units() != e.str.Units()
      {
        assert t[0] == e && t[j + 1] == rest[j];
      }
    }
  }

  /** Forwarding to equal contents keeps the keys right and the contents different. */
  lemma {:induction false} SweptKeeps(table: seq<Entry>, visitor: EcmaString -> EcmaString?)
    requires KeepsContent(table, visitor) && Keyed(table) && NoDuplicates(table)
    ensures Keyed(Swept(table, visitor)) && NoDuplicates(Swept(table, visitor))
    ensures forall q {:trigger Has(Swept(table, visitor), q)} :: Has(Swept(table, visitor), q) ==> Has(table, q)
  {
    if |table| > 0 {
      hide Hash;
      var rest, fwd := Swept(table[1..], visitor), visitor(table[0].str);
      assert table == [table[0]] + table[1..];
      Prepended(table[0], table[1..]);
      SweptKeeps(table[1..], visitor);
      if fwd != null {
        assert fwd.payload == table[0].str.payload;
        Prepended(Entry(table[0].key, fwd), rest);
      } else {
        assert [] + rest == rest;
      }
    }
  }

  /** During the sweep the table is what was gone through, `done`, and what is left; `swept` is what it will be. */
  ghost predicate Sweeping(table: seq<Entry>, it: nat, done: seq<Entry>, left: seq<Entry>,
                           visitor: EcmaString -> EcmaString?, swept: seq<Entry>) {
    table == done + left && it == |done| && done + Swept(left, visitor) == swept
  }

  lemma SweepStarts(table: seq<Entry>, visitor: EcmaString -> EcmaString?)
    ensures Sweeping(table, 0, [], table, visitor, Swept(table, visitor))
  {
  }

  lemma SweepGoesOn(table: seq<Entry>, it: nat, done: seq<Entry>, left: seq<Entry>,
                    visitor: EcmaString -> EcmaString?, swept: seq<Entry>)
    requires Sweeping(table, it, done, left, visitor, swept) && it < |table|
    ensures |left| > 0
    ensures var e := table[it];
      var fwd := visitor(e.str);
      && (fwd == null ==> Sweeping(table[..it] + table[it + 1..], it, done, left[1..], visitor, swept))
      && (fwd != null ==>
            Sweeping(table[it := Entry(e.key, fwd)], it + 1, done + [Entry(e.key, fwd)], left[1..], visitor, swept))
      && (fwd == e.str ==> table[it := Entry(e.key, e.str)] == table)
  {
    assert table[it] == left[0] && table[..it] == done && table[it + 1..] == left[1..];
    var fwd := visitor(left[0].str);
    if fwd == null {
      assert Swept(left, visitor) == Swept(left[1..], visitor);
    } else {
      var e := Entry(left[0].key, fwd);
      assert Swept(left, visitor) == [e] + Swept(left[1..], visitor);
      Regrouped(done, e, Swept(left[1..], visitor));
      assert table[it := e] == done + [e] + left[1..];
    }
  }

  lemma Regrouped(done: seq<Entry>, e: Entry, rest: seq<Entry>)
    ensures done + ([e] + rest) == done + [e] + rest
  {
  }

  lemma SweepEnds(table: seq<Entry>, it: nat, done: seq<Entry>, left: seq<Entry>,
                  visitor: EcmaString -> EcmaString?, swept: seq<Entry>)
    requires Sweeping(table, it, done, left, visitor, swept) && it == |table|
    ensures table == swept
  {
    assert left == [];
  }

  lemma StillHolds(before: seq<Entry>, after: seq<Entry>)
    requires before <= after
    ensures forall s {:trigger Holds(after, s)} :: Holds(before, s) ==> Holds(after, s)
  {
    forall s | Holds(before, s)
      ensures Holds(after, s)
    {
      var i :| 0 <= i < |before| && before[i].str == s;
      assert after[i].str == s;
    }
  }
}
