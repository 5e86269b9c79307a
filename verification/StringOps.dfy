/** Comparing, searching and matching strings, whatever their encodings. */
module StringOps {
  import opened StringData
  import opened Words
  import opened EcmaStrings

  /** The first difference among the first `count` units, or 0. */
  method CompareStringSpan(lhs: seq<Unit>, rhs: seq<Unit>, count: nat) returns (diff: int)
    requires count <= |lhs| && count <= |rhs|
    ensures diff == 0 ==> lhs[..count] == rhs[..count]
    ensures diff < 0 ==> exists k :: BeforeAt(lhs, rhs, k) && k < |lhs|
    ensures diff > 0 ==> exists k :: BeforeAt(rhs, lhs, k) && k < |rhs|
  {
    for i := 0 to count
      invariant lhs[..i] == rhs[..i]
    {
      var left: int, right: int := lhs[i], rhs[i];
      if left != right {
        assert BeforeAt(lhs, rhs, i) || BeforeAt(rhs, lhs, i);
        return left - right;
      }
    }
    return 0;
  }

  /** Negative, zero or positive as `lhs` comes before `rhs` in code-unit order, equals it or comes after it. */
  method Compare(lhs: EcmaString, rhs: EcmaString) returns (r: int)
    requires lhs.Valid() && rhs.Valid()
    ensures r < 0 <==> Before(lhs.Units(), rhs.Units())
    ensures r == 0 <==> lhs.Units() == rhs.Units()
    ensures r > 0 <==> Before(rhs.Units(), lhs.Units())
  {
    BeforeIrreflexiveAuto(lhs.Units(), rhs.Units());
    if lhs == rhs {
      return 0;
    }
    var lhsCount: int, rhsCount: int := lhs.GetLength(), rhs.GetLength();
    var countDiff := lhsCount - rhsCount;
    var minCount := if countDiff < 0 then lhsCount else rhsCount;
    var charDiff;
    if !lhs.IsUtf16() && !rhs.IsUtf16() {
      charDiff := CompareStringSpan(lhs.payload.bytes, rhs.payload.bytes, minCount);
    } else if !lhs.IsUtf16() {
      charDiff := CompareStringSpan(lhs.payload.bytes, rhs.payload.units, minCount);
    } else if !rhs.IsUtf16() {
      charDiff := CompareStringSpan(lhs.payload.units, rhs.payload.bytes, minCount);
    } else {
      charDiff := CompareStringSpan(lhs.payload.units, rhs.payload.units, minCount);
    }
    if charDiff != 0 {
      return charDiff;
    }
    assert countDiff < 0 ==> BeforeAt(lhs.Units(), rhs.Units(), minCount);
    assert countDiff > 0 ==> BeforeAt(rhs.Units(), lhs.Units(), minCount);
    return countDiff;
  }

  lemma BeforeIrreflexiveAuto(s: seq<Unit>, t: seq<Unit>)
    ensures !(Before(s, t) && Before(t, s)) && (s == t ==> !Before(s, t) && !Before(t, s))
  {
    if Before(s, t) {
      BeforeIrreflexive(s, t);
    }
    if Before(t, s) {
      BeforeIrreflexive(t, s);
    }
  }

  /** The first match of a non-empty needle at a place between `pos` and `max`. */
  method IndexOfSpan(lhs: seq<Unit>, rhs: seq<Unit>, pos: nat, max: int) returns (r: int)
    requires |rhs| > 0 && max == |lhs| - |rhs|
    ensures r == -1 || (pos <= r <= max && MatchAt(lhs, rhs, r))
    ensures forall k :: pos <= k < (if r == -1 then |lhs| else r) ==> !MatchAt(lhs, rhs, k)
  {
    hide MatchAt;
    NoRoom(lhs, rhs);
    var first := rhs[0];
    var i := pos;
    while i <= max
      invariant pos <= i
      invariant forall k :: pos <= k < i ==> !MatchAt(lhs, rhs, k)
      decreases max - i
    {
      if lhs[i] != first {
        NoMatch(lhs, rhs, i, 0);
        i := i + 1;
        while i <= max && lhs[i] != first
          invariant pos <= i
          invariant forall k :: pos <= k < i ==> !MatchAt(lhs, rhs, k)
          decreases max - i
        {
          NoMatch(lhs, rhs, i, 0);
          i := i + 1;
        }
      }
      if i <= max {
        var j, end, k := i + 1, i + |rhs|, 1;
        while j < end && lhs[j] == rhs[k]
          invariant i + 1 <= j <= end && k == j - i
          invariant forall m {:trigger rhs[m]} :: 0 <= m < k ==> lhs[i + m] == rhs[m]
        {
          j, k := j + 1, k + 1;
        }
        if j == end {
          Match(lhs, rhs, i);
          return i;
        }
        NoMatch(lhs, rhs, i, k);
      }
      i := i + 1;
    }
    return -1;
  }

  lemma Match(s: seq<Unit>, needle: seq<Unit>, i: nat)
    requires i + |needle| <= |s| && forall m {:trigger needle[m]} :: 0 <= m < |needle| ==> s[i + m] == needle[m]
    ensures MatchAt(s, needle, i)
  {
  }

  lemma NoRoom(s: seq<Unit>, needle: seq<Unit>)
    ensures forall i {:trigger MatchAt(s, needle, i)} :: i > |s| - |needle| ==> !MatchAt(s, needle, i)
  {
  }

  /** A difference at `k` units from `i` rules a match at `i` out. */
  lemma NoMatch(s: seq<Unit>, needle: seq<Unit>, i: nat, k: nat)
    requires k < |needle| && i + k < |s| && s[i + k] != needle[k]
    ensures !MatchAt(s, needle, i)
  {
    if i + |needle| <= |s| {
      assert s[i..i + |needle|][k] == s[i + k];
    }
  }

  /** The place of the first match at `pos` or after; an absent needle is not found and an empty one is found at `pos`. */
  method IndexOf(lhs: EcmaString, rhs: EcmaString?, pos: int) returns (r: int)
    requires lhs.Valid() && (rhs != null ==> rhs.Valid())
    ensures rhs == null || pos > |lhs.Units()| ==> r == -1
    ensures rhs != null && pos <= |lhs.Units()| && rhs.Units() == [] ==> r == pos
    ensures rhs != null && rhs.Units() != [] ==>
      var from := if pos < 0 then 0 else pos;
      && (r == -1 || (from <= r && MatchAt(lhs.Units(), rhs.Units(), r)))
      && forall k :: from <= k && (r == -1 || k < r) ==> !MatchAt(lhs.Units(), rhs.Units(), k)
  {
    if rhs == null {
      return -1;
    }
    var lhsCount: int, rhsCount: int := lhs.GetLength(), rhs.GetLength();
    if pos > lhsCount {
      return -1;
    }
    if rhsCount == 0 {
      return pos;
    }
    var from := if pos < 0 then 0 else pos;
    var max := lhsCount - rhsCount;
    if max < 0 {
      return -1;
    }
    if rhs.IsUtf8() && lhs.IsUtf8() {
      r := IndexOfSpan(lhs.payload.bytes, rhs.payload.bytes, from, max);
    } else if rhs.IsUtf16() && lhs.IsUtf16() {
      r := IndexOfSpan(lhs.payload.units, rhs.payload.units, from, max);
    } else if rhs.IsUtf16() {
      r := IndexOfSpan(lhs.payload.bytes, rhs.payload.units, from, max);
    } else {
      r := IndexOfSpan(lhs.payload.units, rhs.payload.bytes, from, max);
    }
  }

  /** 8-bit spans of equal length. */
  method StringsAreEquals8(str1: seq<Byte>, str2: seq<Byte>) returns (r: bool)
    requires |str1| == |str2|
    ensures r <==> str1 == str2
  {
    if |str1| < SMALL_STRING_SIZE {
      for i := 0 to |str1|
        invariant str1[..i] == str2[..i]
      {
        if str1[i] != str2[i] {
          return false;
        }
      }
      return true;
    }
    return str1 == str2;
  }

  /** 16-bit spans of equal length: short ones unit by unit, long ones as memory. */
  method StringsAreEquals16(check: SpanCheck, str1: seq<Unit>, str2: seq<Unit>) returns (r: bool)
    requires |str1| == |str2|
    ensures r <==> SpansMatch(check, str1, str2)
    ensures r <==> forall i {:trigger str1[i]} {:trigger str2[i]} :: 0 <= i < |str1| ==>
      && (|str1| < 128 || check == AllBytes || 2 * i + 1 < |str1| ==> str1[i] == str2[i])
      && (2 * i + 1 == |str1| ==> str1[i] % 0x100 == str2[i] % 0x100)
  {
    SpansMatchIff(check, str1, str2);
    var size := |str1|;
    if size < SMALL_STRING_SIZE {
      for i := 0 to size
        invariant str1[..i] == str2[..i]
      {
        if str1[i] != str2[i] {
          return false;
        }
      }
      return true;
    }
    var count := if check.AllBytes? then 2 * size else size;
    r := UnitBytes(str1)[..count] == UnitBytes(str2)[..count];
    if check.AllBytes? {
      BytesDetermineUnits(str1, str2);
    }
  }

  lemma BytesDetermineUnits(s: seq<Unit>, t: seq<Unit>)
    requires |s| == |t|
    ensures UnitBytes(s)[..2 * |s|] == UnitBytes(t)[..2 * |t|] <==> s == t
  {
    hide UnitBytes;
    var a, b := UnitBytes(s), UnitBytes(t);
    assert a[..2 * |s|] == a && b[..2 * |t|] == b;
    if a == b {
      forall i | 0 <= i < |s|
        ensures s[i] == t[i]
      {
        UnitFromBytes(s, i);
        UnitFromBytes(t, i);
      }
    }
  }

  /** Bytes against 16-bit units, converted only as far as one unit more than there are of these: the answer is that of the
      full decoding unless the conversion stops short, and then that of the part that was converted. */
  method IsUtf8EqualsUtf16(check: SpanCheck, utf8Data: seq<Byte>, utf16Data: seq<Unit>, codec: Codec) returns (r: bool)
    requires codec.Lawful()
    ensures var units := codec.decode(utf8Data);
      r <==> if codec.StopsShort(utf8Data, |utf16Data|) then SpansMatch(check, units[..|utf16Data|], utf16Data)
             else SpansMatch(check, units, utf16Data)
  {
    hide UnitBytes;
    var utf8ConvertLength := |utf16Data| + 1;
    var tmpBuffer := codec.convert(utf8Data, utf8ConvertLength);
    ghost var units := codec.decode(utf8Data);
    assert tmpBuffer == units[..|tmpBuffer|];
    if |tmpBuffer| != |utf16Data| {
      return false;
    }
    r := StringsAreEquals16(check, tmpBuffer, utf16Data);
    assert |tmpBuffer| == |units| ==> tmpBuffer == units;
  }

  /** The answer for data of `n` units is that of the full decoding, whatever the data, exactly if the conversion does not
      stop at `n` units with more left to decode. */
  lemma BoundedIsExactIff(check: SpanCheck, utf8Data: seq<Byte>, n: nat, codec: Codec)
    requires codec.Lawful()
    ensures !codec.StopsShort(utf8Data, n) <==>
      forall utf16Data: seq<Unit> {:trigger SpansMatch(check, codec.decode(utf8Data), utf16Data)} :: |utf16Data| == n ==>
        (SpansMatch(check, codec.convert(utf8Data, n + 1), utf16Data) <==> SpansMatch(check, codec.decode(utf8Data), utf16Data))
  {
    hide UnitBytes;
    var units, part := codec.decode(utf8Data), codec.convert(utf8Data, n + 1);
    if codec.StopsShort(utf8Data, n) {
      EqualSpansMatch(check, part, part);
      assert !SpansMatch(check, units, part);
    } else {
      assert |part| == n ==> part == units;
    }
  }

  /** A string against 16-bit data: same length, and the spans match. */
  method StringsAreEqualUtf16(check: SpanCheck, str1: EcmaString, utf16Data: seq<Unit>, codec: Codec) returns (r: bool)
    requires str1.Valid() && codec.Lawful()
    ensures r <==> SpansMatch(check, str1.Units(), utf16Data)
  {
    if str1.GetLength() != |utf16Data| {
      r := false;
    } else if !str1.IsUtf16() {
      assert codec.decode(str1.payload.bytes) == str1.Units();
      r := IsUtf8EqualsUtf16(check, str1.payload.bytes, utf16Data, codec);
    } else {
      r := StringsAreEquals16(check, str1.payload.units, utf16Data);
    }
  }

  /** What the comparison with UTF-8 data answers: equality for compressible data, and for other data whether a 16-bit
      string matches the decoding, or, if the conversion stops short there, as much of it. */
  ghost predicate MatchesUtf8(check: SpanCheck, p: Payload, utf8Data: seq<Byte>, canBeCompress: bool, codec: Codec) {
    var units, n := codec.decode(utf8Data), |p.Units()|;
    if canBeCompress then p.Units() == units
    else p.Utf16? && SpansMatch(check, if codec.StopsShort(utf8Data, n) then units[..n] else units, p.Units())
  }

  /** A string against UTF-8 data. The early exit on the encoding is right because encodings are canonical. */
  method StringsAreEqualUtf8(check: SpanCheck, str1: EcmaString, utf8Data: seq<Byte>, canBeCompress: bool, codec: Codec)
    returns (r: bool)
    requires str1.Valid() && codec.Lawful() && Utf8Input(utf8Data, canBeCompress, codec)
    ensures r <==> MatchesUtf8(check, str1.payload, utf8Data, canBeCompress, codec)
    ensures canBeCompress ==> (r <==> str1.Units() == codec.decode(utf8Data))
    ensures !canBeCompress && !codec.StopsShort(utf8Data, |str1.Units()|) ==>
      (r <==> str1.payload.Utf16? && SpansMatch(check, codec.decode(utf8Data), str1.Units()))
    ensures !canBeCompress && codec.StopsShort(utf8Data, |str1.Units()|) ==>
      (r <==> str1.payload.Utf16? && SpansMatch(check, codec.decode(utf8Data)[..|str1.Units()|], str1.Units()))
    ensures str1.Units() == codec.decode(utf8Data) ==> r
  {
    if canBeCompress != str1.IsUtf8() {
      return false;
    }
    if canBeCompress && str1.GetLength() != |utf8Data| {
      return false;
    }
    if canBeCompress {
      r := StringsAreEquals8(str1.payload.bytes, utf8Data);
      return;
    }
    r := IsUtf8EqualsUtf16(check, utf8Data, str1.payload.units, codec);
  }

  method StringsAreEqualSameUtfEncoding(check: SpanCheck, str1: EcmaString, str2: EcmaString) returns (r: bool)
    requires str1.Valid() && str2.Valid() && str1.payload.Utf8? == str2.payload.Utf8? && |str1.Units()| == |str2.Units()|
    ensures r <==> if str1.payload.Utf8? then str1.Units() == str2.Units() else SpansMatch(check, str1.Units(), str2.Units())
  {
    if str1.IsUtf16() {
      r := StringsAreEquals16(check, str1.payload.units, str2.payload.units);
    } else {
      r := StringsAreEquals8(str1.payload.bytes, str2.payload.bytes);
    }
  }

  /** Two strings of equal hash and, if not of bytes, of matching spans. */
  ghost predicate SameString(check: SpanCheck, p: Payload, q: Payload) {
    && Hash(p.Units(), 0) == Hash(q.Units(), 0)
    && p.Utf8? == q.Utf8?
    && if p.Utf8? then p.Units() == q.Units() else SpansMatch(check, p.Units(), q.Units())
  }

  method StringsAreEqual(check: SpanCheck, str1: EcmaString, str2: EcmaString) returns (r: bool)
    requires str1.Valid() && str2.Valid()
    modifies str1`rawHashcode, str2`rawHashcode
    ensures str1.Valid() && str2.Valid()
    ensures r <==> SameString(check, str1.payload, str2.payload)
    ensures r <==>
      && Hash(str1.Units(), 0) == Hash(str2.Units(), 0) && str1.payload.Utf8? == str2.payload.Utf8?
      && if str1.payload.Utf8? then str1.Units() == str2.Units() else SpansMatch(check, str1.Units(), str2.Units())
  {
    if str1.IsUtf16() != str2.IsUtf16() || str1.GetLength() != str2.GetLength() {
      return false;
    }
    var hash1 := str1.GetHashcode();
    var hash2 := str2.GetHashcode();
    if hash1 != hash2 {
      return false;
    }
    r := StringsAreEqualSameUtfEncoding(check, str1, str2);
  }

  /** The parts of `p` match `p1` and `p2` in turn. */
  ghost predicate Spliced(check: SpanCheck, p: Payload, p1: Payload, p2: Payload) {
    var s, n := p.Units(), |p1.Units()|;
    && |s| == n + |p2.Units()|
    && if p.Utf8? then s == p1.Units() + p2.Units()
       else (p1.Utf16? || p2.Utf16?) && SpansMatch(check, p1.Units(), s[..n]) && SpansMatch(check, p2.Units(), s[n..])
  }

  method EqualToSplicedString(check: SpanCheck, str: EcmaString, str1: EcmaString, str2: EcmaString, codec: Codec) returns (r: bool)
    requires str.Valid() && str1.Valid() && str2.Valid() && codec.Lawful()
    ensures r <==> Spliced(check, str.payload, str1.payload, str2.payload)
    ensures r <==>
      var s, n := str.Units(), |str1.Units()|;
      && |s| == n + |str2.Units()|
      && (str.payload.Utf8? ==> s == str1.Units() + str2.Units())
      && (str.payload.Utf16? ==> str1.payload.Utf16? || str2.payload.Utf16?)
      && (str.payload.Utf16? ==> SpansMatch(check, str1.Units(), s[..n]) && SpansMatch(check, str2.Units(), s[n..]))
  {
    var length1, length2 := str1.GetLength(), str2.GetLength();
    if str.GetLength() != length1 + length2 {
      return false;
    }
    AsciiConcat(str1.Units(), str2.Units());
    if str.IsUtf16() {
      if str1.IsUtf8() && str2.IsUtf8() {
        return false;
      }
      r := StringsAreEqualUtf16(check, str1, str.payload.units[..length1], codec);
      if r {
        r := StringsAreEqualUtf16(check, str2, str.payload.units[length1..], codec);
      }
    } else {
      if str1.IsUtf16() || str2.IsUtf16() {
        return false;
      }
      assert str.Units() == str.Units()[..length1] + str.Units()[length1..];
      r := StringsAreEquals8(str.payload.bytes[..length1], str1.payload.bytes);
      if r {
        r := StringsAreEquals8(str.payload.bytes[length1..], str2.payload.bytes);
      }
    }
  }

  /** Where the comparison with two parts compares all of both: with two byte strings, and with short parts. */
  ghost predicate SpliceExact(check: SpanCheck, p1: Payload, p2: Payload) {
    (p1.Utf8? && p2.Utf8?) || (Exact(check, |p1.Units()|) && Exact(check, |p2.Units()|))
  }

  /** A spliced string is the two parts joined; its early exits lose nothing because encodings are canonical. */
  lemma SplicedIsConcat(check: SpanCheck, p: Payload, p1: Payload, p2: Payload)
    requires p.Canonical() && p1.Canonical() && p2.Canonical()
    ensures p.Units() == p1.Units() + p2.Units() ==> Spliced(check, p, p1, p2)
    ensures SpliceExact(check, p1, p2) && Spliced(check, p, p1, p2) ==> p.Units() == p1.Units() + p2.Units()
  {
    var s, n := p.Units(), |p1.Units()|;
    AsciiConcat(p1.Units(), p2.Units());
    if |s| == n + |p2.Units()| {
      assert s == s[..n] + s[n..];
      EqualSpansMatch(check, p1.Units(), s[..n]);
      EqualSpansMatch(check, p2.Units(), s[n..]);
    }
  }

  /** Two parts, one of them long, that match two other ones of the same hash, with the unit at `m` as it was. */
  lemma TwinSplice(s1: seq<Unit>, s2: seq<Unit>, m: nat) returns (t1: seq<Unit>, t2: seq<Unit>)
    requires |s1| >= SMALL_STRING_SIZE || |s2| >= SMALL_STRING_SIZE
    requires m < |s1 + s2|
    ensures SpansMatch(ElementCountBytes, s1, t1) && SpansMatch(ElementCountBytes, s2, t2) && (t1 != s1 || t2 != s2)
    ensures Hash(t1 + t2, 0) == Hash(s1 + s2, 0) && |t1 + t2| == |s1 + s2| && (t1 + t2)[m] == (s1 + s2)[m]
  {
    hide Hash, SpansMatch, Twin;
    t1, t2 := s1, s2;
    HashConcat(s1, s2, 0);
    EqualSpansMatch(ElementCountBytes, s1, s1);
    EqualSpansMatch(ElementCountBytes, s2, s2);
    if |s1| >= SMALL_STRING_SIZE {
      TwinIsConfused(s1, m);
      t1 := Twin(s1, m);
    } else {
      var m2 := if m < |s1| then 0 else m - |s1|;
      TwinIsConfused(s2, m2);
      t2 := Twin(s2, m2);
      assert Hash(t2, Hash(s1, 0)) == Hash(s2, Hash(s1, 0));
    }
    HashConcat(t1, t2, 0);
  }

  lemma Halves(s: seq<Unit>, t: seq<Unit>)
    ensures (s + t)[..|s|] == s && (s + t)[|s|..] == t
  {
  }

  /** Outside that, two parts match a string of the same hash that is not the two joined. */
  lemma SplicedTwin(check: SpanCheck, p1: Payload, p2: Payload) returns (p: Payload)
    requires p1.Canonical() && p2.Canonical() && !SpliceExact(check, p1, p2)
    ensures p.Canonical() && Spliced(check, p, p1, p2)
    ensures p.Units() != p1.Units() + p2.Units() && Hash(p.Units(), 0) == Hash(p1.Units() + p2.Units(), 0)
  {
    hide Hash, SpansMatch;
    var s1, s2 := p1.Units(), p2.Units();
    AsciiConcat(s1, s2);
    var m :| 0 <= m < |s1 + s2| && !(1 <= (s1 + s2)[m] <= UTF8_1B_MAX);
    var t1, t2 := TwinSplice(s1, s2, m);
    p := Utf16(t1 + t2);
    EqualSpansMatch(check, s1, t1);
    Halves(t1, t2);
    Halves(s1, s2);
  }

  /** Whatever the string, of the same hash or not: the match is equality with the two parts joined exactly there. */
  lemma SpliceIsExactIff(check: SpanCheck, p1: Payload, p2: Payload)
    requires p1.Canonical() && p2.Canonical()
    ensures SpliceExact(check, p1, p2) <==>
      forall p: Payload :: p.Canonical() && Spliced(check, p, p1, p2) ==> p.Units() == p1.Units() + p2.Units()
    ensures SpliceExact(check, p1, p2) <==>
      forall p: Payload :: p.Canonical() && Spliced(check, p, p1, p2) && Hash(p.Units(), 0) == Hash(p1.Units() + p2.Units(), 0) ==>
        p.Units() == p1.Units() + p2.Units()
  {
    hide Hash, Spliced;
    if SpliceExact(check, p1, p2) {
      forall p: Payload | p.Canonical() && Spliced(check, p, p1, p2)
        ensures p.Units() == p1.Units() + p2.Units()
      {
        SplicedIsConcat(check, p, p1, p2);
      }
    } else {
      var p := SplicedTwin(check, p1, p2);
    }
  }

  /** Where the comparison with a string of the same encoding and length compares all of it. */
  ghost predicate InFull(check: SpanCheck, p: Payload) {
    p.Utf8? || Exact(check, |p.Units()|)
  }

  lemma SameStringIsEqual(check: SpanCheck, p: Payload, q: Payload)
    requires p.Canonical() && q.Canonical()
    ensures p.Units() == q.Units() ==> SameString(check, p, q)
    ensures SameString(check, p, q) ==> p.Utf8? == q.Utf8? && |p.Units()| == |q.Units()|
    ensures InFull(check, p) && SameString(check, p, q) ==> p.Units() == q.Units()
  {
    EqualSpansMatch(check, p.Units(), q.Units());
  }

  /** Comparing with a string is equality of contents if it is of bytes or its span is compared in full, and else there is
      a different one that compares equal. */
  lemma SameStringIsExactIff(check: SpanCheck, q: Payload)
    requires q.Canonical()
    ensures InFull(check, q) <==>
      forall p: Payload :: p.Canonical() && SameString(check, p, q) ==> p.Units() == q.Units()
  {
    hide Hash, SpansMatch;
    if InFull(check, q) {
      forall p: Payload | p.Canonical() && SameString(check, p, q)
        ensures p.Units() == q.Units()
      {
        SameStringIsEqual(check, p, q);
      }
    } else {
      ConfusableIff(q.Units());
      var t :| !AllAscii(t) && Confused(q.Units(), t);
      SpansMatchSymmetric(check, q.Units(), t);
      assert SameString(check, Utf16(t), q);
    }
  }

  lemma SpansMatchSymmetric(check: SpanCheck, s: seq<Unit>, t: seq<Unit>)
    ensures SpansMatch(check, s, t) <==> SpansMatch(check, t, s)
  {
  }

  /** With UTF-8 data, matching strings of the hash looked for have its content where spans are compared in full, unless
      the conversion can stop at a beginning that needs 16 bits and has the hash of the whole. */
  ghost predicate Utf8Exact(check: SpanCheck, utf8Data: seq<Byte>, canBeCompress: bool, codec: Codec) {
    var units := codec.decode(utf8Data);
    canBeCompress || (Exact(check, |units|) && forall n: nat {:trigger codec.StopsShort(utf8Data, n)} ::
      codec.StopsShort(utf8Data, n) ==> AllAscii(units[..n]) || Hash(units[..n], 0) != Hash(units, 0))
  }

  lemma MatchesUtf8IsEqual(check: SpanCheck, p: Payload, utf8Data: seq<Byte>, canBeCompress: bool, codec: Codec)
    requires p.Canonical() && Utf8Input(utf8Data, canBeCompress, codec)
    ensures p.Units() == codec.decode(utf8Data) ==> MatchesUtf8(check, p, utf8Data, canBeCompress, codec)
    ensures MatchesUtf8(check, p, utf8Data, canBeCompress, codec) ==>
      var same, units := p.Units() == codec.decode(utf8Data), codec.decode(utf8Data);
      && (!codec.StopsShort(utf8Data, |p.Units()|) && (canBeCompress || Exact(check, |units|)) ==> same)
      && (Utf8Exact(check, utf8Data, canBeCompress, codec) && Hash(p.Units(), 0) == Hash(units, 0) ==> same)
  {
    hide Hash, UnitBytes;
  }

  lemma Utf8IsExactIff(check: SpanCheck, utf8Data: seq<Byte>, canBeCompress: bool, codec: Codec)
    requires Utf8Input(utf8Data, canBeCompress, codec)
    ensures Utf8Exact(check, utf8Data, canBeCompress, codec) <==>
      forall p: Payload :: p.Canonical() && MatchesUtf8(check, p, utf8Data, canBeCompress, codec) ==>
        Hash(p.Units(), 0) == Hash(codec.decode(utf8Data), 0) ==> p.Units() == codec.decode(utf8Data)
  {
    hide Hash, UnitBytes;
    var units := codec.decode(utf8Data);
    if Utf8Exact(check, utf8Data, canBeCompress, codec) {
      forall p: Payload | p.Canonical() && MatchesUtf8(check, p, utf8Data, canBeCompress, codec) && Hash(p.Units(), 0) == Hash(units, 0)
        ensures p.Units() == units
      {
        MatchesUtf8IsEqual(check, p, utf8Data, canBeCompress, codec);
      }
    } else if !Exact(check, |units|) {
      ConfusableIff(units);
      var t :| !AllAscii(t) && Confused(units, t);
      assert MatchesUtf8(check, Utf16(t), utf8Data, canBeCompress, codec);
    } else {
      var n: nat :| codec.StopsShort(utf8Data, n) && !AllAscii(units[..n]) && Hash(units[..n], 0) == Hash(units, 0);
      EqualSpansMatch(check, units[..n], units[..n]);
      assert MatchesUtf8(check, Utf16(units[..n]), utf8Data, canBeCompress, codec);
    }
  }

  /** Matching 16-bit data of the same hash is equality with it exactly if the span is compared in full. */
  lemma SpanIsExactIff(check: SpanCheck, utf16Data: seq<Unit>)
    ensures Exact(check, |utf16Data|) <==>
      forall s :: SpansMatch(check, s, utf16Data) && Hash(s, 0) == Hash(utf16Data, 0) ==> s == utf16Data
  {
    hide Hash, UnitBytes;
    if !Exact(check, |utf16Data|) {
      TwinIsConfused(utf16Data, 0);
      var t := Twin(utf16Data, 0);
      SpansMatchSymmetric(check, utf16Data, t);
      assert SpansMatch(check, t, utf16Data);
    }
  }
}
