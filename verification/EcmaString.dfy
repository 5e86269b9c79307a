/** Strings stored as bytes when every unit is a non-NUL ASCII character and as 16-bit units otherwise. */
module EcmaStrings {
  import opened StringData
  import opened Words

  const MAX_STRING_LENGTH: nat := 0x4000_0000

  /** The stored data in one of the two encodings. */
  datatype Payload = Utf8(bytes: seq<Byte>) | Utf16(units: seq<Unit>)
  {
    /** The string itself, whatever its encoding. */
    function Units(): seq<Unit> {
      if Utf8? then bytes else units
    }

    ghost predicate Canonical() {
      Utf8? <==> AllAscii(Units())
    }
  }

  /** The encoding of a string in canonical form is determined by its units. */
  lemma CanonicalIsUnique(p: Payload, q: Payload)
    requires p.Canonical() && q.Canonical() && p.Units() == q.Units()
    ensures p == q
  {
  }

  ghost function Encoded(units: seq<Unit>): (p: Payload)
    ensures p.Canonical() && p.Units() == units
  {
    if AllAscii(units) then Utf8(units) else Utf16(units)
  }

  lemma Packed(length: nat, bit: nat)
    requires bit < 2
    ensures var m := length * 4 + bit; m / 4 == length && m % 2 == bit && m / 2 % 2 == 0
  {
    var m, h := length * 4 + bit, length * 2;
    assert m == h * 2 + bit;
    assert m / 2 == h;
    assert h % 2 == 0;
  }

  /** Setting the flag bit of a header that has it clear, or clearing it, leaves the other fields as they were. */
  lemma FlagBit(header: nat)
    ensures header / 2 % 2 == 0 ==>
      (header + 2) / 4 == header / 4 && (header + 2) % 2 == header % 2 && (header + 2) / 2 % 2 == 1
    ensures header / 2 % 2 == 1 ==>
      (header - 2) / 4 == header / 4 && (header - 2) % 2 == header % 2 && (header - 2) / 2 % 2 == 0
  {
    var length, flag, bit := header / 4, header / 2 % 2, header % 2;
    assert header / 2 == 2 * length + flag;
    assert header == 4 * length + 2 * flag + bit;
  }

  class EcmaString {
    const payload: Payload
    var mixLength: U32
    var rawHashcode: U32

    /** The header: length, intern flag and encoding packed in one word, and the hash, if it is cached. */
    ghost predicate Valid()
      reads this
    {
      && payload.Canonical()
      && |payload.Units()| < MAX_STRING_LENGTH
      && GetLength() == |payload.Units()|
      && IsUtf16() == payload.Utf16?
      && (rawHashcode == 0 || rawHashcode == Hash(payload.Units(), 0))
    }

    ghost function Units(): seq<Unit> {
      payload.Units()
    }

    /** The header bit by bit, and which strings are kept as bytes. */
    lemma Header()
      requires Valid()
      ensures mixLength == 4 * |Units()| + (if IsInternString() then 2 else 0) + (if payload.Utf16? then 1 else 0)
      ensures payload.Utf8? <==> forall i {:trigger Units()[i]} :: 0 <= i < |Units()| ==> 1 <= Units()[i] < 0x80
    {
      var length, flag, bit := mixLength / 4, mixLength / 2 % 2, mixLength % 2;
      assert mixLength / 2 == 2 * length + flag;
    }

    constructor (payload: Payload)
      requires payload.Canonical() && |payload.Units()| < MAX_STRING_LENGTH
      ensures Valid() && this.payload == payload && !IsInternString()
    {
      Packed(|payload.Units()|, if payload.Utf8? then 0 else 1);
      this.payload := payload;
      mixLength := |payload.Units()| * 4 + if payload.Utf8? then 0 else 1;
      rawHashcode := 0;
    }

    predicate IsUtf16()
      reads this
    {
      mixLength % 2 == 1
    }

    predicate IsUtf8()
      reads this
    {
      mixLength % 2 == 0
    }

    function GetLength(): nat
      reads this
    {
      mixLength / 4
    }

    predicate IsInternString()
      reads this
    {
      mixLength / 2 % 2 == 1
    }

    method SetIsInternString()
      requires Valid()
      modifies `mixLength
      ensures Valid() && IsInternString()
    {
      FlagBit(mixLength);
      mixLength := if mixLength / 2 % 2 == 1 then mixLength else mixLength + 2;
    }

    method ClearInternStringFlag()
      requires Valid()
      modifies `mixLength
      ensures Valid() && !IsInternString()
    {
      FlagBit(mixLength);
      mixLength := if mixLength / 2 % 2 == 1 then mixLength - 2 else mixLength;
    }

    /** The unit at `index`; out of range it is 0. */
    method At(index: int) returns (unit: Unit)
      requires Valid()
      ensures unit == if 0 <= index < |Units()| then Units()[index] else 0
    {
      var length := GetLength();
      if index < 0 || index >= length {
        return 0;
      }
      if !IsUtf16() {
        return payload.bytes[index];
      }
      return payload.units[index];
    }

    method ComputeHashcode(hashSeed: U32) returns (hash: U32)
      requires Valid()
      ensures hash == Hash(Units(), hashSeed)
    {
      if !IsUtf16() {
        hash := ComputeHashForData(payload.bytes, hashSeed);
      } else {
        hash := ComputeHashForData(payload.units, hashSeed);
      }
    }

    /** The hash, computed at most once unless it is 0. */
    method GetHashcode() returns (hashcode: U32)
      requires Valid()
      modifies `rawHashcode
      ensures Valid() && hashcode == Hash(Units(), 0)
    {
      hashcode := rawHashcode;
      if hashcode == 0 && GetLength() != 0 {
        hashcode := ComputeHashcode(0);
        rawHashcode := hashcode;
      }
    }
  }

  /** Shifting left by five and subtracting, each wrapping around, multiplies by 31. */
  lemma ShiftAndSubtract(hash: U32, c: Unit)
    ensures (hash * 32 % 0x1_0000_0000 - hash + c) % 0x1_0000_0000 == (31 * hash + c) % 0x1_0000_0000
  {
    var q := hash * 32 / 0x1_0000_0000;
    assert hash * 32 % 0x1_0000_0000 == hash * 32 - q * 0x1_0000_0000;
    WrapAround(31 * hash + c, q);
  }

  method ComputeHashForData(data: seq<Unit>, hashSeed: U32) returns (hash: U32)
    ensures hash == Hash(data, hashSeed)
  {
    hash := hashSeed;
    for i := 0 to |data|
      invariant Hash(data[i..], hash) == Hash(data, hashSeed)
    {
      assert data[i..][0] == data[i] && data[i..][1..] == data[i + 1..];
      var shifted := hash * 32 % 0x1_0000_0000;
      ShiftAndSubtract(hash, data[i]);
      hash := (shifted - hash + data[i]) % 0x1_0000_0000;
    }
  }

  method CanBeCompressed(data: seq<Unit>) returns (isCompressed: bool)
    ensures isCompressed <==> AllAscii(data)
  {
    isCompressed := true;
    var index := 0;
    while index < |data|
      invariant 0 <= index <= |data| && isCompressed
      invariant AllAscii(data[..index])
    {
      if !IsASCIICharacter(data[index]) {
        isCompressed := false;
        break;
      }
      assert data[..index + 1] == data[..index] + [data[index]];
      index := index + 1;
    }
    assert isCompressed ==> data[..index] == data;
  }

  /** Copies `src` into a buffer from `start` on; bytes become 16-bit units if the buffer is one of these. */
  method StringCopy<T>(dst: array<T>, start: nat, src: seq<T>)
    requires start + |src| <= dst.Length
    modifies dst
    ensures dst[..] == old(dst[..start]) + src + old(dst[start + |src|..])
  {
    for i := 0 to |src|
      invariant forall k :: 0 <= k < dst.Length ==> dst[k] == if start <= k < start + i then src[k - start] else old(dst[k])
    {
      dst[start + i] := src[i];
    }
  }

  /** Narrows 16-bit units to bytes. */
  method CopyUtf16AsUtf8(from: seq<Unit>, to: array<Byte>)
    requires to.Length == |from|
    modifies to
    ensures AllAscii(from) ==> to[..] == from
  {
    for i := 0 to |from|
      invariant forall k :: 0 <= k < i ==> to[k] == from[k] % 0x100
    {
      to[i] := from[i] % 0x100;
    }
  }

  /** The joined string, in canonical form; joining two empty strings gives the global empty string. */
  method Concat(string1: EcmaString, string2: EcmaString, empty: EcmaString) returns (r: EcmaString)
    requires string1.Valid() && string2.Valid() && empty.Valid() && empty.Units() == []
    requires |string1.Units()| + |string2.Units()| < MAX_STRING_LENGTH
    ensures r.Valid() && r.Units() == string1.Units() + string2.Units()
    ensures if r.Units() == [] then r == empty else fresh(r) && !r.IsInternString()
  {
    var length1 := string1.GetLength();
    var length2 := string2.GetLength();
    var newLength := length1 + length2;
    if newLength == 0 {
      return empty;
    }
    AsciiConcat(string1.Units(), string2.Units());
    var compressed := !string1.IsUtf16() && !string2.IsUtf16();
    if compressed {
      var sp := new Byte[newLength];
      StringCopy(sp, 0, string1.payload.bytes);
      assert sp[..length1] == string1.Units();
      StringCopy(sp, length1, string2.payload.bytes);
      assert sp[..] == string1.Units() + string2.Units();
      r := new EcmaString(Utf8(sp[..]));
    } else {
      var sp := new Unit[newLength];
      if !string1.IsUtf16() {
        StringCopy(sp, 0, string1.payload.bytes);
      } else {
        StringCopy(sp, 0, string1.payload.units);
      }
      assert sp[..length1] == string1.Units();
      if !string2.IsUtf16() {
        StringCopy(sp, length1, string2.payload.bytes);
      } else {
        StringCopy(sp, length1, string2.payload.units);
      }
      assert sp[..] == string1.Units() + string2.Units();
      r := new EcmaString(Utf16(sp[..]));
    }
  }

  /** The units from `start` on, in canonical form. */
  method FastSubString(src: EcmaString, start: nat, length: nat, empty: EcmaString) returns (r: EcmaString)
    requires src.Valid() && empty.Valid() && empty.Units() == [] && start + length <= |src.Units()|
    ensures r.Valid() && r.Units() == src.Units()[start..start + length]
    ensures if length == 0 then r == empty else fresh(r) && !r.IsInternString()
  {
    if src.IsUtf8() {
      r := FastSubUtf8String(src, start, length, empty);
    } else {
      r := FastSubUtf16String(src, start, length, empty);
    }
  }

  method FastSubUtf8String(src: EcmaString, start: nat, length: nat, empty: EcmaString) returns (r: EcmaString)
    requires src.Valid() && src.IsUtf8() && empty.Valid() && empty.Units() == [] && start + length <= |src.Units()|
    ensures r.Valid() && r.Units() == src.Units()[start..start + length]
    ensures if length == 0 then r == empty else fresh(r) && !r.IsInternString()
  {
    if length == 0 {
      return empty;
    }
    var dst := new Byte[length];
    var source := src.payload.bytes[start..start + length];
    StringCopy(dst, 0, source);
    assert dst[..] == source;
    assert forall i :: 0 <= i < length ==> source[i] == src.Units()[start + i];
    r := new EcmaString(Utf8(dst[..]));
  }

  method FastSubUtf16String(src: EcmaString, start: nat, length: nat, empty: EcmaString) returns (r: EcmaString)
    requires src.Valid() && src.IsUtf16() && empty.Valid() && empty.Units() == [] && start + length <= |src.Units()|
    ensures r.Valid() && r.Units() == src.Units()[start..start + length]
    ensures if length == 0 then r == empty else fresh(r) && !r.IsInternString()
  {
    if length == 0 {
      return empty;
    }
    var source := src.payload.units[start..start + length];
    r := FromUnits(source);
  }

  /** A new string from 16-bit units, narrowed to bytes when that loses nothing. */
  method FromUnits(source: seq<Unit>) returns (r: EcmaString)
    requires 0 < |source| < MAX_STRING_LENGTH
    ensures r.Valid() && r.Units() == source && fresh(r) && !r.IsInternString()
  {
    var canBeCompressed := CanBeCompressed(source);
    r := CreateFromUnits(source, canBeCompressed);
  }

  method CreateFromUnits(source: seq<Unit>, canBeCompress: bool) returns (r: EcmaString)
    requires 0 < |source| < MAX_STRING_LENGTH && (canBeCompress <==> AllAscii(source))
    ensures r.Valid() && r.Units() == source && fresh(r) && !r.IsInternString()
  {
    if canBeCompress {
      var to := new Byte[|source|];
      CopyUtf16AsUtf8(source, to);
      r := new EcmaString(Utf8(to[..]));
    } else {
      var dst := new Unit[|source|];
      StringCopy(dst, 0, source);
      assert dst[..] == source;
      r := new EcmaString(Utf16(dst[..]));
    }
  }

  method CreateFromUtf16(utf16Data: seq<Unit>, canBeCompress: bool, empty: EcmaString) returns (r: EcmaString)
    requires empty.Valid() && empty.Units() == []
    requires |utf16Data| < MAX_STRING_LENGTH && (canBeCompress <==> AllAscii(utf16Data))
    ensures r.Valid() && r.Units() == utf16Data
    ensures if |utf16Data| == 0 then r == empty else fresh(r) && !r.IsInternString()
  {
    if |utf16Data| == 0 {
      return empty;
    }
    r := CreateFromUnits(utf16Data, canBeCompress);
  }

  /** How modified UTF-8 becomes 16-bit units: all of it, and as far as so many units go. */
  datatype Codec = Codec(decode: seq<Byte> -> seq<Unit>, convert: (seq<Byte>, nat) -> seq<Unit>)
  {
    /** ASCII bytes stand for themselves. A bounded conversion gives a beginning of the whole that is short enough, and the
        whole if that is. It need not fill the room it has. */
    ghost predicate Lawful() {
      && (forall s: seq<Byte> {:trigger decode(s)} :: AllAscii(s) ==> decode(s) == s)
      && (forall s: seq<Byte>, n: nat {:trigger convert(s, n)} ::
            && |convert(s, n)| <= n
            && convert(s, n) <= decode(s)
            && (|decode(s)| <= n ==> convert(s, n) == decode(s)))
    }

    /** With room for one unit more, the conversion stops at `n` units although more is left to decode. */
    ghost predicate StopsShort(s: seq<Byte>, n: nat) {
      |convert(s, n + 1)| == n < |decode(s)|
    }
  }

  /** The caller says whether the bytes can be kept as they are; if not, what they decode to must need 16-bit units. */
  ghost predicate Utf8Input(utf8Data: seq<Byte>, canBeCompress: bool, codec: Codec) {
    && (canBeCompress <==> AllAscii(utf8Data))
    && (!canBeCompress ==> !AllAscii(codec.decode(utf8Data)))
    && |utf8Data| < MAX_STRING_LENGTH && |codec.decode(utf8Data)| < MAX_STRING_LENGTH
  }

  method CreateFromUtf8(utf8Data: seq<Byte>, canBeCompress: bool, codec: Codec, empty: EcmaString) returns (r: EcmaString)
    requires empty.Valid() && empty.Units() == []
    requires codec.Lawful() && Utf8Input(utf8Data, canBeCompress, codec)
    ensures r.Valid() && r.Units() == codec.decode(utf8Data)
    ensures if |utf8Data| == 0 then r == empty else fresh(r) && !r.IsInternString()
  {
    if |utf8Data| == 0 {
      assert codec.decode(utf8Data) == utf8Data;
      return empty;
    }
    if canBeCompress {
      var buffer := new Byte[|utf8Data|];
      StringCopy(buffer, 0, utf8Data);
      assert buffer[..] == utf8Data == codec.decode(utf8Data);
      r := new EcmaString(Utf8(buffer[..]));
    } else {
      var utf16Len := |codec.decode(utf8Data)|;
      var units := codec.convert(utf8Data, utf16Len);
      var buffer := new Unit[|units|];
      StringCopy(buffer, 0, units);
      assert buffer[..] == units;
      r := new EcmaString(Utf16(buffer[..]));
    }
  }

  /** Cutting a string at any place and joining the parts gives it back, in the same encoding. */
  method CutAndJoin(s: EcmaString, cut: nat, empty: EcmaString) returns (r: EcmaString)
    requires s.Valid() && empty.Valid() && empty.Units() == [] && cut <= |s.Units()|
    ensures r.Valid() && r.payload == s.payload
  {
    var left := FastSubString(s, 0, cut, empty);
    var right := FastSubString(s, cut, |s.payload.Units()| - cut, empty);
    r := Concat(left, right, empty);
    assert s.Units()[..cut] + s.Units()[cut..] == s.Units();
    CanonicalIsUnique(r.payload, s.payload);
  }
}
