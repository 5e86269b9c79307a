/** The binary format of stub and AOT files: what is written where, and that it can be read back. */
module PackFormat {
  import opened Words

  /** A number as `n` bytes, low byte first. */
  function Bytes(n: nat, value: nat): (r: seq<Byte>)
    ensures |r| == n
  {
    if n == 0 then [] else [value % 0x100] + Bytes(n - 1, value / 0x100)
  }

  function Number(bytes: seq<Byte>): nat {
    if |bytes| == 0 then 0 else bytes[0] + 0x100 * Number(bytes[1..])
  }

  function Limit(n: nat): nat {
    if n == 0 then 1 else 0x100 * Limit(n - 1)
  }

  lemma {:induction false} NumberOfBytes(n: nat, value: nat)
    requires value < Limit(n)
    ensures Number(Bytes(n, value)) == value
  {
    if n > 0 {
      NumberOfBytes(n - 1, value / 0x100);
      assert Bytes(n, value)[1..] == Bytes(n - 1, value / 0x100);
    }
  }

  lemma {:induction false} BytesOfNumber(bytes: seq<Byte>)
    ensures Number(bytes) < Limit(|bytes|)
    ensures Bytes(|bytes|, Number(bytes)) == bytes
  {
    if |bytes| > 0 {
      BytesOfNumber(bytes[1..]);
      LowByte(bytes[0], Number(bytes[1..]), Limit(|bytes| - 1));
      assert bytes == [bytes[0]] + bytes[1..];
    }
  }

  lemma LowByte(low: Byte, high: nat, limit: nat)
    ensures (low + 0x100 * high) % 0x100 == low && (low + 0x100 * high) / 0x100 == high
    ensures high < limit ==> low + 0x100 * high < 0x100 * limit
  {
  }

  lemma Limits()
    ensures Limit(4) == 0x1_0000_0000 && Limit(8) == 0x1_0000_0000_0000_0000
  {
    assert Limit(2) == 0x1_0000 && Limit(3) == 0x100_0000;
    assert Limit(5) == 0x100 * Limit(4) && Limit(6) == 0x100 * Limit(5) && Limit(7) == 0x100 * Limit(6);
  }

  function Number32(bytes: seq<Byte>): U32
    requires |bytes| == 4
  {
    BytesOfNumber(bytes);
    Limits();
    Number(bytes)
  }

  function Number64(bytes: seq<Byte>): U64
    requires |bytes| == 8
  {
    BytesOfNumber(bytes);
    Limits();
    Number(bytes)
  }

  /** The low byte comes first. */
  lemma LittleEndian(bytes: seq<Byte>)
    requires |bytes| == 4
    ensures var b0: int, b1: int, b2: int, b3: int := bytes[0], bytes[1], bytes[2], bytes[3];
      Number32(bytes) == b0 + 0x100 * b1 + 0x1_0000 * b2 + 0x100_0000 * b3
  {
    assert Number(bytes) == bytes[0] + 0x100 * Number(bytes[1..]);
    assert Number(bytes[1..]) == bytes[1] + 0x100 * Number(bytes[1..][1..]);
    assert Number(bytes[2..]) == bytes[2] + 0x100 * Number(bytes[2..][1..]);
    assert Number(bytes[3..]) == bytes[3] + 0x100 * Number(bytes[3..][1..]);
    assert bytes[1..][1..] == bytes[2..] && bytes[2..][1..] == bytes[3..] && bytes[3..][1..] == [];
  }

  lemma Number32OfBytes(value: U32)
    ensures Number32(Bytes(4, value)) == value
  {
    Limits();
    NumberOfBytes(4, value);
  }

  lemma Number64OfBytes(value: U64)
    ensures Number64(Bytes(8, value)) == value
  {
    Limits();
    NumberOfBytes(8, value);
  }

  /** Two's complement. */
  function ToUnsigned(x: I32): U32 {
    if x < 0 then x + 0x1_0000_0000 else x
  }

  function ToSigned(x: U32): I32 {
    if x >= 0x8000_0000 then x - 0x1_0000_0000 else x
  }

  lemma TwosComplement(x: I32)
    ensures ToUnsigned(x) == x % 0x1_0000_0000 && ToSigned(ToUnsigned(x)) == x
  {
  }

  /** The bytes of a record that belong to no field: three after the kind and four at the end. */
  type Padding = s: seq<Byte> | |s| == 7 witness [0, 0, 0, 0, 0, 0, 0]

  datatype FuncEntryDes = FuncEntryDes(codeAddr: U64, kind: Byte, indexInKind: U32, moduleIndex: U32,
                                       fpDeltaPrevFramSp: I32, funcSize: U32, padding: Padding)

  const ENTRY_SIZE: nat := 32

  function EncodeEntry(e: FuncEntryDes): (r: seq<Byte>)
    ensures |r| == ENTRY_SIZE
  {
    Bytes(8, e.codeAddr) + [e.kind] + e.padding[..3] + Bytes(4, e.indexInKind) + Bytes(4, e.moduleIndex) +
    Bytes(4, ToUnsigned(e.fpDeltaPrevFramSp)) + Bytes(4, e.funcSize) + e.padding[3..]
  }

  function DecodeEntry(bytes: seq<Byte>): FuncEntryDes
    requires |bytes| == ENTRY_SIZE
  {
    FuncEntryDes(Number64(bytes[..8]), bytes[8], Number32(bytes[12..16]), Number32(bytes[16..20]),
                 ToSigned(Number32(bytes[20..24])), Number32(bytes[24..28]), bytes[9..12] + bytes[28..])
  }

  /** One part of a sequence that is put together from the front. */
  lemma Extends<T>(s: seq<T>, before: seq<T>, part: seq<T>)
    requires before + part <= s
    ensures before <= s && s[|before|..|before| + |part|] == part
  {
    assert s[..|before + part|] == before + part;
  }

  lemma DecodeEncodedEntry(e: FuncEntryDes)
    ensures DecodeEntry(EncodeEntry(e)) == e
  {
    hide Bytes, Number;
    var b := EncodeEntry(e);
    Number64OfBytes(e.codeAddr);
    Number32OfBytes(e.indexInKind);
    Number32OfBytes(e.moduleIndex);
    Number32OfBytes(ToUnsigned(e.fpDeltaPrevFramSp));
    Number32OfBytes(e.funcSize);
    var p1 := Bytes(8, e.codeAddr);
    var p2 := p1 + [e.kind];
    var p3 := p2 + e.padding[..3];
    var p4 := p3 + Bytes(4, e.indexInKind);
    var p5 := p4 + Bytes(4, e.moduleIndex);
    var p6 := p5 + Bytes(4, ToUnsigned(e.fpDeltaPrevFramSp));
    var p7 := p6 + Bytes(4, e.funcSize);
    Extends(b, p7, e.padding[3..]);
    Extends(b, p6, Bytes(4, e.funcSize));
    Extends(b, p5, Bytes(4, ToUnsigned(e.fpDeltaPrevFramSp)));
    Extends(b, p4, Bytes(4, e.moduleIndex));
    Extends(b, p3, Bytes(4, e.indexInKind));
    Extends(b, p2, e.padding[..3]);
    Extends(b, p1, [e.kind]);
    assert b[..8] == p1 && b[8] == b[8..9][0] && b[28..] == b[28..32];
    assert b[9..12] + b[28..] == e.padding[..3] + e.padding[3..] == e.padding;
  }

  /** Where the fields of a record are. */
  lemma EntryLayout(e: FuncEntryDes)
    ensures var b := EncodeEntry(e);
      && |b| == 32
      && Number64(b[..8]) == e.codeAddr
      && b[8] == e.kind
      && Number32(b[12..16]) == e.indexInKind
      && Number32(b[16..20]) == e.moduleIndex
      && Number32(b[20..24]) == e.fpDeltaPrevFramSp % 0x1_0000_0000
      && Number32(b[24..28]) == e.funcSize
  {
    hide EncodeEntry, Number32, Number64;
    DecodeEncodedEntry(e);
    var d := Number32(EncodeEntry(e)[20..24]);
    assert e.fpDeltaPrevFramSp == ToSigned(d);
    SignedBack(d);
  }

  lemma SignedBack(x: U32)
    ensures ToSigned(x) % 0x1_0000_0000 == x
  {
  }

  lemma EncodeDecodedEntry(bytes: seq<Byte>)
    requires |bytes| == ENTRY_SIZE
    ensures EncodeEntry(DecodeEntry(bytes)) == bytes
  {
    var e := DecodeEntry(bytes);
    BytesOfNumber(bytes[..8]);
    BytesOfNumber(bytes[12..16]);
    BytesOfNumber(bytes[16..20]);
    BytesOfNumber(bytes[20..24]);
    BytesOfNumber(bytes[24..28]);
    assert e.padding[..3] == bytes[9..12] && e.padding[3..] == bytes[28..];
    assert bytes == bytes[..8] + [bytes[8]] + bytes[9..12] + bytes[12..16] + bytes[16..20] + bytes[20..24] + bytes[24..28] + bytes[28..];
  }

  function EncodeEntries(entries: seq<FuncEntryDes>): (r: seq<Byte>)
    ensures |r| == ENTRY_SIZE * |entries|
  {
    if |entries| == 0 then [] else EncodeEntry(entries[0]) + EncodeEntries(entries[1..])
  }

  function DecodeEntries(bytes: seq<Byte>, n: nat): (r: seq<FuncEntryDes>)
    requires |bytes| == ENTRY_SIZE * n
    ensures |r| == n
  {
    if n == 0 then [] else [DecodeEntry(bytes[..ENTRY_SIZE])] + DecodeEntries(bytes[ENTRY_SIZE..], n - 1)
  }

  lemma {:induction false} DecodeEncodedEntries(entries: seq<FuncEntryDes>)
    ensures DecodeEntries(EncodeEntries(entries), |entries|) == entries
  {
    if |entries| > 0 {
      var b := EncodeEntries(entries);
      assert b[..ENTRY_SIZE] == EncodeEntry(entries[0]) && b[ENTRY_SIZE..] == EncodeEntries(entries[1..]);
      DecodeEncodedEntry(entries[0]);
      DecodeEncodedEntries(entries[1..]);
    }
  }

  lemma {:induction false} EncodeDecodedEntries(bytes: seq<Byte>, n: nat)
    requires |bytes| == ENTRY_SIZE * n
    ensures EncodeEntries(DecodeEntries(bytes, n)) == bytes
  {
    if n > 0 {
      var r := DecodeEntries(bytes, n);
      EncodeDecodedEntry(bytes[..ENTRY_SIZE]);
      EncodeDecodedEntries(bytes[ENTRY_SIZE..], n - 1);
      assert r[1..] == DecodeEntries(bytes[ENTRY_SIZE..], n - 1);
      assert bytes == bytes[..ENTRY_SIZE] + bytes[ENTRY_SIZE..];
    } else {
      assert bytes == [];
    }
  }

  lemma {:induction false} EntriesLayout(entries: seq<FuncEntryDes>, i: nat)
    requires i < |entries|
    ensures |EncodeEntries(entries)| == 32 * |entries|
    ensures EncodeEntries(entries)[32 * i..32 * i + 32] == EncodeEntry(entries[i])
  {
    hide EncodeEntry;
    var first, rest := EncodeEntry(entries[0]), EncodeEntries(entries[1..]);
    if i > 0 {
      EntriesLayout(entries[1..], i - 1);
      Behind(first, rest, 32 * i - 32, 32 * i);
    }
  }

  lemma Behind<T>(s: seq<T>, t: seq<T>, i: nat, j: nat)
    requires i <= j <= |t|
    ensures (s + t)[|s| + i..|s| + j] == t[i..j]
  {
  }

  function EncodeHashes(hashes: seq<U32>): (r: seq<Byte>)
    ensures |r| == 4 * |hashes|
  {
    if |hashes| == 0 then [] else Bytes(4, hashes[0]) + EncodeHashes(hashes[1..])
  }

  function DecodeHashes(bytes: seq<Byte>, n: nat): (r: seq<U32>)
    requires |bytes| == 4 * n
    ensures |r| == n
  {
    if n == 0 then [] else [Number32(bytes[..4])] + DecodeHashes(bytes[4..], n - 1)
  }

  lemma {:induction false} DecodeEncodedHashes(hashes: seq<U32>)
    ensures DecodeHashes(EncodeHashes(hashes), |hashes|) == hashes
  {
    if |hashes| > 0 {
      var b := EncodeHashes(hashes);
      assert b[..4] == Bytes(4, hashes[0]) && b[4..] == EncodeHashes(hashes[1..]);
      Limits();
      NumberOfBytes(4, hashes[0]);
      DecodeEncodedHashes(hashes[1..]);
    }
  }

  lemma {:induction false} EncodeDecodedHashes(bytes: seq<Byte>, n: nat)
    requires |bytes| == 4 * n
    ensures EncodeHashes(DecodeHashes(bytes, n)) == bytes
  {
    if n > 0 {
      var r := DecodeHashes(bytes, n);
      BytesOfNumber(bytes[..4]);
      EncodeDecodedHashes(bytes[4..], n - 1);
      assert r[1..] == DecodeHashes(bytes[4..], n - 1);
      assert bytes == bytes[..4] + bytes[4..];
    } else {
      assert bytes == [];
    }
  }

  lemma {:induction false} HashesLayout(hashes: seq<U32>, i: nat)
    requires i < |hashes|
    ensures |EncodeHashes(hashes)| == 4 * |hashes|
    ensures Number32(EncodeHashes(hashes)[4 * i..4 * i + 4]) == hashes[i]
  {
    hide Bytes, Number32;
    var first, rest := Bytes(4, hashes[0]), EncodeHashes(hashes[1..]);
    if i > 0 {
      HashesLayout(hashes[1..], i - 1);
      Behind(first, rest, 4 * i - 4, 4 * i);
    } else {
      assert (first + rest)[..4] == first;
      Number32OfBytes(hashes[0]);
    }
  }

  /** A module: where its code was when it was compiled, the code, and its stack map. */
  datatype ModuleSectionDes = ModuleSectionDes(hostCodeSectionAddr: U64, code: Section, stackMap: Section)

  type Section = s: seq<Byte> | |s| < 0x1_0000_0000

  function EncodeModule(m: ModuleSectionDes): seq<Byte> {
    Bytes(8, m.hostCodeSectionAddr) + (Bytes(4, |m.code|) + (m.code + (Bytes(4, |m.stackMap|) + m.stackMap)))
  }

  function EncodeModules(modules: seq<ModuleSectionDes>): seq<Byte> {
    if |modules| == 0 then [] else EncodeModule(modules[0]) + EncodeModules(modules[1..])
  }

  lemma {:induction false} EncodeModulesConcat(a: seq<ModuleSectionDes>, b: seq<ModuleSectionDes>)
    ensures EncodeModules(a + b) == EncodeModules(a) + EncodeModules(b)
  {
    hide EncodeModule;
    if |a| == 0 {
      assert a + b == b;
    } else {
      assert (a + b)[1..] == a[1..] + b;
      EncodeModulesConcat(a[1..], b);
      Associative(EncodeModule(a[0]), EncodeModules(a[1..]), EncodeModules(b));
    }
  }

  /** Where the parts of a module are. */
  lemma ModuleLayout(m: ModuleSectionDes)
    ensures var b, c := EncodeModule(m), |m.code|;
      && |b| == 16 + c + |m.stackMap|
      && Number64(b[..8]) == m.hostCodeSectionAddr
      && Number32(b[8..12]) == c && b[12..12 + c] == m.code
      && Number32(b[12 + c..16 + c]) == |m.stackMap| && b[16 + c..] == m.stackMap
  {
    hide Bytes, Number32, Number64;
    var c := |m.code|;
    var p1, p2, p4 := Bytes(8, m.hostCodeSectionAddr), Bytes(4, c), Bytes(4, |m.stackMap|);
    var t4 := p4 + m.stackMap;
    var t3 := m.code + t4;
    Number64OfBytes(m.hostCodeSectionAddr);
    Number32OfBytes(c);
    Number32OfBytes(|m.stackMap|);
    FrontAndRest(p1, p2 + t3);
    FrontAndRest(p2, t3);
    FrontAndRest(m.code, t4);
    FrontAndRest(p4, m.stackMap);
    Behind(p1, p2 + t3, 0, 4);
    Behind(p1, p2 + t3, 4, 4 + c);
    Behind(p2, t3, 0, c);
    Behind(p1, p2 + t3, 4 + c, 8 + c);
    Behind(p2, t3, c, 4 + c);
    Behind(m.code, t4, 0, 4);
    var b := EncodeModule(m);
    assert b[16 + c..] == b[16 + c..|b|];
    Behind(p1, p2 + t3, 8 + c, |p2 + t3|);
    Behind(p2, t3, 4 + c, |t3|);
    Behind(m.code, t4, 4, |t4|);
  }

  lemma FrontAndRest<T>(s: seq<T>, t: seq<T>)
    ensures (s + t)[..|s|] == s && (s + t)[|s|..] == t && |s + t| == |s| + |t|
    ensures (s + t)[|s|..|s| + |t|] == t
  {
  }

  /** The modules are written one after the other. */
  lemma ModulesLayout(modules: seq<ModuleSectionDes>, i: nat)
    requires i < |modules|
    ensures EncodeModules([]) == []
    ensures EncodeModules(modules) == EncodeModules(modules[..i]) + EncodeModule(modules[i]) + EncodeModules(modules[i + 1..])
  {
    hide EncodeModule;
    assert modules == modules[..i] + ([modules[i]] + modules[i + 1..]);
    EncodeModulesConcat(modules[..i], [modules[i]] + modules[i + 1..]);
    assert ([modules[i]] + modules[i + 1..])[1..] == modules[i + 1..];
    Associative(EncodeModules(modules[..i]), EncodeModule(modules[i]), EncodeModules(modules[i + 1..]));
  }

  lemma Associative<X>(s: seq<X>, t: seq<X>, u: seq<X>)
    ensures s + (t + u) == s + t + u
  {
  }

  /** Stub files have no hashes; AOT files have one for each module. */
  datatype Kind = Stub | Aot

  datatype Pack = Pack(entries: seq<FuncEntryDes>, totalCodeSize: U32, hashes: seq<U32>, modules: seq<ModuleSectionDes>)

  function EncodeHeader(p: Pack, moduleNum: nat): seq<Byte> {
    Bytes(4, |p.entries|) + (EncodeEntries(p.entries) + (Bytes(4, moduleNum) + (Bytes(4, p.totalCodeSize) + EncodeHashes(p.hashes))))
  }

  /** The file. */
  function Encode(p: Pack): seq<Byte> {
    EncodeHeader(p, |p.modules|) + EncodeModules(p.modules)
  }

  /** Where the parts of a file are. */
  lemma FileLayout(p: Pack)
    requires |p.entries| < 0x1_0000_0000 && |p.modules| < 0x1_0000_0000
    ensures var b, e, h := Encode(p), 32 * |p.entries|, 4 * |p.hashes|;
      && |b| >= 12 + e + h
      && Number32(b[..4]) == |p.entries| && b[4..4 + e] == EncodeEntries(p.entries)
      && Number32(b[4 + e..8 + e]) == |p.modules| && Number32(b[8 + e..12 + e]) == p.totalCodeSize
      && b[12 + e..12 + e + h] == EncodeHashes(p.hashes) && b[12 + e + h..] == EncodeModules(p.modules)
  {
    hide Bytes, Number32, EncodeEntries, EncodeHashes, EncodeModules;
    var n, k := |p.entries|, |p.modules|;
    var a1, a2, a3, a4, a5 :=
      Bytes(4, n), EncodeEntries(p.entries), Bytes(4, k), Bytes(4, p.totalCodeSize), EncodeHashes(p.hashes);
    var rest := EncodeModules(p.modules);
    Number32OfBytes(n);
    Number32OfBytes(k);
    Number32OfBytes(p.totalCodeSize);
    Associative(a1, a2 + (a3 + (a4 + a5)), rest);
    Associative(a2, a3 + (a4 + a5), rest);
    Associative(a3, a4 + a5, rest);
    Associative(a4, a5, rest);
    assert Encode(p) == a1 + (a2 + (a3 + (a4 + (a5 + rest))));
    FiveParts(a1, a2, a3, a4, a5, rest);
  }

  lemma FiveParts<T>(a1: seq<T>, a2: seq<T>, a3: seq<T>, a4: seq<T>, a5: seq<T>, rest: seq<T>)
    ensures var b := a1 + (a2 + (a3 + (a4 + (a5 + rest))));
      var n1 := |a1|;
      var n2 := n1 + |a2|;
      var n3 := n2 + |a3|;
      var n4 := n3 + |a4|;
      var n5 := n4 + |a5|;
      && |b| == n5 + |rest| && b[..n1] == a1 && b[n1..n2] == a2 && b[n2..n3] == a3 && b[n3..n4] == a4 && b[n4..n5] == a5
      && b[n5..] == rest
  {
  }

  // Where the code of the modules goes.

  /** The code of all modules, one after the other. */
  function AllCode(modules: seq<ModuleSectionDes>): seq<Byte> {
    if |modules| == 0 then [] else AllCode(modules[..|modules| - 1]) + modules[|modules| - 1].code
  }

  /** Where the code of module `i` begins. */
  function Start(modules: seq<ModuleSectionDes>, i: nat): nat
    requires i <= |modules|
  {
    |AllCode(modules[..i])|
  }

  lemma {:induction false} CodePrefix(modules: seq<ModuleSectionDes>, i: nat)
    requires i <= |modules|
    ensures AllCode(modules[..i]) <= AllCode(modules)
    decreases |modules|
  {
    if i < |modules| {
      var front := modules[..|modules| - 1];
      CodePrefix(front, i);
      assert front[..i] == modules[..i];
    } else {
      assert modules[..i] == modules;
    }
  }

  lemma LastCode(modules: seq<ModuleSectionDes>)
    requires |modules| > 0
    ensures AllCode(modules) == AllCode(modules[..|modules| - 1]) + modules[|modules| - 1].code
  {
  }

  /** Each section holds its module's code, right after the section before it. */
  lemma SectionAt(modules: seq<ModuleSectionDes>, i: nat)
    requires i < |modules|
    ensures Start(modules, i) + |modules[i].code| == Start(modules, i + 1) <= |AllCode(modules)|
    ensures AllCode(modules)[Start(modules, i)..Start(modules, i + 1)] == modules[i].code
  {
    var upTo := modules[..i + 1];
    assert upTo[..i] == modules[..i] && upTo[i] == modules[i];
    CodePrefix(modules, i + 1);
    LastCode(upTo);
    hide AllCode;
    Extends(AllCode(modules), AllCode(modules[..i]), modules[i].code);
  }

  /** Sections of different modules do not overlap. */
  lemma {:induction false} SectionsDisjoint(modules: seq<ModuleSectionDes>, i: nat, j: nat)
    requires i < j <= |modules|
    ensures Start(modules, i) + |modules[i].code| <= Start(modules, j)
    decreases j - i
  {
    hide AllCode;
    SectionAt(modules, i);
    if i + 1 < j {
      SectionsDisjoint(modules, i + 1, j);
    }
  }

  /** The sections fill the area: every place in it is in one of them. */
  lemma {:induction false} SectionsFill(modules: seq<ModuleSectionDes>, at: nat) returns (i: nat)
    requires at < |AllCode(modules)|
    ensures i < |modules| && Start(modules, i) <= at < Start(modules, i) + |modules[i].code|
  {
    i := 0;
    assert modules[..0] == [];
    while i < |modules| && Start(modules, i + 1) <= at
      invariant i <= |modules| && Start(modules, i) <= at
    {
      i := i + 1;
    }
    assert modules[..|modules|] == modules;
    SectionAt(modules, i);
  }
}
