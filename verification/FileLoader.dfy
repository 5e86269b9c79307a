/** Saving and loading stub and AOT files. */
module FileLoaders {
  import opened PackFormat
  import opened Words

  /** How reading went on: as it should, with a fatal error, or by going past the end of some memory. */
  datatype Outcome = Fine | Fatal | Overrun

  function Zeros(n: nat): (r: seq<Byte>)
    ensures |r| == n && forall i :: 0 <= i < n ==> r[i] == 0
  {
    seq(n, _ => 0)
  }

  /** What is loaded from: a buffer for stub files, a stream for AOT files. */
  class Input {
    const kind: Kind
    const bytes: seq<Byte>
    var offset: nat
    var good: bool

    ghost predicate Valid()
      reads this
    {
      offset <= |bytes| && (kind.Stub? ==> |bytes| < 0x1_0000_0000)
    }

    constructor (kind: Kind, bytes: seq<Byte>)
      requires kind.Stub? ==> |bytes| < 0x1_0000_0000
      ensures Valid() && offset == 0 && good && this.kind == kind && this.bytes == bytes
    {
      this.kind, this.bytes := kind, bytes;
      offset, good := 0, true;
    }

    ghost function Left(): seq<Byte>
      reads this
      requires Valid()
    {
      bytes[offset..]
    }

    /** Sizes are 32-bit in a buffer, and sums of them wrap around. */
    method ParseBuffer(count: U32) returns (outcome: Outcome, dst: seq<Byte>)
      requires Valid() && kind.Stub?
      modifies `offset
      ensures Valid()
      ensures outcome.Fine? <==> 0 < count && old(offset) + count <= |bytes|
      ensures outcome.Fine? ==> offset == old(offset) + count && dst == bytes[old(offset)..offset]
      ensures !outcome.Fine? ==> offset == old(offset)
      ensures outcome.Overrun? <==> old(offset) + count >= 0x1_0000_0000 && old(offset) + count - 0x1_0000_0000 <= |bytes|
    {
      if count > 0 && (count + offset) % 0x1_0000_0000 <= |bytes| {
        if count + offset > |bytes| {
          return Overrun, [];
        }
        dst := bytes[offset..offset + count];
        offset := offset + count;
        return Fine, dst;
      } else {
        return Fatal, [];
      }
    }

    /** A stream gives what it has; what is missing stays as it was, and from then on it gives nothing. */
    method ReadStream(count: nat) returns (dst: seq<Byte>)
      requires Valid()
      modifies `offset, `good
      ensures Valid() && |dst| == count
      ensures good <==> old(good) && old(offset) + count <= |bytes|
      ensures old(good) ==> offset == old(offset) + (if good then count else |bytes| - old(offset))
      ensures !old(good) ==> offset == old(offset)
      ensures dst == bytes[old(offset)..offset] + Zeros(count - (offset - old(offset)))
    {
      if !good {
        return Zeros(count);
      }
      var n := if offset + count <= |bytes| then count else |bytes| - offset;
      dst := bytes[offset..offset + n] + Zeros(count - n);
      offset, good := offset + n, n == count;
    }

    /** Reads `count` bytes. If the next bytes are `part` and then `rest`, it reads `part` and leaves `rest`. */
    method Read(count: nat, ghost part: seq<Byte>, ghost rest: seq<Byte>) returns (outcome: Outcome, dst: seq<Byte>)
      requires Valid()
      modifies `offset, `good
      ensures Valid() && old(offset) <= offset && (good ==> old(good))
      ensures outcome.Fine? ==> |dst| == count
      ensures outcome.Fine? && good && (kind.Stub? ==> count < 0x1_0000_0000) ==> dst == bytes[old(offset)..offset]
      ensures kind.Stub? && count == 0 ==> outcome.Fatal?
      ensures kind.Aot? ==> outcome.Fine?
      ensures old(good) && |part| == count && part + rest <= old(Left()) && (kind.Stub? ==> count > 0) ==>
        outcome.Fine? && good && dst == part && rest <= Left()
    {
      ghost var start := offset;
      if part + rest <= Left() {
        Front(bytes, offset, part, rest);
      }
      if kind.Stub? {
        var size := count % 0x1_0000_0000;
        outcome, dst := ParseBuffer(size);
        if outcome.Fine? {
          assert dst + Zeros(0) == dst;
          dst := dst + Zeros(count - size);
        }
      } else {
        dst := ReadStream(count);
        outcome := Fine;
        assert good ==> dst == bytes[start..offset] + Zeros(0) == bytes[start..offset];
      }
    }
  }

  /** A part at the front of what is left is what is read, and the rest is left. */
  lemma Front(bytes: seq<Byte>, offset: nat, part: seq<Byte>, rest: seq<Byte>)
    requires offset <= |bytes| && part + rest <= bytes[offset..]
    ensures offset + |part| <= |bytes| && bytes[offset..offset + |part|] == part
    ensures rest <= bytes[offset + |part|..]
  {
    assert (part + rest)[..|part|] == part;
    assert (part + rest)[|part|..] == rest;
    assert bytes[offset..][|part|..] == bytes[offset + |part|..];
    assert bytes[offset..][..|part|] == bytes[offset..offset + |part|];
  }

  /** What the stack map parser is given. */
  datatype StackMapCall = StackMapCall(stackMap: Section, hostCodeSectionAddr: U64, deviceCodeSectionAddr: U64)

  datatype FpDelta = FpDelta(funAddr: U64, delta: I32, funSize: U32)

  class StackMapParser {
    var stackMaps: seq<StackMapCall>
    var fpDeltas: seq<FpDelta>

    constructor ()
      ensures stackMaps == [] && fpDeltas == []
    {
      stackMaps, fpDeltas := [], [];
    }
  }

  /** A module can be read from a file of this kind, and its code goes into what is left of the area. */
  ghost predicate ReadableModule(kind: Kind, m: ModuleSectionDes, room: int) {
    && (kind.Stub? ==> |m.code| > 0 && |m.stackMap| > 0)
    && |m.code| <= room
  }

  /** Copies code into the area. */
  method CopyCode(area: array<Byte>, at: nat, code: seq<Byte>)
    requires at + |code| <= area.Length
    modifies area
    ensures area[..at] == old(area[..at]) && area[at..at + |code|] == code
  {
    for k := 0 to |code|
      invariant forall j {:trigger area[j]} :: 0 <= j < area.Length ==>
        area[j] == if at <= j < at + k then code[j - at] else old(area[j])
    {
      area[at + k] := code[k];
    }
  }

  /** Reads a 32-bit number. */
  method ReadNumber(input: Input, ghost expected: nat, ghost rest: seq<Byte>) returns (outcome: Outcome, n: U32)
    requires input.Valid()
    modifies input`offset, input`good
    ensures input.Valid() && old(input.offset) <= input.offset && (input.good ==> old(input.good))
    ensures outcome.Fine? && input.good ==> input.bytes[old(input.offset)..input.offset] == Bytes(4, n)
    ensures old(input.good) && expected < 0x1_0000_0000 && Bytes(4, expected) + rest <= old(input.Left()) ==>
      outcome.Fine? && input.good && n == expected && rest <= input.Left()
  {
    hide Bytes, Number;
    n := 0;
    var raw;
    outcome, raw := input.Read(4, Bytes(4, expected), rest);
    if outcome.Fine? {
      n := Number32(raw);
      BytesOfNumber(raw);
      if expected < 0x1_0000_0000 {
        Number32OfBytes(expected);
      }
    }
  }

  /** Reads one module and puts its code into the area. */
  method ReadModule(input: Input, area: array<Byte>, curUnitOffset: nat, ghost expected: ModuleSectionDes, ghost rest: seq<Byte>)
    returns (outcome: Outcome, m: ModuleSectionDes)
    requires input.Valid() && curUnitOffset <= area.Length
    modifies input`offset, input`good, area
    ensures input.Valid() && old(input.offset) <= input.offset && (input.good ==> old(input.good))
    ensures area[..curUnitOffset] == old(area[..curUnitOffset])
    ensures outcome.Fine? ==> curUnitOffset + |m.code| <= area.Length && area[curUnitOffset..curUnitOffset + |m.code|] == m.code
    ensures outcome.Fine? && input.good ==> input.bytes[old(input.offset)..input.offset] == EncodeModule(m)
    ensures old(input.good) && EncodeModule(expected) + rest <= old(input.Left()) ==>
      && (outcome.Fine? <==> ReadableModule(input.kind, expected, area.Length - curUnitOffset))
      && (outcome.Fine? ==> m == expected && input.good && rest <= input.Left())
  {
    hide EncodeModule, Bytes, Number, Number64;
    m := ModuleSectionDes(0, [], []);
    ghost var rest4 := expected.stackMap + rest;
    ghost var rest3 := Bytes(4, |expected.stackMap|) + rest4;
    ghost var rest2 := expected.code + rest3;
    ghost var rest1 := Bytes(4, |expected.code|) + rest2;
    EncodedModule(expected, rest);
    Number64OfBytes(expected.hostCodeSectionAddr);
    ghost var o0 := input.offset;
    var raw, codeSize, code, stackMapSize, stackMap;
    outcome, raw := input.Read(8, Bytes(8, expected.hostCodeSectionAddr), rest1);
    if !outcome.Fine? {
      return;
    }
    var hostCodeSectionAddr := Number64(raw);
    ghost var o1 := input.offset;
    outcome, codeSize := ReadNumber(input, |expected.code|, rest2);
    if !outcome.Fine? {
      return;
    }
    ghost var o2 := input.offset;
    outcome, code := input.Read(codeSize, expected.code, rest3);
    if !outcome.Fine? {
      return;
    }
    if curUnitOffset + codeSize > area.Length {
      outcome := Overrun;
      return;
    }
    CopyCode(area, curUnitOffset, code);
    ghost var o3 := input.offset;
    outcome, stackMapSize := ReadNumber(input, |expected.stackMap|, rest4);
    if !outcome.Fine? {
      return;
    }
    ghost var o4 := input.offset;
    outcome, stackMap := input.Read(stackMapSize, expected.stackMap, rest);
    if !outcome.Fine? {
      return;
    }
    m := ModuleSectionDes(hostCodeSectionAddr, code, stackMap);
    if input.good {
      ModuleFromParts(input.bytes, o0, o1, o2, o3, o4, input.offset, m);
    }
  }

  lemma EncodedModule(m: ModuleSectionDes, rest: seq<Byte>)
    ensures EncodeModule(m) + rest ==
      Bytes(8, m.hostCodeSectionAddr) + (Bytes(4, |m.code|) + (m.code + (Bytes(4, |m.stackMap|) + (m.stackMap + rest))))
  {
    hide Bytes;
    Associative(Bytes(4, |m.stackMap|), m.stackMap, rest);
    Associative(m.code, Bytes(4, |m.stackMap|) + m.stackMap, rest);
    Associative(Bytes(4, |m.code|), m.code + (Bytes(4, |m.stackMap|) + m.stackMap), rest);
    Associative(Bytes(8, m.hostCodeSectionAddr), Bytes(4, |m.code|) + (m.code + (Bytes(4, |m.stackMap|) + m.stackMap)), rest);
  }

  lemma Slices(bytes: seq<Byte>, i: nat, j: nat, k: nat)
    requires i <= j <= k <= |bytes|
    ensures bytes[i..j] + bytes[j..k] == bytes[i..k]
  {
  }

  lemma ModuleFromParts(bytes: seq<Byte>, o0: nat, o1: nat, o2: nat, o3: nat, o4: nat, o5: nat, m: ModuleSectionDes)
    requires o0 <= o1 <= o2 <= o3 <= o4 <= o5 <= |bytes| && o1 == o0 + 8
    requires m.hostCodeSectionAddr == Number64(bytes[o0..o1]) && bytes[o1..o2] == Bytes(4, |m.code|)
    requires m.code == bytes[o2..o3] && bytes[o3..o4] == Bytes(4, |m.stackMap|) && m.stackMap == bytes[o4..o5]
    ensures bytes[o0..o5] == EncodeModule(m)
  {
    hide Bytes, Number;
    BytesOfNumber(bytes[o0..o1]);
    Slices(bytes, o3, o4, o5);
    Slices(bytes, o2, o3, o5);
    Slices(bytes, o1, o2, o5);
    Slices(bytes, o0, o1, o5);
  }

  /** What the loader knows of compiled methods: by file hash and method, where the code is. */
  class FileLoader {
    var hashToEntryMap: map<U32, map<U32, U64>>

    constructor ()
      ensures hashToEntryMap == map[]
    {
      hashToEntryMap := map[];
    }

    method SaveAOTFuncEntry(hash: U32, methodId: U32, funcEntry: U64)
      modifies this
      ensures hashToEntryMap == Saved(old(hashToEntryMap), hash, methodId, funcEntry)
    {
      var methods := if hash in hashToEntryMap then hashToEntryMap[hash] else map[];
      hashToEntryMap := hashToEntryMap[hash := methods[methodId := funcEntry]];
    }

    /** The entry, or the null address, 0. */
    method GetAOTFuncEntry(hash: U32, methodId: U32) returns (funcEntry: U64)
      ensures funcEntry == Lookup(hashToEntryMap, hash, methodId)
      ensures funcEntry ==
        if hash in hashToEntryMap && methodId in hashToEntryMap[hash] then hashToEntryMap[hash][methodId] else 0
    {
      if hash !in hashToEntryMap {
        return 0;
      } else if methodId !in hashToEntryMap[hash] {
        return 0;
      }
      return hashToEntryMap[hash][methodId];
    }
  }

  function Saved(entries: map<U32, map<U32, U64>>, hash: U32, methodId: U32, funcEntry: U64): map<U32, map<U32, U64>> {
    entries[hash := (if hash in entries then entries[hash] else map[])[methodId := funcEntry]]
  }

  function Lookup(entries: map<U32, map<U32, U64>>, hash: U32, methodId: U32): U64 {
    if hash in entries && methodId in entries[hash] then entries[hash][methodId] else 0
  }

  /** What is saved is found, and nothing else changes. */
  lemma LookupSaved(entries: map<U32, map<U32, U64>>, hash: U32, methodId: U32, funcEntry: U64, h: U32, m: U32)
    ensures Lookup(Saved(entries, hash, methodId, funcEntry), h, m) ==
      if h == hash && m == methodId then funcEntry else Lookup(entries, h, m)
  {
  }

  /** An entry as it is once its module has its place. */
  function Relocated(e: FuncEntryDes, device: seq<U64>): FuncEntryDes
    requires e.moduleIndex < |device|
  {
    e.(codeAddr := (e.codeAddr + device[e.moduleIndex]) % 0x1_0000_0000_0000_0000)
  }

  ghost predicate InModules(entries: seq<FuncEntryDes>, n: nat) {
    forall i {:trigger entries[i]} :: 0 <= i < |entries| ==> entries[i].moduleIndex < n
  }

  function FpDeltas(entries: seq<FuncEntryDes>): seq<FpDelta> {
    seq(|entries|, i requires 0 <= i < |entries| => FpDelta(entries[i].codeAddr, entries[i].fpDeltaPrevFramSp, entries[i].funcSize))
  }

  /** The map after the entries are saved one after the other. */
  function SavedAll(saved: map<U32, map<U32, U64>>, entries: seq<FuncEntryDes>, hashes: seq<U32>): map<U32, map<U32, U64>>
    requires InModules(entries, |hashes|)
  {
    if |entries| == 0 then saved
    else
      var e := entries[|entries| - 1];
      Saved(SavedAll(saved, entries[..|entries| - 1], hashes), hashes[e.moduleIndex], e.indexInKind, e.codeAddr)
  }

  /** What the stack map parser is given for one module: nothing for an empty stack map. */
  function StackMapCallOf(m: ModuleSectionDes, startAddr: U64): seq<StackMapCall> {
    if |m.stackMap| == 0 then [] else [StackMapCall(m.stackMap, m.hostCodeSectionAddr, startAddr)]
  }

  /** The same for all modules, in order. */
  function StackMapCalls(modules: seq<ModuleSectionDes>, codeBase: U64): seq<StackMapCall>
    requires codeBase + |AllCode(modules)| < 0x1_0000_0000_0000_0000
  {
    if |modules| == 0 then []
    else
      var m := modules[|modules| - 1];
      var before := modules[..|modules| - 1];
      StackMapCalls(before, codeBase) + StackMapCallOf(m, codeBase + |AllCode(before)|)
  }

  /** The modules that have a stack map. */
  ghost function Stacked(modules: seq<ModuleSectionDes>): set<int> {
    set k | 0 <= k < |modules| && modules[k].stackMap != []
  }

  lemma StackedMore(modules: seq<ModuleSectionDes>)
    requires |modules| > 0
    ensures var n := |modules| - 1;
      |Stacked(modules)| == |Stacked(modules[..n])| + if modules[n].stackMap != [] then 1 else 0
  {
    var n := |modules| - 1;
    assert Stacked(modules) == if modules[n].stackMap != [] then Stacked(modules[..n]) + {n} else Stacked(modules[..n]);
  }

  /** One call for each module that has a stack map, in order, with both of its addresses. */
  lemma {:induction false} StackMapCallAt(modules: seq<ModuleSectionDes>, codeBase: U64, i: nat)
    requires codeBase + |AllCode(modules)| < 0x1_0000_0000_0000_0000 && i < |modules|
    ensures |StackMapCalls(modules, codeBase)| == |Stacked(modules)|
    ensures modules[i].stackMap != [] ==>
      && |Stacked(modules[..i])| < |Stacked(modules)|
      && var call := StackMapCalls(modules, codeBase)[|Stacked(modules[..i])|];
         && call.stackMap == modules[i].stackMap
         && call.hostCodeSectionAddr == modules[i].hostCodeSectionAddr
         && call.deviceCodeSectionAddr == codeBase + Start(modules, i)
    decreases |modules|
  {
    hide AllCode, Stacked;
    var n := |modules| - 1;
    StackedMore(modules);
    LastCode(modules);
    if n == 0 {
      assert modules[..0] == [] && |Stacked([])| == 0 && |AllCode([])| == 0 by {
        NoneStacked();
      }
    } else {
      StackMapCallAt(modules[..n], codeBase, if i < n then i else 0);
      assert i < n ==> modules[..n][..i] == modules[..i];
    }
  }

  lemma NoneStacked()
    ensures |Stacked([])| == 0 && |AllCode([])| == 0
  {
    assert Stacked([]) == {};
  }

  function DeviceAddrs(modules: seq<ModuleSectionDes>, codeBase: U64): seq<U64>
    requires codeBase + |AllCode(modules)| < 0x1_0000_0000_0000_0000
  {
    if |modules| == 0 then []
    else
      var before := modules[..|modules| - 1];
      DeviceAddrs(before, codeBase) + [codeBase + |AllCode(before)|]
  }

  /** The numbers of things fit in the file, and there are as many hashes as its kind asks for. */
  ghost predicate Countable(kind: Kind, p: Pack, moduleNum: nat) {
    && |p.entries| < 0x1_0000_0000 && moduleNum < 0x1_0000_0000
    && |p.hashes| == if kind.Aot? then moduleNum else 0
  }

  /** Reads how many functions there are, and their records. */
  method ReadEntries(input: Input, ghost expected: seq<FuncEntryDes>, ghost rest: seq<Byte>)
    returns (outcome: Outcome, entries: seq<FuncEntryDes>)
    requires input.Valid()
    modifies input`offset, input`good
    ensures input.Valid() && old(input.offset) <= input.offset && (input.good ==> old(input.good))
    ensures outcome.Fine? && input.good && (input.kind.Stub? ==> ENTRY_SIZE * |entries| < 0x1_0000_0000) ==>
      input.bytes[old(input.offset)..input.offset] == Bytes(4, |entries|) + EncodeEntries(entries)
    ensures old(input.good) && |expected| < 0x1_0000_0000 && Bytes(4, |expected|) + (EncodeEntries(expected) + rest) <= old(input.Left()) ==>
      && (outcome.Fine? <==> (input.kind.Stub? ==> |expected| > 0))
      && (outcome.Fine? ==> entries == expected && input.good && rest <= input.Left())
  {
    hide Bytes, EncodeEntries, DecodeEntries;
    entries := [];
    DecodeEncodedEntries(expected);
    ghost var o0 := input.offset;
    var entryNum;
    outcome, entryNum := ReadNumber(input, |expected|, EncodeEntries(expected) + rest);
    if !outcome.Fine? {
      return;
    }
    ghost var o1 := input.offset;
    var raw;
    outcome, raw := input.Read(ENTRY_SIZE * entryNum, EncodeEntries(expected), rest);
    if !outcome.Fine? {
      return;
    }
    entries := DecodeEntries(raw, entryNum);
    EncodeDecodedEntries(raw, entryNum);
    Slices(input.bytes, o0, o1, input.offset);
  }

  /** Reads everything before the modules. */
  method ReadHeader(input: Input, ghost expected: Pack, ghost expectedNum: nat, ghost rest: seq<Byte>)
    returns (outcome: Outcome, entries: seq<FuncEntryDes>, moduleNum: U32, totalCodeSize: U32, aotFileHashs: seq<U32>)
    requires input.Valid()
    modifies input`offset, input`good
    ensures input.Valid() && old(input.offset) <= input.offset && (input.good ==> old(input.good))
    ensures outcome.Fine? ==> |aotFileHashs| == if input.kind.Aot? then moduleNum else 0
    ensures outcome.Fine? && input.good && (input.kind.Stub? ==> ENTRY_SIZE * |entries| < 0x1_0000_0000) ==>
      input.bytes[old(input.offset)..input.offset] == EncodeHeader(Pack(entries, totalCodeSize, aotFileHashs, []), moduleNum)
    ensures old(input.good) && Countable(input.kind, expected, expectedNum) && EncodeHeader(expected, expectedNum) + rest <= old(input.Left()) ==>
      && (outcome.Fine? <==> (input.kind.Stub? ==> |expected.entries| > 0))
      && (outcome.Fine? ==>
            && entries == expected.entries && moduleNum == expectedNum && totalCodeSize == expected.totalCodeSize
            && aotFileHashs == expected.hashes && input.good && rest <= input.Left())
  {
    hide EncodeHeader, Bytes, EncodeEntries, EncodeHashes, DecodeHashes;
    moduleNum, totalCodeSize, aotFileHashs := 0, 0, [];
    ghost var rest3 := EncodeHashes(expected.hashes) + rest;
    ghost var rest2 := Bytes(4, expected.totalCodeSize) + rest3;
    ghost var rest1 := Bytes(4, expectedNum) + rest2;
    EncodedHeader(expected, expectedNum, rest);
    DecodeEncodedHashes(expected.hashes);
    ghost var o0 := input.offset;
    outcome, entries := ReadEntries(input, expected.entries, rest1);
    if !outcome.Fine? {
      return;
    }
    ghost var o1 := input.offset;
    outcome, moduleNum := ReadNumber(input, expectedNum, rest2);
    if !outcome.Fine? {
      return;
    }
    ghost var o2 := input.offset;
    outcome, totalCodeSize := ReadNumber(input, expected.totalCodeSize, rest3);
    if !outcome.Fine? {
      return;
    }
    ghost var o3 := input.offset;
    if input.kind.Aot? {
      var raw;
      outcome, raw := input.Read(4 * moduleNum, EncodeHashes(expected.hashes), rest);
      aotFileHashs := DecodeHashes(raw, moduleNum);
      EncodeDecodedHashes(raw, moduleNum);
    } else {
      NoHashes(rest);
    }
    if input.good && (input.kind.Stub? ==> ENTRY_SIZE * |entries| < 0x1_0000_0000) {
      HeaderFromParts(input.bytes, o0, o1, o2, o3, input.offset, Pack(entries, totalCodeSize, aotFileHashs, []), moduleNum);
    }
  }

  lemma NoHashes(rest: seq<Byte>)
    ensures EncodeHashes([]) == [] && EncodeHashes([]) + rest == rest
  {
  }

  lemma EncodedHeader(p: Pack, moduleNum: nat, rest: seq<Byte>)
    ensures EncodeHeader(p, moduleNum) + rest ==
      Bytes(4, |p.entries|) + (EncodeEntries(p.entries) + (Bytes(4, moduleNum) +
        (Bytes(4, p.totalCodeSize) + (EncodeHashes(p.hashes) + rest))))
  {
    hide Bytes, EncodeEntries, EncodeHashes;
    var e, n, t, h := EncodeEntries(p.entries), Bytes(4, moduleNum), Bytes(4, p.totalCodeSize), EncodeHashes(p.hashes);
    Associative(t, h, rest);
    Associative(n, t + h, rest);
    Associative(e, n + (t + h), rest);
    Associative(Bytes(4, |p.entries|), e + (n + (t + h)), rest);
  }

  lemma HeaderFromParts(bytes: seq<Byte>, o0: nat, o1: nat, o2: nat, o3: nat, o4: nat, p: Pack, moduleNum: U32)
    requires o0 <= o1 <= o2 <= o3 <= o4 <= |bytes|
    requires bytes[o0..o1] == Bytes(4, |p.entries|) + EncodeEntries(p.entries)
    requires bytes[o1..o2] == Bytes(4, moduleNum) && bytes[o2..o3] == Bytes(4, p.totalCodeSize)
    requires bytes[o3..o4] == EncodeHashes(p.hashes)
    ensures bytes[o0..o4] == EncodeHeader(p, moduleNum)
  {
    hide Bytes, EncodeEntries, EncodeHashes;
    Slices(bytes, o2, o3, o4);
    Slices(bytes, o1, o2, o4);
    Slices(bytes, o0, o1, o4);
    Associative(Bytes(4, |p.entries|), EncodeEntries(p.entries), bytes[o1..o4]);
  }

  /** All modules can be read from a file of this kind, and their code fits the area. */
  ghost predicate Readable(kind: Kind, modules: seq<ModuleSectionDes>, room: nat) {
    && (kind.Stub? ==> forall i {:trigger modules[i]} :: 0 <= i < |modules| ==> |modules[i].code| > 0 && |modules[i].stackMap| > 0)
    && |AllCode(modules)| <= room
  }

  lemma ReadableEach(kind: Kind, modules: seq<ModuleSectionDes>, room: nat, i: nat)
    requires i < |modules| && Readable(kind, modules, room)
    ensures ReadableModule(kind, modules[i], room - |AllCode(modules[..i])|)
  {
    hide AllCode;
    SectionAt(modules, i);
  }

  lemma ReadableMore(kind: Kind, modules: seq<ModuleSectionDes>, room: nat, i: nat)
    requires i < |modules|
    requires Readable(kind, modules[..i], room) && ReadableModule(kind, modules[i], room - |AllCode(modules[..i])|)
    ensures Readable(kind, modules[..i + 1], room)
  {
    var upTo := modules[..i + 1];
    assert upTo == modules[..i] + [modules[i]];
    assert upTo[..i] == modules[..i];
  }

  lemma OneMore(modules: seq<ModuleSectionDes>, m: ModuleSectionDes, codeBase: U64)
    requires codeBase + |AllCode(modules)| + |m.code| < 0x1_0000_0000_0000_0000
    ensures AllCode(modules + [m]) == AllCode(modules) + m.code
    ensures DeviceAddrs(modules + [m], codeBase) == DeviceAddrs(modules, codeBase) + [codeBase + |AllCode(modules)|]
    ensures StackMapCalls(modules + [m], codeBase) == StackMapCalls(modules, codeBase) + StackMapCallOf(m, codeBase + |AllCode(modules)|)
  {
    var more := modules + [m];
    assert more[..|more| - 1] == modules;
  }

  lemma OneMoreEncoded(modules: seq<ModuleSectionDes>, m: ModuleSectionDes)
    ensures EncodeModules(modules + [m]) == EncodeModules(modules) + EncodeModule(m)
  {
    hide EncodeModule;
    EncodeModulesConcat(modules, [m]);
    assert EncodeModules([m]) == EncodeModule(m) by {
      assert [m][1..] == [];
      assert EncodeModules([]) == [];
      assert EncodeModule(m) + [] == EncodeModule(m);
    }
  }

  lemma EncodedFrom(modules: seq<ModuleSectionDes>, i: nat, rest: seq<Byte>)
    requires i < |modules|
    ensures EncodeModules(modules[i..]) + rest == EncodeModule(modules[i]) + (EncodeModules(modules[i + 1..]) + rest)
  {
    hide EncodeModule;
    assert modules[i..][0] == modules[i] && modules[i..][1..] == modules[i + 1..];
    Associative(EncodeModule(modules[i]), EncodeModules(modules[i + 1..]), rest);
  }

  /** The code of the modules is at the front of the area, end to end, and they have their addresses and stack maps. */
  ghost predicate LaidOut(des: seq<ModuleSectionDes>, device: seq<U64>, calls: seq<StackMapCall>, area: seq<Byte>, codeBase: U64) {
    && |AllCode(des)| <= |area| && codeBase + |area| < 0x1_0000_0000_0000_0000
    && area[..|AllCode(des)|] == AllCode(des)
    && device == DeviceAddrs(des, codeBase)
    && calls == StackMapCalls(des, codeBase)
  }

  lemma LaidOutMore(des: seq<ModuleSectionDes>, device: seq<U64>, calls: seq<StackMapCall>, before: seq<Byte>,
                    m: ModuleSectionDes, area: seq<Byte>, codeBase: U64)
    requires LaidOut(des, device, calls, before, codeBase)
    requires var n := |AllCode(des)|; |area| == |before| && area[..n] == before[..n] && n + |m.code| <= |area| && area[n..n + |m.code|] == m.code
    ensures codeBase + |AllCode(des)| < 0x1_0000_0000_0000_0000
    ensures |AllCode(des + [m])| == |AllCode(des)| + |m.code|
    ensures var startAddr := codeBase + |AllCode(des)|;
      LaidOut(des + [m], device + [startAddr], calls + StackMapCallOf(m, startAddr), area, codeBase)
  {
    hide AllCode, DeviceAddrs, StackMapCalls;
    OneMore(des, m, codeBase);
    Slices(area, 0, |AllCode(des)|, |AllCode(des)| + |m.code|);
  }

  /** The first `i` modules were read and the rest is left. */
  ghost predicate Follows(kind: Kind, expected: seq<ModuleSectionDes>, i: nat, des: seq<ModuleSectionDes>,
                          left: seq<Byte>, rest: seq<Byte>, room: nat) {
    && i <= |expected| && des == expected[..i]
    && EncodeModules(expected[i..]) + rest <= left
    && Readable(kind, expected[..i], room)
  }

  /** The module that comes next, and what is to be left after it. */
  lemma FollowsNext(kind: Kind, expected: seq<ModuleSectionDes>, i: nat, des: seq<ModuleSectionDes>,
                    left: seq<Byte>, rest: seq<Byte>, room: nat)
    requires Follows(kind, expected, i, des, left, rest, room) && i < |expected|
    ensures EncodeModule(expected[i]) + (EncodeModules(expected[i + 1..]) + rest) <= left
    ensures !ReadableModule(kind, expected[i], room - |AllCode(des)|) ==> !Readable(kind, expected, room)
  {
    hide EncodeModule, EncodeModules, AllCode, Readable, ReadableModule;
    EncodedFrom(expected, i, rest);
    if Readable(kind, expected, room) {
      ReadableEach(kind, expected, room, i);
    }
  }

  lemma FollowsMore(kind: Kind, expected: seq<ModuleSectionDes>, i: nat, des: seq<ModuleSectionDes>,
                    before: seq<Byte>, left: seq<Byte>, rest: seq<Byte>, room: nat)
    requires Follows(kind, expected, i, des, before, rest, room) && i < |expected|
    requires ReadableModule(kind, expected[i], room - |AllCode(des)|) && EncodeModules(expected[i + 1..]) + rest <= left
    ensures Follows(kind, expected, i + 1, des + [expected[i]], left, rest, room)
  {
    hide EncodeModule, EncodeModules, AllCode, Readable, ReadableModule;
    ReadableMore(kind, expected, room, i);
  }

  /** Reads the modules and lays their code end to end. */
  method ReadModules(input: Input, moduleNum: U32, area: array<Byte>, codeBase: U64, parser: StackMapParser,
                     ghost expected: seq<ModuleSectionDes>, ghost rest: seq<Byte>)
    returns (outcome: Outcome, des: seq<ModuleSectionDes>, deviceCodeSectionAddr: seq<U64>)
    requires input.Valid() && codeBase + area.Length < 0x1_0000_0000_0000_0000
    modifies input`offset, input`good, area, parser`stackMaps
    ensures input.Valid() && old(input.offset) <= input.offset && (input.good ==> old(input.good))
    ensures outcome.Fine? ==>
      && |des| == moduleNum && old(parser.stackMaps) <= parser.stackMaps
      && LaidOut(des, deviceCodeSectionAddr, parser.stackMaps[|old(parser.stackMaps)|..], area[..], codeBase)
    ensures outcome.Fine? && input.good ==> input.bytes[old(input.offset)..input.offset] == EncodeModules(des)
    ensures old(input.good) && |expected| == moduleNum && EncodeModules(expected) + rest <= old(input.Left()) ==>
      && (outcome.Fine? <==> Readable(input.kind, expected, area.Length))
      && (outcome.Fine? ==> des == expected && input.good && rest <= input.Left())
  {
    hide AllCode, EncodeModules, EncodeModule, DeviceAddrs, StackMapCalls, Readable, ReadableModule, LaidOut, Follows;
    ghost var start := input.offset;
    ghost var matches := input.good && |expected| == moduleNum && EncodeModules(expected) + rest <= input.Left();
    ghost var calls := [];
    outcome, des, deviceCodeSectionAddr := Fine, [], [];
    var curUnitOffset := 0;
    NoModules(area[..], codeBase, input.kind, expected, input.Left(), rest);
    for i := 0 to moduleNum
      invariant input.Valid() && start <= input.offset && (input.good ==> old(input.good))
      invariant outcome.Fine? && |des| == i && curUnitOffset == |AllCode(des)| <= area.Length
      invariant LaidOut(des, deviceCodeSectionAddr, calls, area[..], codeBase)
      invariant parser.stackMaps == old(parser.stackMaps) + calls
      invariant input.good ==> input.bytes[start..input.offset] == EncodeModules(des)
      invariant matches ==> input.good && Follows(input.kind, expected, i, des, input.Left(), rest, area.Length)
    {
      ghost var m0 := if matches then expected[i] else ModuleSectionDes(0, [], []);
      ghost var rest0 := if matches then EncodeModules(expected[i + 1..]) + rest else [];
      ghost var offset, left, contents := input.offset, input.Left(), area[..];
      if matches {
        FollowsNext(input.kind, expected, i, des, left, rest, area.Length);
      }
      var m;
      outcome, m := ReadModule(input, area, curUnitOffset, m0, rest0);
      if !outcome.Fine? {
        return;
      }
      LaidOutMore(des, deviceCodeSectionAddr, calls, contents, m, area[..], codeBase);
      if matches {
        FollowsMore(input.kind, expected, i, des, left, input.Left(), rest, area.Length);
      }
      if input.good {
        Slices(input.bytes, start, offset, input.offset);
        OneMoreEncoded(des, m);
      }
      var startAddr := codeBase + curUnitOffset;
      if |m.stackMap| != 0 {
        parser.stackMaps := parser.stackMaps + [StackMapCall(m.stackMap, m.hostCodeSectionAddr, startAddr)];
      }
      calls := calls + StackMapCallOf(m, startAddr);
      des := des + [m];
      deviceCodeSectionAddr := deviceCodeSectionAddr + [startAddr];
      curUnitOffset := curUnitOffset + |m.code|;
    }
    if matches {
      AllFollowed(input.kind, expected, des, input.Left(), rest, area.Length);
    }
  }

  lemma AllFollowed(kind: Kind, expected: seq<ModuleSectionDes>, des: seq<ModuleSectionDes>, left: seq<Byte>, rest: seq<Byte>, room: nat)
    requires Follows(kind, expected, |expected|, des, left, rest, room)
    ensures des == expected && rest <= left && Readable(kind, expected, room)
  {
    hide Readable;
    assert expected[..|expected|] == expected && expected[|expected|..] == [];
    assert EncodeModules([]) + rest == rest;
  }

  lemma NoModules(area: seq<Byte>, codeBase: U64, kind: Kind, expected: seq<ModuleSectionDes>, left: seq<Byte>, rest: seq<Byte>)
    requires codeBase + |area| < 0x1_0000_0000_0000_0000
    ensures |AllCode([])| == 0 && EncodeModules([]) == [] && LaidOut([], [], [], area, codeBase)
    ensures EncodeModules(expected) + rest <= left ==> Follows(kind, expected, 0, [], left, rest, |area|)
  {
    assert expected[0..] == expected && expected[..0] == [];
    assert area[..0] == [];
  }

  /** The functions and modules of one file. */
  class ModulePackInfo {
    const kind: Kind
    var entries: seq<FuncEntryDes>
    var des: seq<ModuleSectionDes>
    var deviceCodeSectionAddr: seq<U64>
    var totalCodeSize: U32
    var aotFileHashs: seq<U32>
    var machineCode: array<Byte>

    /** The sizes added up so far, and a hash for each module of an AOT file. */
    ghost predicate Valid()
      reads this
    {
      && totalCodeSize == |AllCode(des)| % 0x1_0000_0000
      && |aotFileHashs| == if kind.Aot? then |des| else 0
    }

    ghost function Packed(): Pack
      reads this
    {
      Pack(entries, totalCodeSize, aotFileHashs, des)
    }

    constructor (kind: Kind)
      ensures Valid() && this.kind == kind && Packed() == Pack([], 0, [], [])
    {
      this.kind := kind;
      entries, des, deviceCodeSectionAddr, totalCodeSize, aotFileHashs := [], [], [], 0, [];
      machineCode := new Byte[0];
    }

    /** The bytes of the record that belong to no field are what they happen to be. */
    method AddStubEntry(kind: Byte, indexInKind: I32, offset: U64, moduleIndex: U32, delta: I32, size: U32, padding: Padding)
      requires Valid()
      modifies `entries
      ensures Valid()
      ensures entries == old(entries) + [FuncEntryDes(offset, kind, ToUnsigned(indexInKind), moduleIndex, delta, size, padding)]
    {
      entries := entries + [FuncEntryDes(offset, kind, ToUnsigned(indexInKind), moduleIndex, delta, size, padding)];
    }

    method AddModuleDes(moduleDes: ModuleSectionDes, hash: U32)
      requires Valid()
      modifies `des, `totalCodeSize, `aotFileHashs
      ensures Valid() && des == old(des) + [moduleDes]
      ensures aotFileHashs == old(aotFileHashs) + if kind.Aot? then [hash] else []
    {
      des := des + [moduleDes];
      totalCodeSize := (totalCodeSize + |moduleDes.code|) % 0x1_0000_0000;
      if kind.Aot? {
        aotFileHashs := aotFileHashs + [hash];
      }
      assert des[..|des| - 1] == old(des);
    }

    /** Writes the file. */
    method Save() returns (moduleFile: seq<Byte>)
      requires |entries| < 0x1_0000_0000 && |des| < 0x1_0000_0000
      ensures moduleFile == Encode(Packed())
    {
      hide EncodeModule, Bytes;
      moduleFile := Bytes(4, |entries|);
      moduleFile := moduleFile + EncodeEntries(entries);
      var moduleNum := |des|;
      moduleFile := moduleFile + Bytes(4, moduleNum);
      moduleFile := moduleFile + Bytes(4, totalCodeSize);
      moduleFile := moduleFile + EncodeHashes(aotFileHashs);
      ghost var header := moduleFile;
      EncodedHeader(Packed(), moduleNum, []);
      assert header == EncodeHeader(Packed(), moduleNum);
      assert des[..0] == [];
      for i := 0 to moduleNum
        invariant moduleFile == header + EncodeModules(des[..i])
      {
        ghost var before := moduleFile;
        moduleFile := moduleFile + Bytes(8, des[i].hostCodeSectionAddr);
        moduleFile := moduleFile + Bytes(4, |des[i].code|);
        moduleFile := moduleFile + des[i].code;
        moduleFile := moduleFile + Bytes(4, |des[i].stackMap|);
        moduleFile := moduleFile + des[i].stackMap;
        Written(before, des[i]);
        OneMoreEncoded(des[..i], des[i]);
        assert des[..i + 1] == des[..i] + [des[i]];
        Associative(header, EncodeModules(des[..i]), EncodeModule(des[i]));
      }
      assert des[..moduleNum] == des;
    }

    /** Tells the stack map parser where each function will be. A module index must be that of a module. */
    method RegisterFpDeltas(parser: StackMapParser) returns (outcome: Outcome)
      requires |deviceCodeSectionAddr| == |des|
      modifies parser`fpDeltas
      ensures outcome.Fine? <==> InModules(entries, |des|)
      ensures !outcome.Fine? ==> outcome.Overrun?
      ensures outcome.Fine? ==>
        parser.fpDeltas == old(parser.fpDeltas) + FpDeltas(AllRelocated(entries, deviceCodeSectionAddr))
      ensures outcome.Fine? ==> |parser.fpDeltas| == |old(parser.fpDeltas)| + |entries| && old(parser.fpDeltas) <= parser.fpDeltas
      ensures outcome.Fine? ==> forall i {:trigger entries[i]} :: 0 <= i < |entries| ==>
        var e, d := entries[i], parser.fpDeltas[|old(parser.fpDeltas)| + i];
        && d.funAddr == (e.codeAddr + deviceCodeSectionAddr[e.moduleIndex]) % 0x1_0000_0000_0000_0000
        && d.delta == e.fpDeltaPrevFramSp && d.funSize == e.funcSize
    {
      for i := 0 to |entries|
        invariant InModules(entries[..i], |des|)
        invariant parser.fpDeltas == old(parser.fpDeltas) + FpDeltas(AllRelocated(entries[..i], deviceCodeSectionAddr))
      {
        var e := entries[i];
        if e.moduleIndex >= |des| {
          return Overrun;
        }
        var startAddr := deviceCodeSectionAddr[e.moduleIndex];
        var funAddr := (startAddr + e.codeAddr) % 0x1_0000_0000_0000_0000;
        parser.fpDeltas := parser.fpDeltas + [FpDelta(funAddr, e.fpDeltaPrevFramSp, e.funcSize)];
        assert entries[..i + 1] == entries[..i] + [e];
      }
      assert entries[..|entries|] == entries;
      return Fine;
    }

    /** Gives each function its address and, for AOT files, tells the loader. */
    method Relocate(loader: FileLoader)
      requires InModules(entries, |des|)
      requires |deviceCodeSectionAddr| == |des| && |aotFileHashs| == if kind.Aot? then |des| else 0
      modifies `entries, loader
      ensures entries == AllRelocated(old(entries), deviceCodeSectionAddr) && |entries| == |old(entries)|
      ensures forall i {:trigger entries[i]} :: 0 <= i < |entries| ==> var e := old(entries)[i];
        entries[i] == e.(codeAddr := (e.codeAddr + deviceCodeSectionAddr[e.moduleIndex]) % 0x1_0000_0000_0000_0000)
      ensures loader.hashToEntryMap ==
        if kind.Aot? then SavedAll(old(loader.hashToEntryMap), entries, aotFileHashs) else old(loader.hashToEntryMap)
    {
      ghost var before := entries;
      ghost var relocated := AllRelocated(before, deviceCodeSectionAddr);
      ghost var saved := loader.hashToEntryMap;
      for i := 0 to |entries|
        invariant |entries| == |before|
        invariant forall k {:trigger entries[k]} :: 0 <= k < |before| ==> entries[k] == if k < i then relocated[k] else before[k]
        invariant loader.hashToEntryMap == if kind.Aot? then SavedAll(saved, relocated[..i], aotFileHashs) else saved
        modifies `entries, loader
      {
        hide SavedAll, Saved;
        var startAddr := deviceCodeSectionAddr[entries[i].moduleIndex];
        entries := entries[i := entries[i].(codeAddr := (entries[i].codeAddr + startAddr) % 0x1_0000_0000_0000_0000)];
        if kind.Aot? {
          var curFileHash := aotFileHashs[entries[i].moduleIndex];
          loader.SaveAOTFuncEntry(curFileHash, entries[i].indexInKind, entries[i].codeAddr);
          SavedAllMore(saved, relocated[..i], relocated[i], aotFileHashs);
          assert relocated[..i + 1] == relocated[..i] + [relocated[i]];
        }
      }
      assert entries == relocated == relocated[..|before|];
    }

    /** Reads the file, lays the code out and gives the stack maps to the parser. */
    method ReadPack(input: Input, codeBase: U64, parser: StackMapParser, ghost saved: Pack)
      returns (outcome: Outcome, ghost loaded: Pack)
      requires input.Valid() && input.offset == 0 && input.good && input.kind == kind
      requires codeBase + 0x1_0000_0000 <= 0x1_0000_0000_0000_0000
      modifies `entries, `des, `deviceCodeSectionAddr, `aotFileHashs, `machineCode
      modifies input`offset, input`good, parser`stackMaps
      ensures outcome.Fine? ==> entries == loaded.entries && IsRead(loaded, codeBase, old(parser.stackMaps), parser)
      ensures outcome.Fine? && input.good && (kind.Stub? ==> ENTRY_SIZE * |loaded.entries| < 0x1_0000_0000) ==>
        && input.offset <= |input.bytes|
        && input.bytes[..input.offset] == Encode(loaded)
      ensures Countable(kind, saved, |saved.modules|) && Encode(saved) <= input.bytes ==>
        && (outcome.Fine? <==> (kind.Stub? ==> |saved.entries| > 0) && Readable(kind, saved.modules, saved.totalCodeSize))
        && (outcome.Fine? ==> loaded == saved && input.good)
    {
      hide EncodeHeader, EncodeModules, EncodeModule, AllCode, Readable, LaidOut, DeviceAddrs, StackMapCalls;
      loaded := Pack([], 0, [], []);
      HeaderSize(saved, |saved.modules|);
      if kind.Stub? && |input.bytes| <= 1 {
        return Fatal, loaded;
      }
      assert input.Left() == input.bytes;
      var moduleNum, total;
      outcome, entries, moduleNum, total, aotFileHashs :=
        ReadHeader(input, saved, |saved.modules|, EncodeModules(saved.modules));
      if !outcome.Fine? {
        return;
      }
      machineCode := new Byte[total](_ => 0);
      ghost var afterHeader := input.offset;
      assert EncodeModules(saved.modules) + [] == EncodeModules(saved.modules);
      outcome, des, deviceCodeSectionAddr := ReadModules(input, moduleNum, machineCode, codeBase, parser, saved.modules, []);
      if !outcome.Fine? {
        return;
      }
      loaded := Pack(entries, total, aotFileHashs, des);
      DeviceAddrsCount(des, codeBase, deviceCodeSectionAddr, parser.stackMaps[|old(parser.stackMaps)|..], machineCode[..]);
      if input.good {
        Slices(input.bytes, 0, afterHeader, input.offset);
        HeaderOf(loaded, moduleNum);
      }
    }

    /** The modules are laid out in the area, and the stack map parser has their stack maps. */
    ghost predicate IsRead(loaded: Pack, codeBase: U64, stackMaps: seq<StackMapCall>, parser: StackMapParser)
      reads this, machineCode, parser
    {
      && des == loaded.modules && aotFileHashs == loaded.hashes
      && |aotFileHashs| == (if kind.Aot? then |des| else 0)
      && machineCode.Length == loaded.totalCodeSize
      && stackMaps <= parser.stackMaps
      && LaidOut(des, deviceCodeSectionAddr, parser.stackMaps[|stackMaps|..], machineCode[..], codeBase)
      && |deviceCodeSectionAddr| == |des|
    }

    /** Loads a file. What is loaded is what was saved, if that can be loaded at all, and the reading ends where the saved
        bytes end. Whatever is loaded without running out of bytes encodes to the bytes that were read. */
    method Load(input: Input, codeBase: U64, parser: StackMapParser, loader: FileLoader, ghost saved: Pack)
      returns (outcome: Outcome, ghost loaded: Pack)
      requires input.Valid() && input.offset == 0 && input.good && input.kind == kind
      requires codeBase + 0x1_0000_0000 <= 0x1_0000_0000_0000_0000
      modifies `entries, `des, `deviceCodeSectionAddr, `aotFileHashs, `machineCode
      modifies input`offset, input`good, parser, loader
      ensures outcome.Fine? ==> IsRead(loaded, codeBase, old(parser.stackMaps), parser)
      ensures outcome.Fine? ==> InModules(loaded.entries, |des|) && entries == AllRelocated(loaded.entries, deviceCodeSectionAddr)
      ensures outcome.Fine? ==> parser.fpDeltas == old(parser.fpDeltas) + FpDeltas(entries)
      ensures outcome.Fine? ==> |entries| == |loaded.entries| && |parser.fpDeltas| == |old(parser.fpDeltas)| + |entries|
      ensures outcome.Fine? ==> forall i {:trigger entries[i]} {:trigger loaded.entries[i]} :: 0 <= i < |entries| ==>
        var e, d := loaded.entries[i], parser.fpDeltas[|old(parser.fpDeltas)| + i];
        && entries[i] == e.(codeAddr := (e.codeAddr + deviceCodeSectionAddr[e.moduleIndex]) % 0x1_0000_0000_0000_0000)
        && d.funAddr == entries[i].codeAddr && d.delta == e.fpDeltaPrevFramSp && d.funSize == e.funcSize
      ensures outcome.Fine? ==> forall i, j {:trigger entries[i], des[j]} :: 0 <= i < |entries| && 0 <= j < |des| ==>
        var e, addr := loaded.entries[i], entries[i].codeAddr;
        e.codeAddr < |des[e.moduleIndex].code| ==>
          && (deviceCodeSectionAddr[j] <= addr < deviceCodeSectionAddr[j] + |des[j].code| <==> j == e.moduleIndex)
          && codeBase <= addr < codeBase + machineCode.Length
          && machineCode[addr - codeBase] == des[e.moduleIndex].code[e.codeAddr]
      ensures outcome.Fine? ==>
        && loader.hashToEntryMap ==
             if kind.Aot? then SavedAll(old(loader.hashToEntryMap), entries, aotFileHashs) else old(loader.hashToEntryMap)
      ensures outcome.Fine? && input.good && (kind.Stub? ==> ENTRY_SIZE * |loaded.entries| < 0x1_0000_0000) ==>
        && input.offset <= |input.bytes|
        && input.bytes[..input.offset] == Encode(loaded)
      ensures Countable(kind, saved, |saved.modules|) && Encode(saved) <= input.bytes ==>
        && (outcome.Fine? <==> Loadable(kind, saved))
        && (outcome.Fine? ==> loaded == saved && input.good && input.offset == |Encode(saved)|)
    {
      hide Encode, LaidOut, Readable, AllRelocated, FpDeltas, SavedAll;
      EncodedSize(saved);
      outcome, loaded := ReadPack(input, codeBase, parser, saved);
      if !outcome.Fine? {
        return;
      }
      outcome := RegisterFpDeltas(parser);
      if !outcome.Fine? {
        return;
      }
      Relocate(loader);
      AllInSections(des, deviceCodeSectionAddr, parser.stackMaps[|old(parser.stackMaps)|..], machineCode[..], codeBase,
                    loaded.entries, entries);
    }
  }

  /** Where the functions are after loading, one and all. */
  lemma AllInSections(des: seq<ModuleSectionDes>, device: seq<U64>, calls: seq<StackMapCall>, area: seq<Byte>, codeBase: U64,
                      entries: seq<FuncEntryDes>, entries': seq<FuncEntryDes>)
    requires LaidOut(des, device, calls, area, codeBase) && |device| == |des| && InModules(entries, |des|)
    requires entries' == AllRelocated(entries, device)
    ensures forall i, j {:trigger entries'[i], des[j]} :: 0 <= i < |entries'| && 0 <= j < |des| ==>
      var e, addr := entries[i], entries'[i].codeAddr;
      e.codeAddr < |des[e.moduleIndex].code| ==>
        && (device[j] <= addr < device[j] + |des[j].code| <==> j == e.moduleIndex)
        && codeBase <= addr < codeBase + |area|
        && area[addr - codeBase] == des[e.moduleIndex].code[e.codeAddr]
  {
    hide LaidOut;
    forall i, j | 0 <= i < |entries'| && 0 <= j < |des| && entries[i].codeAddr < |des[entries[i].moduleIndex].code|
      ensures var e, addr := entries[i], entries'[i].codeAddr;
        && (device[j] <= addr < device[j] + |des[j].code| <==> j == e.moduleIndex)
        && codeBase <= addr < codeBase + |area|
        && area[addr - codeBase] == des[e.moduleIndex].code[e.codeAddr]
    {
      RelocatedInSection(des, device, calls, area, codeBase, entries[i], j);
    }
  }

  lemma HeaderSize(p: Pack, moduleNum: nat)
    ensures |EncodeHeader(p, moduleNum)| >= 12 + ENTRY_SIZE * |p.entries|
  {
  }

  lemma EncodedSize(p: Pack)
    ensures |Encode(p)| >= ENTRY_SIZE * |p.entries|
  {
    HeaderSize(p, |p.modules|);
  }

  lemma HeaderOf(p: Pack, moduleNum: nat)
    ensures EncodeHeader(p.(modules := []), moduleNum) == EncodeHeader(p, moduleNum)
  {
  }

  lemma DeviceAddrsCount(des: seq<ModuleSectionDes>, codeBase: U64, device: seq<U64>, calls: seq<StackMapCall>, area: seq<Byte>)
    requires LaidOut(des, device, calls, area, codeBase)
    ensures |device| == |des|
    ensures forall i {:trigger device[i]} :: 0 <= i < |des| ==> device[i] == codeBase + Start(des, i)
  {
    DeviceAddrAt(des, codeBase);
  }

  lemma {:induction false} DeviceAddrAt(des: seq<ModuleSectionDes>, codeBase: U64)
    requires codeBase + |AllCode(des)| < 0x1_0000_0000_0000_0000
    ensures var device := DeviceAddrs(des, codeBase);
      |device| == |des| && forall i {:trigger device[i]} :: 0 <= i < |des| ==> device[i] == codeBase + Start(des, i)
  {
    if |des| > 0 {
      var before := des[..|des| - 1];
      DeviceAddrAt(before, codeBase);
      assert forall i {:trigger des[..i]} :: 0 <= i < |des| ==> des[..i] == before[..i];
    }
  }

  /** When a file can be loaded: a buffer must not hold an empty part, the code must fit the total size, and functions
      must be in modules that are there. */
  ghost predicate Loadable(kind: Kind, p: Pack) {
    && (kind.Stub? ==> |p.entries| > 0)
    && Readable(kind, p.modules, p.totalCodeSize)
    && InModules(p.entries, |p.modules|)
  }

  lemma SavedAllMore(saved: map<U32, map<U32, U64>>, entries: seq<FuncEntryDes>, e: FuncEntryDes, hashes: seq<U32>)
    requires InModules(entries, |hashes|) && e.moduleIndex < |hashes|
    ensures InModules(entries + [e], |hashes|)
    ensures SavedAll(saved, entries + [e], hashes) ==
      Saved(SavedAll(saved, entries, hashes), hashes[e.moduleIndex], e.indexInKind, e.codeAddr)
  {
    hide Saved;
    assert (entries + [e])[..|entries|] == entries;
  }

  lemma Written(before: seq<Byte>, m: ModuleSectionDes)
    ensures before + Bytes(8, m.hostCodeSectionAddr) + Bytes(4, |m.code|) + m.code + Bytes(4, |m.stackMap|) + m.stackMap ==
      before + EncodeModule(m)
  {
    hide Bytes;
  }

  function AllRelocated(entries: seq<FuncEntryDes>, device: seq<U64>): seq<FuncEntryDes>
    requires InModules(entries, |device|)
  {
    seq(|entries|, i requires 0 <= i < |entries| => Relocated(entries[i], device))
  }

  /** Where a function is after loading: if its offset is within its module's code, then within that module's section, in
      no other section, and the byte there is the one at that offset. */
  lemma RelocatedInSection(des: seq<ModuleSectionDes>, device: seq<U64>, calls: seq<StackMapCall>, area: seq<Byte>, codeBase: U64,
                           e: FuncEntryDes, j: nat)
    requires LaidOut(des, device, calls, area, codeBase) && |device| == |des| && e.moduleIndex < |des|
    requires e.codeAddr < |des[e.moduleIndex].code| && j < |des|
    ensures var funAddr := Relocated(e, device).codeAddr;
      && (device[j] <= funAddr < device[j] + |des[j].code| <==> j == e.moduleIndex)
      && codeBase <= funAddr < codeBase + |area|
      && area[funAddr - codeBase] == des[e.moduleIndex].code[e.codeAddr]
  {
    hide AllCode, StackMapCalls;
    var i := e.moduleIndex;
    DeviceAddrsCount(des, codeBase, device, calls, area);
    SectionAt(des, i);
    var at := Start(des, i) + e.codeAddr;
    assert area[at] == AllCode(des)[at];
    assert AllCode(des)[Start(des, i)..Start(des, i + 1)][e.codeAddr] == AllCode(des)[at];
    if j < i {
      SectionsDisjoint(des, j, i);
    } else if i < j {
      SectionsDisjoint(des, i, j);
    }
  }

  ghost predicate IsEntryOf(e: FuncEntryDes, hashes: seq<U32>, hash: U32, methodId: U32) {
    e.moduleIndex < |hashes| && hashes[e.moduleIndex] == hash && e.indexInKind == methodId
  }

  /** After the entries of a file are saved, a method is found at the last of its entries, and other methods are found
      where they were. */
  lemma {:induction false} LastEntryWins(saved: map<U32, map<U32, U64>>, entries: seq<FuncEntryDes>,
    hashes: seq<U32>, hash: U32, methodId: U32)
    requires InModules(entries, |hashes|)
    ensures forall i {:trigger entries[i]} ::
      0 <= i < |entries| && IsEntryOf(entries[i], hashes, hash, methodId)
      && (forall k {:trigger entries[k]} :: i < k < |entries| ==> !IsEntryOf(entries[k], hashes, hash, methodId)) ==>
      Lookup(SavedAll(saved, entries, hashes), hash, methodId) == entries[i].codeAddr
    ensures (forall i {:trigger entries[i]} :: 0 <= i < |entries| ==> !IsEntryOf(entries[i], hashes, hash, methodId)) ==>
      Lookup(SavedAll(saved, entries, hashes), hash, methodId) == Lookup(saved, hash, methodId)
  {
    if |entries| > 0 {
      hide Saved, Lookup;
      var n := |entries| - 1;
      var e, before := entries[n], entries[..n];
      LastEntryWins(saved, before, hashes, hash, methodId);
      LookupSaved(SavedAll(saved, before, hashes), hashes[e.moduleIndex], e.indexInKind, e.codeAddr, hash, methodId);
      assert forall i {:trigger before[i]} {:trigger entries[i]} :: 0 <= i < n ==> before[i] == entries[i];
    }
  }

  /** Each entry that is the last of its method is found, and methods without an entry are found where they were. */
  lemma LastEntriesWin(saved: map<U32, map<U32, U64>>, entries: seq<FuncEntryDes>, hashes: seq<U32>,
                       after: map<U32, map<U32, U64>>)
    requires InModules(entries, |hashes|) && after == SavedAll(saved, entries, hashes)
    ensures forall i {:trigger Lookup(after, hashes[entries[i].moduleIndex], entries[i].indexInKind)} :: 0 <= i < |entries| ==>
      var e := entries[i];
      (forall k {:trigger entries[k]} :: i < k < |entries| ==>
         entries[k].indexInKind != e.indexInKind || hashes[entries[k].moduleIndex] != hashes[e.moduleIndex]) ==>
      Lookup(after, hashes[e.moduleIndex], e.indexInKind) == e.codeAddr
    ensures forall hash, methodId {:trigger Lookup(after, hash, methodId)} ::
      (forall k {:trigger entries[k]} :: 0 <= k < |entries| ==>
         entries[k].indexInKind != methodId || hashes[entries[k].moduleIndex] != hash) ==>
      Lookup(after, hash, methodId) == Lookup(saved, hash, methodId)
  {
    hide SavedAll, Lookup;
    forall i | 0 <= i < |entries|
      ensures var e := entries[i];
        (forall k {:trigger entries[k]} :: i < k < |entries| ==>
           entries[k].indexInKind != e.indexInKind || hashes[entries[k].moduleIndex] != hashes[e.moduleIndex]) ==>
        Lookup(after, hashes[e.moduleIndex], e.indexInKind) == e.codeAddr
    {
      LastEntryWins(saved, entries, hashes, hashes[entries[i].moduleIndex], entries[i].indexInKind);
    }
    forall hash: U32, methodId: U32 |
      forall k {:trigger entries[k]} :: 0 <= k < |entries| ==>
        entries[k].indexInKind != methodId || hashes[entries[k].moduleIndex] != hash
      ensures Lookup(after, hash, methodId) == Lookup(saved, hash, methodId)
    {
      LastEntryWins(saved, entries, hashes, hash, methodId);
    }
  }

  lemma OfLayout(des: seq<ModuleSectionDes>, device: seq<U64>, calls: seq<StackMapCall>, area: seq<Byte>, codeBase: U64)
    requires LaidOut(des, device, calls, area, codeBase) && |area| == |AllCode(des)|
    ensures area == AllCode(des) && calls == StackMapCalls(des, codeBase)
  {
    hide AllCode, StackMapCalls;
    assert area[..|AllCode(des)|] == area;
  }

  /** The same as AllInSections, with the sections told from the code of the modules. */
  lemma InSectionsFromBase(des: seq<ModuleSectionDes>, device: seq<U64>, calls: seq<StackMapCall>, area: seq<Byte>,
                           codeBase: U64, entries: seq<FuncEntryDes>, entries': seq<FuncEntryDes>)
    requires LaidOut(des, device, calls, area, codeBase) && |device| == |des| && InModules(entries, |des|)
    requires entries' == AllRelocated(entries, device)
    ensures forall i {:trigger entries[i]} {:trigger entries'[i]} :: 0 <= i < |entries| ==>
      var e, addr := entries[i], entries'[i].codeAddr;
      && addr == (e.codeAddr + (codeBase + Start(des, e.moduleIndex))) % 0x1_0000_0000_0000_0000
      && entries'[i] == e.(codeAddr := addr)
    ensures forall i, j {:trigger entries[i], des[j]} ::
      0 <= i < |entries| && 0 <= j < |des| ==>
        var e, addr := entries[i], entries'[i].codeAddr;
        e.codeAddr < |des[e.moduleIndex].code| ==>
        && (codeBase + Start(des, j) <= addr < codeBase + Start(des, j) + |des[j].code| <==> j == e.moduleIndex)
        && codeBase <= addr < codeBase + |area|
        && area[addr - codeBase] == des[e.moduleIndex].code[e.codeAddr]
  {
    hide LaidOut, AllCode;
    DeviceAddrsCount(des, codeBase, device, calls, area);
    AllInSections(des, device, calls, area, codeBase, entries, entries');
  }

  /** Saves to a file and loads that into another object. */
  method LoadSaved(info: ModulePackInfo, codeBase: U64, parser: StackMapParser, loader: FileLoader)
    returns (outcome: Outcome, copy: ModulePackInfo)
    requires info.Valid() && |info.entries| < 0x1_0000_0000 && |info.des| < 0x1_0000_0000
    requires info.kind.Stub? ==> |Encode(info.Packed())| < 0x1_0000_0000
    requires codeBase + 0x1_0000_0000 <= 0x1_0000_0000_0000_0000
    modifies parser, loader
    ensures outcome.Fine? <==>
      && |AllCode(info.des)| < 0x1_0000_0000 && InModules(info.entries, |info.des|)
      && (info.kind.Stub? ==>
            && |info.entries| > 0
            && forall i {:trigger info.des[i]} :: 0 <= i < |info.des| ==> |info.des[i].code| > 0 && |info.des[i].stackMap| > 0)
    ensures outcome.Fine? ==>
      && copy.des == info.des && copy.aotFileHashs == info.aotFileHashs && |copy.deviceCodeSectionAddr| == |info.des|
      && InModules(info.entries, |info.des|) && copy.entries == AllRelocated(info.entries, copy.deviceCodeSectionAddr)
      && copy.machineCode.Length == |AllCode(info.des)| && old(parser.stackMaps) <= parser.stackMaps
      && LaidOut(info.des, copy.deviceCodeSectionAddr, parser.stackMaps[|old(parser.stackMaps)|..], copy.machineCode[..], codeBase)
      && |copy.entries| == |info.entries| && |parser.fpDeltas| == |old(parser.fpDeltas)| + |info.entries|
      && parser.fpDeltas == old(parser.fpDeltas) + FpDeltas(copy.entries)
    ensures outcome.Fine? ==> forall i {:trigger info.entries[i]} {:trigger copy.entries[i]} :: 0 <= i < |info.entries| ==>
      var e, d := info.entries[i], parser.fpDeltas[|old(parser.fpDeltas)| + i];
      d.funAddr == copy.entries[i].codeAddr && d.delta == e.fpDeltaPrevFramSp && d.funSize == e.funcSize
    ensures outcome.Fine? ==>
      && (info.kind.Aot? ==> |info.aotFileHashs| == |info.des|)
      && InModules(copy.entries, |info.des|)
      && loader.hashToEntryMap ==
           if info.kind.Aot? then SavedAll(old(loader.hashToEntryMap), copy.entries, info.aotFileHashs)
           else old(loader.hashToEntryMap)
  {
    hide Encode, FpDeltas, AllCode, SavedAll, LaidOut;
    var file := info.Save();
    var input := new Input(info.kind, file);
    copy := new ModulePackInfo(info.kind);
    ghost var loaded;
    outcome, loaded := copy.Load(input, codeBase, parser, loader, info.Packed());
  }

  /** Saving and loading: the file that was saved can be loaded exactly if all code together has a 32-bit size, functions
      are in modules that are there and, for stub files, there is a function and no code or stack map is empty. What is
      loaded is then what was saved, to the last byte of the file, with the functions at their places and the code filling
      the area. */
  method SaveAndLoad(info: ModulePackInfo, codeBase: U64, parser: StackMapParser, loader: FileLoader)
    returns (outcome: Outcome, copy: ModulePackInfo)
    requires info.Valid() && |info.entries| < 0x1_0000_0000 && |info.des| < 0x1_0000_0000
    requires info.kind.Stub? ==> |Encode(info.Packed())| < 0x1_0000_0000
    requires codeBase + 0x1_0000_0000 <= 0x1_0000_0000_0000_0000
    modifies parser, loader
    ensures outcome.Fine? <==>
      && |AllCode(info.des)| < 0x1_0000_0000 && InModules(info.entries, |info.des|)
      && (info.kind.Stub? ==>
            && |info.entries| > 0
            && forall i {:trigger info.des[i]} :: 0 <= i < |info.des| ==> |info.des[i].code| > 0 && |info.des[i].stackMap| > 0)
    ensures outcome.Fine? ==>
      && copy.des == info.des && copy.aotFileHashs == info.aotFileHashs
      && |copy.deviceCodeSectionAddr| == |info.des|
      && copy.entries == AllRelocated(info.entries, copy.deviceCodeSectionAddr)
      && copy.machineCode[..] == AllCode(info.des)
      && (forall i {:trigger copy.deviceCodeSectionAddr[i]} :: 0 <= i < |info.des| ==>
            copy.deviceCodeSectionAddr[i] == codeBase + Start(info.des, i))
      && parser.fpDeltas == old(parser.fpDeltas) + FpDeltas(copy.entries)
      && parser.stackMaps == old(parser.stackMaps) + StackMapCalls(info.des, codeBase)
    ensures outcome.Fine? ==> |copy.entries| == |info.entries| && |parser.fpDeltas| == |old(parser.fpDeltas)| + |info.entries|
    ensures outcome.Fine? ==> forall i {:trigger info.entries[i]} {:trigger copy.entries[i]} :: 0 <= i < |info.entries| ==>
      var e, addr := info.entries[i], copy.entries[i].codeAddr;
      && addr == (e.codeAddr + (codeBase + Start(info.des, e.moduleIndex))) % 0x1_0000_0000_0000_0000
      && copy.entries[i] == e.(codeAddr := addr)
    ensures outcome.Fine? ==> forall i {:trigger info.entries[i]} {:trigger copy.entries[i]} :: 0 <= i < |info.entries| ==>
      var e, d := info.entries[i], parser.fpDeltas[|old(parser.fpDeltas)| + i];
      d.funAddr == copy.entries[i].codeAddr && d.delta == e.fpDeltaPrevFramSp && d.funSize == e.funcSize
    ensures outcome.Fine? ==> forall i, j {:trigger info.entries[i], info.des[j]} ::
      0 <= i < |info.entries| && 0 <= j < |info.des| ==>
        var e, addr := info.entries[i], copy.entries[i].codeAddr;
        e.codeAddr < |info.des[e.moduleIndex].code| ==>
        && (codeBase + Start(info.des, j) <= addr < codeBase + Start(info.des, j) + |info.des[j].code| <==> j == e.moduleIndex)
        && codeBase <= addr < codeBase + copy.machineCode.Length
        && copy.machineCode[addr - codeBase] == info.des[e.moduleIndex].code[e.codeAddr]
    ensures outcome.Fine? && info.kind.Stub? ==> loader.hashToEntryMap == old(loader.hashToEntryMap)
    ensures outcome.Fine? && info.kind.Aot? ==>
      forall i {:trigger Lookup(loader.hashToEntryMap, info.aotFileHashs[copy.entries[i].moduleIndex], copy.entries[i].indexInKind)} ::
        0 <= i < |copy.entries| ==>
        var hashes, e := info.aotFileHashs, copy.entries[i];
        (forall k {:trigger copy.entries[k]} :: i < k < |copy.entries| ==>
           copy.entries[k].indexInKind != e.indexInKind || hashes[copy.entries[k].moduleIndex] != hashes[e.moduleIndex]) ==>
        Lookup(loader.hashToEntryMap, hashes[e.moduleIndex], e.indexInKind) == e.codeAddr
    ensures outcome.Fine? && info.kind.Aot? ==>
      forall hash, methodId {:trigger Lookup(loader.hashToEntryMap, hash, methodId)} ::
        (forall k {:trigger copy.entries[k]} :: 0 <= k < |copy.entries| ==>
           copy.entries[k].indexInKind != methodId || info.aotFileHashs[copy.entries[k].moduleIndex] != hash) ==>
        Lookup(loader.hashToEntryMap, hash, methodId) == Lookup(old(loader.hashToEntryMap), hash, methodId)
  {
    hide DeviceAddrs, StackMapCalls, FpDeltas, AllRelocated, AllCode, Lookup, SavedAll, LaidOut, Start;
    outcome, copy := LoadSaved(info, codeBase, parser, loader);
    if outcome.Fine? {
      DeviceAddrsCount(info.des, codeBase, copy.deviceCodeSectionAddr, parser.stackMaps[|old(parser.stackMaps)|..], copy.machineCode[..]);
      OfLayout(info.des, copy.deviceCodeSectionAddr, parser.stackMaps[|old(parser.stackMaps)|..], copy.machineCode[..], codeBase);
      InSectionsFromBase(info.des, copy.deviceCodeSectionAddr, parser.stackMaps[|old(parser.stackMaps)|..],
                         copy.machineCode[..], codeBase, info.entries, copy.entries);
      if info.kind.Aot? {
        LastEntriesWin(old(loader.hashToEntryMap), copy.entries, info.aotFileHashs, loader.hashToEntryMap);
      }
    }
  }
}
