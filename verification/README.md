# Verified models of four runtime components

Four self-contained parts of the ECMAScript runtime, in the form their source has (classes updated in place, loops over
arrays and buffers), each proved against a mathematical view of what it stands for.

| component | files | stands for |
|---|---|---|
| global handles | `NodeList.dfy`, `HandleStore.dfy`, `HandleTraversal.dfy`, `StoredValues.dfy`, `GlobalStorage.dfy`, `FreeChainLoss.dfy` | a finite map from live handles to what they hold |
| strings and the intern table | `StringData.dfy`, `EcmaString.dfy`, `StringOps.dfy`, `StringTable.dfy`, `ConfusedEntries.dfy` | sequences of 16-bit units; a set of strings of different contents |
| stub and AOT files | `PackFormat.dfy`, `FileLoader.dfy` | functions, modules and hashes, and their one encoding as bytes |
| array list and iterator | `ArrayListSpec.dfy`, `ArrayList.dfy` | a sequence |

`Words.dfy` has the machine integers. `dafny verify dfyconfig.toml` checks everything.

## What is proved, in short

* **Handles.** After any run of new, dispose, SetWeak and ClearWeak both block chains are doubly linked and acyclic, only
  the last block can be non-full, the free-block chain holds exactly the blocks with a free node, each block's nodes are
  split into a used and a free list, handles keep their addresses, and the live ones hold what a plain list of slots says
  they hold. Traversals meet each live handle once, even when the callback disposes of it and its block goes away. SetWeak
  and ClearWeak conserve the values in the two stores. There is at most one block more than there are live handles.
* **Strings.** Encodings are canonical (bytes exactly if every unit is a non-NUL ASCII character), and concatenation,
  slicing, comparison, search and hashing agree with the unit sequence whatever the encodings. Of every kind of lookup in
  the intern table it is proved for which requests it is exact, that is, can find no other content than what is asked for:
  if and only if `ExactRequest` holds (`RequestIsExactIff`). Over every run of interning, where both answers are certain
  (`Certain`: the request is exact, or for a string that is an entry already), equal contents give the same object by all
  routes, and different contents different objects. Entries never have equal contents, in any case.
* **Files.** Loading what was saved succeeds exactly under a condition that can be read off the saved data, gives back
  every field and byte, ends at the last byte of the file and puts each function into its module's section. The other way
  round, whatever loads encodes to the bytes that were read.
* **Array list.** Every operation does to the array what it does to a sequence, with the quirks at the ends. Over any run
  of changes and iterator steps, the iterator sees the sequence as it is at each step and, once done, stays done; it is said
  exactly when an array is left; and a run with no operation on the capacity copies at most four slots for each addition,
  beyond what the list had put aside before.

## Where the code and its intent differ

* `ecma_global_storage.h:425` moves the head of the free-block chain to the next block of the *all-blocks* chain, where the
  next block of the free-block chain is meant (lines 257-262 and 461-470 are written for that). The model has both: the
  constant `HandleStore.successor` is `AllBlocksNext` (as written) or `FreeBlocksNext` (as meant).
  `HandleStore.DisposeGlobalHandle` keeps the invariant if and only if `LosesFreeChain` is false, which only the first kind
  can meet and which a caller can tell before the call (`BreaksIffLoses`). `WrongHead` says what the head becomes then,
  `NewGlobalHandle` exactly when the allocation that follows gives the null handle. With blocks of one node this never
  happens (`SmallBlocksNeverLose`); for every other block size `FreeChainLoss.AllBlocksNextBreaks` and `AllocatesNull` are
  runs that end with a full block at the head of the free-block chain and with a null handle. Runs of calls and traversals
  (`GlobalStorage.Run`, `HandleTraversal.IterateUsageGlobal`) are proved for both successors, up to the first call that
  loses the chain; as meant, there is none.
* `ecma_string.cpp:377` compares as many *bytes* as there are elements, so that 16-bit spans of 128 units and more are
  compared only over their first halves; `ecma_string.h:360-364` asks for equal spans. `SpanCheck` is `ElementCountBytes`
  (as written) or `AllBytes` (as meant), and every contract is stated for both. As written, a 16-bit string has another one
  of the same length and hash that it is taken for exactly from 128 units on (`ConfusableIff`; `Twin` gives one). Byte
  strings are compared in full at any length, so joining two of them is matched exactly; `SpliceIsExactIff`,
  `SameStringIsExactIff`, `SpanIsExactIff` and `Utf8IsExactIff` have the condition for each kind of comparison, and each
  lookup says that what it finds matches as compared. The validity check of the table is right where all entries are
  compared in full (`NoSameStringsIff`); as written, for every 16-bit string of 128 units or more there is a run of
  interning after which it rejects a table in which all contents differ (`ConfusedEntries.FailsValidTable`).
* `js_api_arraylist.cpp:47-48` asks, in the last step of inserting at index 0, for the slot before the first; as an unsigned
  number (`tagged_array-inl.h:25-32`) that is slot 4294967295, past the end of any array. `Insert` reports going outside
  exactly then; what it says of the list holds for any value that the read gives, if it gives one, as that is overwritten.
* `js_api_arraylist.cpp:222-225` shifts one slot too many, touching the slot at the length. `RemoveByRange` reports going
  outside exactly if the length is the capacity; what is read there never gets into the list.
* `js_api_arraylist.cpp:214-215` keeps the last element when the end index is the length (`RangeEndIsExclusiveIff`), and
  line 285 never includes it in a sub-list (`SubListIsWholeIff`). The swap in lines 286-290 never fires: `SubArrayList`
  asserts that the indices are in order there.
* `js_api_arraylist.cpp:91-95` with a capacity between the length and the present capacity makes a *shorter* array and
  copies all old slots (`object_factory.cpp:2032-2054`), past its end. `IncreaseCapacityTo` says so exactly.
* `ecma_string.cpp:187-189` answers the given position for an empty needle, even a negative one. `IndexOf` says so.
* `file_loader.cpp:83-122` reads the total code size into a local variable and leaves the field as it was.

## How it is modelled

* An address of a handle is a pair of a block and a node index, which also stands for `NodeToNodeList`. The block size is a
  parameter of at least 1. A deleted block leaves the ghost list `Blocks`; calls are made on addresses in blocks that are
  still there (`Addressable`), in use or not.
* The 128-unit limit, the 2^30 limit on string lengths, hashing modulo 2^32, the packed header word, 32-bit sizes in
  `ParseBuffer` with their wrap-around, 64-bit address arithmetic and two's complement are written out.
* `compressedStringsEnabled` is true. Modified UTF-8 is converted by code outside the repository
  (`base/utf_helper.cpp:219-228`), so that both conversions are parameters (`Codec`), of which this is assumed (`Lawful`):
  the full one is the identity on ASCII bytes; the bounded one gives a beginning of the full one, of no more units than it
  has room for, and all of it if that fits. It need not fill the room: half of a surrogate pair may not be written.
  `BoundedIsExactIff`: comparing against a conversion with room for one unit more is exact for all data of n units if and
  only if the conversion does not stop at n units with more left to decode (`StopsShort`).
* `table_` is a sequence of entries; looking a key up gives its entries in sequence order. `Strings` is the set of strings
  of the heap, which the table's flags are about; `Track` adds one that was allocated elsewhere. The collector's visitor is
  a function, and the heap it leaves is a parameter.
* A file is a sequence of bytes. A stub file is read as by `BinaryBufferParser` and an AOT file as by an input stream, by
  one class, `Input`; the two `Load` functions differ in nothing else but the hashes and the registration of entries, so
  they are one method with the kind as a constant. A fatal error is the outcome `Fatal`; going past the end of some memory
  is `Overrun`. Bytes of a record that belong to no field are a field of the model.
* In `FuncEntryDes` the kind is one byte, as `TargetKind` is declared (`compiler/call_signature.h`); the layout is that of a
  64-bit little-endian target.
* A throw is an outcome that leaves the list unchanged. Strict equality of values is a parameter and need not be reflexive.

## Model

| member | source | states |
|---|---|---|
| `HandleBlocks.NodeList.constructor` | ecmascript/ecma_global_storage.h:167-174 | a new block is in order and nothing of it was handed out |
| `HandleBlocks.NodeList.NewNode` | ecmascript/ecma_global_storage.h:183-198 | a full block gives null; else the node is new, heads the used list, holds the value, and every other node holds what it held |
| `HandleBlocks.NodeList.GetFreeNode` | ecmascript/ecma_global_storage.h:200-216 | without a free node null; else the node freed last is reused, and the used and free lists stay acyclic, linked and disjoint |
| `HandleBlocks.NodeList.FreeNode` | ecmascript/ecma_global_storage.h:218-241 | a used node leaves the used list from any position and heads the free list, with Undefined, no reference and no callback in it; the block stays in order and no other node's content changes |
| `HandleBlocks.TakeNew` | ecmascript/ecma_global_storage.h:188-197 | the writes of NewNode keep the block's invariant |
| `HandleBlocks.TakeFree` | ecmascript/ecma_global_storage.h:202-214 | the writes of GetFreeNode keep the block's invariant although the free list's back pointers go stale |
| `HandleBlocks.Unlink` | ecmascript/ecma_global_storage.h:220-228 | tying the neighbours of a node to each other leaves the list without it, still doubly linked |
| `HandleBlocks.Release` | ecmascript/ecma_global_storage.h:220-240 | the writes of FreeNode keep the block's invariant: used and free nodes still split what was handed out |
| `HandleBlocks.ReleasePartition` | ecmascript/ecma_global_storage.h:229-236 | after a node was freed, in-use flags are set exactly on the used list and free nodes hold Undefined |
| `HandleBlocks.NodeList.LinkTo` | ecmascript/ecma_global_storage.h:243-248 | the block is the last one after `prev` |
| `HandleBlocks.NodeList.RemoveList` | ecmascript/ecma_global_storage.h:249-263 | the neighbours in both chains are tied to each other, and nothing else is written |
| `HandleBlocks.NodeList.SetContent` | ecmascript/ecma_global_storage.h:366-367 | a used node can be given other content with both lists kept |
| `HandleStores.HandleStore.constructor` | ecmascript/ecma_global_storage.h:30-35 | a new store is in order, with one empty block and no live handle |
| `HandleStores.HandleStore.NewFromLast` | ecmascript/ecma_global_storage.h:452-457 | a handle that was not live, holding the value, from the last block, with the whole invariant kept |
| `HandleStores.HandleStore.NewFromFree` | ecmascript/ecma_global_storage.h:458-472 | the same from the head of the free-block chain, which leaves that chain exactly if its last free node was taken; the null handle exactly if it has none |
| `HandleStores.HandleStore.Expand` | ecmascript/ecma_global_storage.h:473-475 | a new last block is appended and the invariant kept |
| `HandleStores.HandleStore.ValidIsAllocatable` | ecmascript/ecma_global_storage.h:458-462 | a store in order never takes a node from a block that has none |
| `HandleStores.HandleStore.NewGlobalHandle` | ecmascript/ecma_global_storage.h:446-481 | the handle differs from every live one, every other handle keeps its address and content, and it comes from the last block, else a free block, else a new block; it is null exactly if the last block is full and the head of the free-block chain is a block without a free node, which needs a chain that was lost |
| `HandleStores.HandleStore.DeleteBlock` | ecmascript/ecma_global_storage.h:422-433 | one block leaves both chains; the free-block chain stays in order if and only if its head is set to the next free block, and its head is a block that is left in any case |
| `HandleStores.HandleStore.MoveHeads` | ecmascript/ecma_global_storage.h:424-432 | each head or end that was the block moves to its neighbour, the free head along the chain that the successor names |
| `HandleStores.HandleStore.Reclaim` | ecmascript/ecma_global_storage.h:421-443 | a block that got a node back is deleted exactly if it is full, has no node in use and is not alone, and is on the free-block chain otherwise |
| `HandleStores.HandleStore.ReleaseNode` | ecmascript/ecma_global_storage.h:418-419 | exactly the one handle is gone; all but the free-block chain is settled |
| `HandleStores.HandleStore.DisposeGlobalHandle` | ecmascript/ecma_global_storage.h:414-444 | exactly the one entry is gone, every other block's used list is as it was, a block is deleted only if it is full and was used for this handle alone, and the invariant holds afterwards if and only if the free chain is not lost |
| `HandleStores.HandleStore.WrongHead` | ecmascript/ecma_global_storage.h:424-426 | in the failing case the new head is null with a free block left, has no free node, or skips free blocks |
| `HandleStores.HandleStore.BreaksIffLoses` | ecmascript/ecma_global_storage.h:422-426 | the failing case can be told before the call, from fields that the code can look at |
| `HandleStores.HandleStore.SmallBlocksNeverLose` | ecmascript/ecma_global_storage.h:422-426 | with blocks of one node the failing case never occurs |
| `HandleStores.HandleStore.UsingIsLive` | ecmascript/ecma_global_storage.h:107-125 | a node's in-use flag is set exactly if its handle is live, and then its fields are what the handle holds |
| `HandleStores.HandleStore.Put` | ecmascript/ecma_global_storage.h:365-368 | a live handle's content is replaced and no other |
| `HandleStores.HandleStore.BlocksBounded` | ecmascript/ecma_global_storage.h:421-433 | there is at most one block more than there are live handles |
| `HandleStores.HandleStore.FullBlockIsUsed` | ecmascript/ecma_global_storage.h:275-278 | a full block without a free node has a used node |
| `HandleTraversal.VisitNext` | ecmascript/ecma_global_storage.h:321-326 | with the next node read before the callback, the walk stays on course whatever the callback does to the node it is given; it stops exactly before a disposal that loses the free-block chain |
| `HandleTraversal.VisitBlock` | ecmascript/ecma_global_storage.h:316-327 | the callback gets every used node of the block once, in list order, even if it disposes of the node and the block is deleted, up to a disposal that loses the free-block chain |
| `HandleTraversal.IterateUsageGlobal` | ecmascript/ecma_global_storage.h:384-408 | the handles visited are exactly those that were live, in order and without repetition, up to a disposal that loses the free-block chain, of which there is none for the successor as meant; the contents afterwards are what the callback makes of them |
| `HandleTraversal.EachLiveHandleOnce` | ecmascript/ecma_global_storage.h:384-395 | walking the blocks and their used lists meets each live handle once and nothing else |
| `HandleTraversal.AfterEach` | ecmascript/ecma_global_storage.h:384-408 | handles visited and disposed of are gone, those updated hold the new value, and all else is as it was |
| `HandleTraversal.AllHandlesConcat` | ecmascript/ecma_global_storage.h:384-395 | the walk takes the blocks in the order of the chain and each block's nodes in the order of its used list |
| `HandleTraversal.TearDownBlock` | ecmascript/ecma_global_storage.h:56-60 | every used node is let go and the callbacks of the block are called once each |
| `HandleTraversal.TearDown` | ecmascript/ecma_global_storage.h:37-63 | even of a store whose free chain is lost, the destructor calls the callback of each live handle that has one exactly once, with its reference, in the order of the walk, and of no other; no node is in use afterwards |
| `HandleTraversal.WithCallbackExactly` | ecmascript/ecma_global_storage.h:153-158 | the handles called back are those of the walk that have a callback, without repetition |
| `GlobalStorage.EcmaGlobalStorage.constructor` | ecmascript/ecma_global_storage.h:30-35 | two empty stores in order, sharing nothing |
| `GlobalStorage.EcmaGlobalStorage.NewGlobalHandle` | ecmascript/ecma_global_storage.h:340-344 | the handle is live in neither store before; only the strong store changes |
| `GlobalStorage.EcmaGlobalStorage.Flags` | ecmascript/ecma_global_storage.h:348-357 | the flags of any addressable node say whether it is live and in which store |
| `GlobalStorage.EcmaGlobalStorage.DisposeGlobalHandle` | ecmascript/ecma_global_storage.h:346-358 | the handle is gone from both stores, a dead one is ignored, and each store's invariant is lost exactly in its failing case |
| `GlobalStorage.EcmaGlobalStorage.BreaksIffLoses` | ecmascript/ecma_global_storage.h:346-358 | for a live handle of either store the failing case can be told before the call |
| `GlobalStorage.EcmaGlobalStorage.SetWeak` | ecmascript/ecma_global_storage.h:360-369 | the value moves to a weak handle with this reference and callback, nothing else changes in either store, and the values of the two stores together are conserved; the new handle is null exactly if the disposal lost the weak chain to a block without a free node |
| `GlobalStorage.EcmaGlobalStorage.ClearWeak` | ecmascript/ecma_global_storage.h:371-377 | the value moves to a strong handle, nothing else changes in either store, and the values of the two stores together are conserved; the new handle is null exactly if the disposal lost the strong chain to a block without a free node |
| `GlobalStorage.WeakAndBack` | ecmascript/ecma_global_storage.h:360-377 | SetWeak and then ClearWeak of a strong handle leaves the values in the strong store and everything in the weak store as they were |
| `GlobalStorage.RepresentsValues` | ecmascript/ecma_global_storage.h:340-377 | the values of the strong and weak slots of the list are the values held in the strong and the weak store |
| `GlobalStorage.StepAt` | ecmascript/ecma_global_storage.h:340-377 | a call crosses out the slot it is about and appends the new handle's, with the reference and callback given, and leaves all other slots alone |
| `GlobalStorage.RepresentsContents` | ecmascript/ecma_global_storage.h:340-377 | each live slot has a handle of its own in the store of its kind, with its value, reference and callback, and no other handle is live |
| `GlobalStorage.MigrationConserves` | ecmascript/ecma_global_storage.h:360-377 | making a slot weak or strong conserves the values of all slots, and so, with RepresentsValues, those of the stores over a run |
| `GlobalStorage.Migrates` | ecmascript/ecma_global_storage.h:360-377 | the slots of each kind lose exactly the old handle's value and gain exactly the new one's |
| `GlobalStorage.WeakThenStrong` | ecmascript/ecma_global_storage.h:360-377 | making a slot weak and then strong again restores the values of the slots of both kinds |
| `GlobalStorage.Perform` | ecmascript/ecma_global_storage.h:340-377 | each call that loses no free chain refines one step of a plain list of slots, and handles given out before keep their addresses |
| `GlobalStorage.Run` | ecmascript/ecma_global_storage.h:340-377 | over any run of calls, up to the first that would lose a free chain, the storage stays in order, holds exactly what the list of slots says, and no handle changes its address; with the successor as meant no call stops a run |
| `FreeChainLoss.FillLast` | ecmascript/ecma_global_storage.h:452-457 | the last block can be filled without touching the free-block chain |
| `FreeChainLoss.EmptyButOne` | ecmascript/ecma_global_storage.h:435-443 | freeing all nodes of a full block but one puts it on the free-block chain and keeps the invariant |
| `FreeChainLoss.AllBlocksNextBreaks` | ecmascript/ecma_global_storage.h:424-426 | with the successor as written, for every block size from two on, a run ends with a full block at the head of the free-block chain that has no free node |
| `FreeChainLoss.AllocatesNull` | ecmascript/ecma_global_storage.h:458-471 | the allocation after that run gives the null handle |
| `StringData.HashConcat` | ecmascript/ecma_string.cpp:392-402 | hashing a second part from the hash of the first is hashing the two parts joined |
| `StringData.AsciiConcat` | ecmascript/ecma_string.cpp:39-40 | a joined string can be bytes exactly if both parts can |
| `StringData.AsciiIs` | ecmascript/ecma_string.h:347-351 | the units from 1 to 127 are the ASCII characters, and no others |
| `StringData.ConfusableIff` | ecmascript/ecma_string.cpp:363-378 | as written, a given 16-bit string can be taken for a different 16-bit string of the same length and hash if and only if it has 128 units or more |
| `StringData.InsteadHashesAlike` | ecmascript/ecma_string.cpp:392-402 | any five units can be exchanged for five others without changing the hash |
| `StringData.TwinIsConfused` | ecmascript/ecma_string.cpp:363-378 | every string of 128 units or more has a twin: another one of the same hash, from any seed, that matches it as written and differs in the last ten units only |
| `StringData.EqualSpansMatch` | ecmascript/ecma_string.cpp:363-378 | equal spans always match, and matching ones are equal where the comparison is exact |
| `StringData.BytesAgreeIff` | ecmascript/ecma_string.cpp:377-377 | the first bytes of two spans agree exactly if the units that lie in them do, and the low byte of one that begins there |
| `StringData.SpansMatchIff` | ecmascript/ecma_string.cpp:363-378 | below 128 units a match is equality; as written, from there on exactly the units in the first half are compared and, of the middle one of an odd number, the low byte |
| `StringData.BeforeTotal` | ecmascript/ecma_string.cpp:102-142 | of two strings one comes first, or they are equal |
| `StringData.BeforeIrreflexive` | ecmascript/ecma_string.cpp:102-142 | code-unit order is irreflexive and antisymmetric |
| `StringData.BeforeTransitive` | ecmascript/ecma_string.cpp:102-142 | code-unit order is transitive |
| `StringData.MatchAtIff` | ecmascript/ecma_string.cpp:145-172 | a match at a place splits the string there into what is before, the needle and what is after |
| `StringData.BeforeUnits` | ecmascript/ecma_string.cpp:93-97 | of two strings of one unit the smaller unit comes first |
| `StringData.BeforeLonger` | ecmascript/ecma_string.cpp:105-141 | a string comes before all that it begins |
| `StringData.BeforePrefix` | ecmascript/ecma_string.cpp:89-142 | a common beginning does not matter to the order |
| `StringData.BeforeAtDifference` | ecmascript/ecma_string.cpp:89-142 | the units at the first difference decide the order |
| `EcmaStrings.CanonicalIsUnique` | ecmascript/ecma_string.cpp:75-75 | in canonical form the units determine the encoding |
| `EcmaStrings.EcmaString.constructor` | ecmascript/ecma_string-inl.h:136-143 | a new string has its length and encoding packed in one word, no flag and no cached hash |
| `EcmaStrings.EcmaString.Header` | ecmascript/ecma_string.h:52-72 | the header is four times the length, plus two for the flag and one for 16-bit data; bytes are kept exactly if every unit is from 1 to 127 |
| `EcmaStrings.EcmaString.SetIsInternString` | ecmascript/ecma_string.h:229-232 | the flag is set and length and encoding are as they were |
| `EcmaStrings.EcmaString.ClearInternStringFlag` | ecmascript/ecma_string.h:239-242 | the flag is clear and length and encoding are as they were |
| `EcmaStrings.EcmaString.At` | ecmascript/ecma_string-inl.h:118-133 | the unit at the index in either encoding, and 0 out of range |
| `EcmaStrings.EcmaString.ComputeHashcode` | ecmascript/ecma_string.cpp:418-432 | the hash depends on the units alone, not on the encoding |
| `EcmaStrings.EcmaString.GetHashcode` | ecmascript/ecma_string.h:250-260 | the cached or computed hash is that of the units |
| `EcmaStrings.ComputeHashForData` | ecmascript/ecma_string.cpp:392-416 | shifting, subtracting and adding modulo 2^32 is the polynomial hash continued from the seed |
| `EcmaStrings.ShiftAndSubtract` | ecmascript/ecma_string.cpp:397-400 | shift by five and subtract, wrapping around, multiplies by 31 |
| `EcmaStrings.CanBeCompressed` | ecmascript/ecma_string.cpp:230-264 | true exactly if every unit is a non-NUL ASCII character |
| `EcmaStrings.StringCopy` | ecmascript/ecma_string.cpp:380-390 | one stretch of the buffer is overwritten and the rest kept; also for the widening loops of lines 56-58 and 65-67 |
| `EcmaStrings.CopyUtf16AsUtf8` | ecmascript/ecma_string.cpp:267-274 | narrowing loses nothing of ASCII units |
| `EcmaStrings.Concat` | ecmascript/ecma_string.cpp:25-77 | the units of the one followed by those of the other, in canonical encoding; fresh unless empty |
| `EcmaStrings.FastSubString` | ecmascript/ecma_string.cpp:80-87 | the slice of the units, in canonical encoding; fresh unless empty |
| `EcmaStrings.FastSubUtf8String` | ecmascript/ecma_string-inl.h:194-208 | the slice of a byte string |
| `EcmaStrings.FastSubUtf16String` | ecmascript/ecma_string-inl.h:211-231 | the slice of a 16-bit string, narrowed exactly if it can be |
| `EcmaStrings.CutAndJoin` | ecmascript/ecma_string.cpp:25-87 | cutting any string at any place and joining the parts gives back its content and its encoding |
| `EcmaStrings.CreateFromUtf8` | ecmascript/ecma_string-inl.h:50-77 | the decoded units, in canonical encoding |
| `EcmaStrings.CreateFromUtf16` | ecmascript/ecma_string-inl.h:95-116 | the given units, in canonical encoding |
| `StringOps.CompareStringSpan` | ecmascript/ecma_string.cpp:89-100 | the sign is that of the first difference |
| `StringOps.Compare` | ecmascript/ecma_string.cpp:102-142 | negative, zero, positive exactly as the one comes before, equals, comes after the other in code-unit order, for all encodings |
| `StringOps.IndexOfSpan` | ecmascript/ecma_string.cpp:145-172 | the first match between the bounds, or -1 if there is none; every access is in bounds and the skip loop ends |
| `StringOps.IndexOf` | ecmascript/ecma_string.cpp:174-218 | the first match at or after the position for all four pairs of encodings, and the answers for absent and empty needles |
| `StringOps.StringsAreEquals8` | ecmascript/ecma_string.cpp:364-378 | true exactly if the byte spans are equal |
| `StringOps.StringsAreEquals16` | ecmascript/ecma_string.cpp:364-378 | true exactly if the spans agree in every unit, when short or with all bytes compared, and else in the units of their first halves and the low byte of a middle one |
| `StringOps.BytesDetermineUnits` | ecmascript/ecma_string.cpp:377-377 | all bytes agree exactly if all units do |
| `StringOps.IsUtf8EqualsUtf16` | ecmascript/ecma_string.cpp:458-470 | the answer is that of the full decoding, unless the bounded conversion stops short; then it is that of the part converted |
| `StringOps.BoundedIsExactIff` | ecmascript/ecma_string.cpp:461-467 | for data of n units the bounded comparison answers as the full one, whatever the data, if and only if the conversion does not stop at n units with more left to decode |
| `StringOps.StringsAreEqualUtf16` | ecmascript/ecma_string.cpp:348-361 | true exactly if length and span match, whatever the string's encoding |
| `StringOps.StringsAreEqualUtf8` | ecmascript/ecma_string.cpp:328-345 | true for every string of the same content; with compressible data for no other; with other data exactly for a 16-bit string that matches the decoding, or, if the conversion stops short, as much of it |
| `StringOps.StringsAreEqualSameUtfEncoding` | ecmascript/ecma_string.cpp:304-315 | equality of the bytes, or match of the 16-bit spans |
| `StringOps.StringsAreEqual` | ecmascript/ecma_string.cpp:318-325 | true exactly for equal hash, encoding and matching spans |
| `StringOps.SameStringIsEqual` | ecmascript/ecma_string.cpp:318-325 | for canonical strings that is equality of contents, where the comparison is exact |
| `StringOps.SameStringIsExactIff` | ecmascript/ecma_string.cpp:318-325 | comparing equal to a given string is equality of contents if and only if it is bytes or compared in full |
| `StringOps.EqualToSplicedString` | ecmascript/ecma_string.cpp:276-301 | true exactly if the lengths add up, the encodings can go together and the two parts match in turn |
| `StringOps.SplicedIsConcat` | ecmascript/ecma_string.cpp:276-301 | for canonical strings that is equality with the two parts joined, where both are bytes or compared in full: the early exits on the encodings lose nothing |
| `StringOps.SpliceIsExactIff` | ecmascript/ecma_string.cpp:276-301 | a match with two parts is equality with them joined, for all strings or all of the same hash, if and only if both parts are bytes or both are compared in full; as written, that is below 128 units |
| `StringOps.SpanIsExactIff` | ecmascript/ecma_string.cpp:347-361 | with 16-bit data, a match of its hash is equality if and only if the span is compared in full |
| `StringOps.MatchesUtf8IsEqual` | ecmascript/ecma_string.cpp:327-345 | a string of the decoded content matches; a match is of that content where spans are compared in full and the conversion does not stop short there |
| `StringOps.Utf8IsExactIff` | ecmascript/ecma_string.cpp:327-345 | with UTF-8 data, a match of the hash looked for is equality of contents if and only if the data is compressible, or is compared in full and the conversion cannot stop at a beginning of 16-bit kind with the hash of the whole |
| `StringTable.InEqualRange` | ecmascript/ecma_string_table.cpp:32-33 | a bucket holds exactly the entries with its key |
| `StringTable.EqualRangeConcat` | ecmascript/ecma_string_table.cpp:32-33 | a bucket lists its entries in the order of the table |
| `StringTable.BucketIsScan` | ecmascript/ecma_string_table.cpp:27-82 | looking in one bucket finds a content exactly if a scan of the whole table does |
| `StringTable.OneObjectPerContent` | ecmascript/ecma_string_table.cpp:84-158 | two entries are the same object exactly if they have the same content |
| `StringTable.EcmaStringTable.GetSplicedString` | ecmascript/ecma_string_table.cpp:27-41 | null exactly if no entry of the hash of the two joined matches them in turn, and so only if a scan finds none with the content; else an entry that does, of the joined content where both parts are bytes or compared in full; nothing is joined |
| `StringTable.EcmaStringTable.GetStringUtf8` | ecmascript/ecma_string_table.cpp:43-55 | the same for UTF-8 data; an entry found has the decoded content wherever the conversion does not stop short at its length |
| `StringTable.EcmaStringTable.GetStringUtf16` | ecmascript/ecma_string_table.cpp:57-69 | the same for 16-bit data: what is found matches it, and has its content where it is compared in full |
| `StringTable.EcmaStringTable.GetString` | ecmascript/ecma_string_table.cpp:71-82 | the same for a string: what is found compares equal to it, and has its content where it is bytes or compared in full |
| `StringTable.EcmaStringTable.RequestIsExactIff` | ecmascript/ecma_string_table.cpp:27-82 | for each of the four routes: no string of other content can ever be found for a request if and only if the request is exact |
| `StringTable.EcmaStringTable.HasIsFound` | ecmascript/ecma_string_table.cpp:27-82 | an entry of the content asked for is always found; where the request is exact nothing else is |
| `StringTable.EcmaStringTable.ComputeHashcodeUtf8` | ecmascript/ecma_string.cpp:435-449 | the hash of UTF-8 data is that of the units it decodes to |
| `StringTable.EcmaStringTable.InternString` | ecmascript/ecma_string_table.cpp:84-91 | an unflagged string becomes an entry under its hash and is flagged; the table's invariant is kept |
| `StringTable.EcmaStringTable.InternEmptyString` | ecmascript/ecma_string_table.cpp:93-96 | the empty string is an entry afterwards |
| `StringTable.EcmaStringTable.GetOrInternSpliced` | ecmascript/ecma_string_table.cpp:98-109 | the entry that the lookup finds, or, if and only if it finds none, a new one of the joined content, which no entry had |
| `StringTable.EcmaStringTable.GetOrInternUtf8` | ecmascript/ecma_string_table.cpp:111-121 | the same for UTF-8 data |
| `StringTable.EcmaStringTable.CreateAndInternStringNonMovable` | ecmascript/ecma_string_table.cpp:123-132 | the same without a lookup, given the caller's duty that there is no such entry |
| `StringTable.EcmaStringTable.GetOrInternUtf16` | ecmascript/ecma_string_table.cpp:134-144 | the same for 16-bit data |
| `StringTable.EcmaStringTable.GetOrInternString` | ecmascript/ecma_string_table.cpp:146-158 | the same for a string, which is itself the answer if it is flagged |
| `StringTable.EcmaStringTable.InsertStringIfNotExist` | ecmascript/ecma_string_table.h:54-60 | an entry of the string's content is there afterwards, and no second one |
| `StringTable.EcmaStringTable.Run` | ecmascript/ecma_string_table.cpp:84-158 | over any run of interning by the four routes, every result is an entry that matches what was asked for as compared; where both answers are certain, results are the same object exactly if the contents asked for are equal; entries stay, flags are set exactly on them, and no two have equal content |
| `StringTable.EcmaStringTable.SweepWeakReference` | ecmascript/ecma_string_table.cpp:160-177 | dropping dead entries and redirecting the others while walking gives the table of the survivors, with the invariant kept |
| `StringTable.SweptHolds` | ecmascript/ecma_string_table.cpp:160-177 | the strings in the swept table are exactly those the visitor gave for entries |
| `StringTable.SweptKeeps` | ecmascript/ecma_string_table.cpp:160-177 | with contents preserved, keys stay right and contents different, and no content appears that was not there |
| `StringTable.SweptConcat` | ecmascript/ecma_string_table.cpp:160-177 | the sweep treats entries one by one, in order, and keeps the key of each that survives |
| `StringTable.EcmaStringTable.CountEqual` | ecmascript/ecma_string_table.cpp:183-191 | the entries counted in one bucket are all entries of the table that compare equal |
| `StringTable.EcmaStringTable.CheckStringTableValidity` | ecmascript/ecma_string_table.cpp:179-197 | true exactly if no two entries compare equal |
| `StringTable.NoSameStringsIff` | ecmascript/ecma_string_table.cpp:179-197 | true only if all contents differ, and exactly then if every entry is bytes or compared in full |
| `ConfusedEntries.FailsValidTable` | ecmascript/ecma_string_table.cpp:179-197 | as written, for every 16-bit string of 128 units or more there is a run from an empty table after which the check fails although no two contents are equal |
| `ConfusedEntries.InternBoth` | ecmascript/ecma_string_table.cpp:98-144 | interning a string and then two parts of another of its length that ends differently, each and joined, makes entries of both |
| `PackFormat.NumberOfBytes` | ecmascript/file_loader.cpp:46-54 | a number that fits is read back from its bytes |
| `PackFormat.BytesOfNumber` | ecmascript/file_loader.cpp:77-81 | bytes that were read as a number are the bytes of that number |
| `PackFormat.LittleEndian` | ecmascript/file_loader.cpp:77-81 | the low byte of a number comes first |
| `PackFormat.TwosComplement` | ecmascript/file_loader.h:96-102 | a signed field is written modulo 2^32 and read back |
| `PackFormat.DecodeEncodedEntry` | ecmascript/file_loader.h:96-102 | a function's record is read back from its 32 bytes |
| `PackFormat.EncodeDecodedEntry` | ecmascript/file_loader.h:96-102 | any 32 bytes are the encoding of the record read from them |
| `PackFormat.EntryLayout` | ecmascript/file_loader.h:96-102 | the place of every field in a function's record |
| `PackFormat.DecodeEncodedEntries` | ecmascript/file_loader.cpp:47-47 | all records are read back |
| `PackFormat.DecodeEncodedHashes` | ecmascript/file_loader.cpp:140-140 | all hashes are read back |
| `PackFormat.EntriesLayout` | ecmascript/file_loader.cpp:136-136 | function i is at byte 32i |
| `PackFormat.HashesLayout` | ecmascript/file_loader.cpp:140-140 | hash i is at byte 4i |
| `PackFormat.ModuleLayout` | ecmascript/file_loader.cpp:142-150 | the place of each part of a module: address, code size, code, stack map size, stack map |
| `PackFormat.ModulesLayout` | ecmascript/file_loader.cpp:141-151 | the modules follow one another in order |
| `PackFormat.FileLayout` | ecmascript/file_loader.cpp:134-152 | the file has the number of functions, the functions, the number of modules, the total size, the hashes and the modules, each at its offset |
| `PackFormat.SectionAt` | ecmascript/file_loader.cpp:93-98 | each section holds its module's code, right after the section before it |
| `PackFormat.SectionsDisjoint` | ecmascript/file_loader.cpp:93-98 | sections of different modules do not overlap |
| `PackFormat.SectionsFill` | ecmascript/file_loader.cpp:93-98 | every place in the code area belongs to some section |
| `FileLoaders.Input.ParseBuffer` | ecmascript/file_loader.cpp:410-421 | reads exactly if the count is positive and the bytes are there; the case where the 32-bit sum wraps around is singled out |
| `FileLoaders.Input.ReadStream` | ecmascript/file_loader.cpp:168-170 | gives what there is, leaves the rest as it was, and from then on gives nothing |
| `FileLoaders.Input.Read` | ecmascript/file_loader.cpp:77-79 | if the next bytes are a given part and more, that part is read and the rest is left |
| `FileLoaders.ReadModule` | ecmascript/file_loader.cpp:89-103 | reads back the encoding of a module exactly if it is readable and fits, and what is read encodes to the bytes consumed |
| `FileLoaders.ModuleFromParts` | ecmascript/file_loader.cpp:89-103 | the bytes of the parts of a module, put together, are its encoding |
| `FileLoaders.ReadNumber` | ecmascript/file_loader.cpp:77-83 | a 32-bit number that was written is read back, and the bytes read are its encoding |
| `FileLoaders.ReadEntries` | ecmascript/file_loader.cpp:77-79 | functions that were written are read back, from a buffer exactly if there is one, and what is read encodes to the bytes consumed |
| `FileLoaders.ReadHeader` | ecmascript/file_loader.cpp:77-83 | reads back the encoding of entries, counts and hashes, and what is read encodes to the bytes consumed |
| `FileLoaders.ReadModules` | ecmascript/file_loader.cpp:87-108 | reads all modules, lays their code end to end in the area, and gives each stack map that is not empty to the parser |
| `FileLoaders.DeviceAddrAt` | ecmascript/file_loader.cpp:95-98 | a module's device address is the base plus the sizes of the code before it |
| `FileLoaders.StackMapCallAt` | ecmascript/file_loader.cpp:104-107 | the parser gets one call for each module with a stack map, in order, with the stack map, the host address and the device address of that module |
| `FileLoaders.ModulePackInfo.AddStubEntry` | ecmascript/file_loader.h:162-173 | one more function, with its index cast to unsigned |
| `FileLoaders.ModulePackInfo.AddModuleDes` | ecmascript/file_loader.h:197-219 | the total size stays the size of all code, modulo 2^32, and AOT files get one hash for each module |
| `FileLoaders.ModulePackInfo.Save` | ecmascript/file_loader.cpp:37-64 | the file written is the encoding |
| `FileLoaders.ModulePackInfo.RegisterFpDeltas` | ecmascript/file_loader.cpp:109-119 | the stack map parser is told, function by function, the address it will have, its frame delta and its size; this needs every module index to be one |
| `FileLoaders.ModulePackInfo.Relocate` | ecmascript/file_loader.cpp:212-218 | each function's address becomes its offset plus the device address of its module, modulo 2^64, its other fields stay, and for AOT files the loader is told, in order |
| `FileLoaders.ModulePackInfo.ReadPack` | ecmascript/file_loader.cpp:72-108 | the file is read back up to its end exactly if it is readable |
| `FileLoaders.ModulePackInfo.Load` | ecmascript/file_loader.cpp:66-222 | for an encoded pack: loads exactly if it is loadable, gives it back and ends at its last byte; for any file: what loads encodes to the bytes read; each function has offset plus device address, which lies in its own section only and at its own code byte if the offset is in the code, and the parser has that address with its frame delta and size |
| `FileLoaders.RelocatedInSection` | ecmascript/file_loader.cpp:120-123 | a function whose offset is in its module's code lies in that module's section and no other, at its own code byte |
| `FileLoaders.LastEntriesWin` | ecmascript/file_loader.cpp:212-218 | every function that is the last of its hash and method is found there, and methods without one are found where they were |
| `FileLoaders.FileLoader.SaveAOTFuncEntry` | ecmascript/file_loader.h:246-249 | the new map has the entry under hash and method |
| `FileLoaders.FileLoader.GetAOTFuncEntry` | ecmascript/file_loader.h:251-259 | the entry saved, or 0 |
| `FileLoaders.LookupSaved` | ecmascript/file_loader.h:246-259 | what is saved is found, and every other lookup answers as before |
| `FileLoaders.LastEntryWins` | ecmascript/file_loader.cpp:212-218 | after loading a method is found at the last of its entries, and others where they were |
| `FileLoaders.SaveAndLoad` | ecmascript/file_loader.cpp:37-222 | saving and loading works exactly if all code has a 32-bit size, functions are in modules there are and, for stub files, there is a function and no part is empty; then everything is as saved, the code fills the area, each function is at its place in its module's code, the parser knows each one's address, delta and size, and an AOT method is found at the last of its functions and any other where it was |
| `ArrayListSpec.FirstEqual` | ecmascript/js_api_arraylist.cpp:130-135 | the least place of an equal element, or the length |
| `ArrayListSpec.EffectAt` | ecmascript/js_api_arraylist.cpp:25-267 | what each operation makes of each place of the sequence, and of its length |
| `ArrayListSpec.InsertThenRemove` | ecmascript/js_api_arraylist.cpp:37-52 | removing what was inserted gives the list back |
| `ArrayListSpec.AddThenRemove` | ecmascript/js_api_arraylist.cpp:25-35 | removing what was appended gives the list back |
| `ArrayListSpec.RangeEndIsExclusiveIff` | ecmascript/js_api_arraylist.cpp:211-218 | a range is removed up to its end exactly if the end is not the length; there the last element stays |
| `ArrayListSpec.RangeIsRepeatedRemoval` | ecmascript/js_api_arraylist.cpp:195-230 | removing a range is removing by index as often, at its start |
| `ArrayListSpec.SubListIsWholeIff` | ecmascript/js_api_arraylist.cpp:285-292 | a sub-list has its whole range exactly if that ends before the length; else the last element is missing |
| `ArrayListSpec.ComputeCapacity` | ecmascript/js_api_arraylist.h:88-92 | ten, or one and a half times what is asked for, rounded down, if that is more |
| `ArrayListSpec.CapacityForOneMore` | ecmascript/js_api_arraylist.cpp:338-342 | with room for one more element a slot is left over, and the capacity never falls |
| `ArrayListSpec.CapacityIs` | ecmascript/js_api_arraylist.cpp:338-342 | the capacity stays if a slot is left over as it is; else it becomes one and a half times the new length, rounded down, and at least ten |
| `ArrayListSpec.GrowthIsPaidFor` | ecmascript/js_api_arraylist.cpp:333-348 | growing costs what earlier additions put aside and at most four slots more, and leaves a slot over |
| `ArrayListSpec.AdditionsAreCounted` | ecmascript/js_api_arraylist.cpp:25-52 | the additions of a run are the events that append or insert |
| `ArrayListSpec.DoneStaysDone` | ecmascript/js_api_arraylist_iterator.cpp:41-55 | after an iterator answered that it is done, it never gives a value, whatever happens to the list |
| `ArrayListSpec.SeesWholeList` | ecmascript/js_api_arraylist_iterator.cpp:41-60 | a list left alone is seen once through, in order, and then the iterator is done |
| `ArrayListSpec.FitsAfter` | ecmascript/js_api_arraylist.cpp:25-267 | after every operation the list fits the capacity it then has |
| `ArrayLists.ExtendArray` | ecmascript/object_factory.cpp:2032-2054 | the old slots and then holes; outside exactly if the new array is shorter |
| `ArrayLists.CopyArray` | ecmascript/object_factory.cpp:2085-2110 | the old slots as far as they go; outside exactly if the length given is exceeded and the old array is longer |
| `ArrayLists.ArrayList.GrowCapacity` | ecmascript/js_api_arraylist.cpp:333-348 | the elements are kept and the capacity is exactly the one for one more element, at an amortised cost of four |
| `ArrayLists.ArrayList.Add` | ecmascript/js_api_arraylist.cpp:25-35 | the value follows the elements there were; the new capacity is exact and above the length; amortised cost four |
| `ArrayLists.ShiftUp` | ecmascript/js_api_arraylist.cpp:47-49 | the elements from the index on are one slot further; slot 4294967295 is read exactly for index 0 |
| `ArrayLists.ShiftDown` | ecmascript/js_api_arraylist.cpp:164-166 | the elements behind the index are one slot nearer |
| `ArrayLists.CloseGap` | ecmascript/js_api_arraylist.cpp:222-225 | the elements behind the range follow those before it; the array is left exactly if the list fills it |
| `ArrayLists.ArrayList.Insert` | ecmascript/js_api_arraylist.cpp:37-52 | the value is at the index, with the elements before it unchanged and the others one place on, for any value read outside; refuses exactly an index outside the list; exact capacity; outside exactly at index 0 |
| `ArrayLists.ArrayList.Clear` | ecmascript/js_api_arraylist.cpp:54-59 | no elements, at no cost |
| `ArrayLists.ArrayList.Clone` | ecmascript/js_api_arraylist.cpp:61-75 | a list of its own, with the same elements and capacity |
| `ArrayLists.ArrayList.IncreaseCapacityTo` | ecmascript/js_api_arraylist.cpp:85-97 | the elements are kept; the capacity is what was asked for if that exceeds the length; outside exactly if that makes the array shorter |
| `ArrayLists.ArrayList.TrimToCurrentLength` | ecmascript/js_api_arraylist.cpp:99-106 | the elements are kept and the capacity is the length |
| `ArrayLists.ArrayList.Get` | ecmascript/js_api_arraylist.cpp:108-116 | the element, or a range error, exactly by the length |
| `ArrayLists.ArrayList.GetIndexOf` | ecmascript/js_api_arraylist.cpp:123-137 | the first equal element, or -1 |
| `ArrayLists.ArrayList.GetLastIndexOf` | ecmascript/js_api_arraylist.cpp:139-153 | an equal element with none after it, or -1 |
| `ArrayLists.ArrayList.RemoveByIndex` | ecmascript/js_api_arraylist.cpp:155-170 | exactly the element at the index is gone, or refusal |
| `ArrayLists.ArrayList.Remove` | ecmascript/js_api_arraylist.cpp:172-193 | exactly the first equal element is gone, or nothing if there is none |
| `ArrayLists.ArrayList.RemoveByRange` | ecmascript/js_api_arraylist.cpp:195-230 | exactly the range is gone, with the last element left if the end is the length; refuses exactly if the start is not in the list or the end not after it; outside exactly if the list fills its array |
| `ArrayLists.ArrayList.Set` | ecmascript/js_api_arraylist.cpp:258-267 | one element is replaced, or refusal |
| `ArrayLists.ArrayList.SubArrayList` | ecmascript/js_api_arraylist.cpp:269-304 | a list of its own with the range, without the last element; an empty one with the error |
| `ArrayLists.ArrayList.Perform` | ecmascript/js_api_arraylist.cpp:25-267 | every operation does to the array what it does to the sequence, for any value read outside, with exact capacity and within its amortised cost; it leaves the array exactly when Leaves says so |
| `ArrayLists.ArrayList.AddAll` | ecmascript/js_api_arraylist.cpp:25-35 | n additions to a new list copy at most 4n slots in all |
| `ArrayLists.ArrayListIterator.Next` | ecmascript/js_api_arraylist_iterator.cpp:27-61 | the element of the list as it is now, or done; once done it lets go of the list |
| `ArrayLists.Run` | ecmascript/js_api_arraylist_iterator.cpp:27-61 | over any interleaving of changes and iterator steps, the list is what the changes make of the sequence and the iterator sees the sequence of the moment, always in bounds; an array is left exactly if one of the changes, on the list as it then is, does so; without operations on the capacity the cost is at most four slots for each addition |

## Left out

- GlobalStorage.Run: ends before a call that loses a free chain, which only the successor as written can do; of a storage whose chain is lost, the next allocation and the destructor are modelled and no other calls.
- HandleTraversal.IterateUsageGlobal: callbacks keep, replace or dispose of the handle they are given and do nothing else to the storage; the walk is not followed beyond a disposal that loses a free chain.
- GlobalStorage.EcmaGlobalStorage.SetWeak: when the new handle is null the source writes reference and callback through it; the model ends there.
- HandleTraversal.TearDown: callbacks are recorded, not executed.
- StringTable.EcmaStringTable.Run: the strings named by the requests are there at the start; results of one run can be named in the next. The route without lookup has its own contract.
- StringTable.EcmaStringTable.SweepWeakReference: the empty string of the heap does not move.
- EcmaStrings.EcmaString: the stored data is fixed when the string is made, from a buffer that was filled in place; WriteData, which writes into a string that exists, is not modelled.
- FileLoaders.Input.ReadStream: reading starts from zeroed memory, as it does for a pack that was just made.
- FileLoaders.ModulePackInfo.Load: for files that are no encoding of a pack it is not said which of the two errors comes up.
- ArrayLists.ArrayList.RemoveByRange: a write past the end of the array, which puts back what was read there, is left out.
- Decoding of non-ASCII UTF-8 and the CopyData and WriteUtf8 family: they rest on utf_helper, which is not part of this model.
- ForEach and ReplaceAllElements of the array list: they call arbitrary JavaScript.
- Has, OwnKeys, GetOwnProperty and GetProperty of the array list: one loop or one range check each.
- Stub registration in the thread, snapshot loading, path checks and file streams in the file loader.
- Real addresses, garbage collection write barriers, handle scopes and allocation failure.
- Builtins, global environment, dump, VM start-up, frames, dictionaries and generators.
