# Verified model of the ArkCompiler ECMAScript runtime core

This project models six stateful cores of the runtime in Dafny and proves what each promises over all inputs and
all runs. `dafny verify dfyconfig.toml` checks it.

- **Rope strings** (`CodeUnits`, `Ropes`, `StringHeap`, `RopePrograms`, `StringSearch`). Strings are lines, constants,
  slices and trees in one shared heap. `Val` gives the content a node denotes. Concatenation, substring, indexing,
  search and the in-place flattening of shared trees are proved against that content, and whole programs against
  plain immutable strings.
- **Hashing and interning** (`StringHash`, `HashedStrings`, `StringTable`, `TableSweep`, `TableRuns`). The mixed hash with its
  32-bit wrap-around, the intern table with its four ways of looking a content up, the sweep after a moving collection,
  and whole runs over all of them.
- **Global handles** (`NodeLists`, `HandleStore`, `HandleDispose`, `HandleIteration`, `GlobalStorage`). A block allocator
  with intrusive lists, two chains of blocks and reclamation, for strong and weak handles.
- **Handle scopes** (`HandleScopes`). A segmented stack with expansion, shrinking and reuse, and its enumeration as
  roots.
- **Element kinds** (`ElementKinds`, `TaggedWords`, `ElementArrays`) and the **join stack** (`JoinStacks`). The kinds as a
  lattice, 64-bit tagged words, array stores of raw ints, raw doubles or tagged words with the migrations between
  them; the cycle detector of `Array.prototype.join`.
- **Dates** (`DateTokens`, `DateParser`, `DateRanges`, `DateIso`, `DateText`, `DateRoundTrips`, `DatePrinters`,
  `LegacySteps`, `LegacyForms`, `LegacyTexts`, `LegacyRejects`, `DateLegacy`). The scanner, the ISO path of section
  21.4.1.15 of ECMA-262 (ES2021), the legacy path and the range checks, against a grammar, against the meaning of
  legacy texts and against the runtime's own printers.

Code that updates objects is modelled as classes and loops whose contracts tie the new state to a specification
function of the old; the properties are then proved of those functions and kept as invariants by every method.

Where a promise turned out not to hold of the code, the code is modelled as it is and the exact condition is proved:

- the two-part hash equals the hash of the concatenation exactly when `PartsAgree` (`TwoPartHashAgrees`,
  `TwoPartHashDisagrees`), so interning two parts keeps the table canonical exactly then (`GetOrInternParts`);
- interning two parts of 2^30 units together or more follows the null pointer that the failed concatenation returns; the
  model makes that an outcome of its own with its exact condition (`GetOrInternParts`);
- inserting a string without looking it up keeps the table canonical exactly when the content is new or the string is
  interned already (`InsertStringToTable`);
- hashing UTF-16 data passes each unit through a `uint8_t`, which is harmless exactly when the data is no
  `FalseNumeral` (`Utf16HashAgrees`, `GetOrInternUtf16`);
- flattening a string a second time returns the same object, except that `FlattenNoGC` copies a slice every time
  (`FlattenTwice`, `ViewTwice`, `FlattenNoGCTwice`);
- `IndexOf` returns the least match except for a negative position with an empty pattern;
- going from doubles back to ints keeps an element exactly when it is a hole or the double of some int
  (`NarrowsExactly`);
- popping the join stack out of order can lose receivers; it is exact only innermost first (`PopIsExact`);
- a tagged array store cannot tell one NaN from the mark of a hole (`ReadsBackExactly`, `LostReadsAsHole`);
- the divisor of a fraction of a second overflows an `int` beyond 12 counted digits (`FractionMillis`, `IsoOverflowsExactly`); the model makes
  that an outcome of its own, because the result is not defined;
- what `toString` and `toUTCString` print parses back to the same date exactly for years from 100 on
  (`LegacyRoundTrip`), because the legacy path moves smaller years to 1950..2049 and skips the sign of a year.

One comment in the source says something else than the code, and the model follows the code: the picture of a
tagged int shows a zero half-word below the tag (js_tagged_value_internals.h:37), while negative ints are sign extended
(js_tagged_value.h:99). Two details of the date scanner are kept as they are: letters are the range 'A'..'z' with the six
characters between the cases (date_parse.h:120-126), and a DEL character inside a date string ends it
(date_parse.h:43, date_parse.h:110-113).

Allocation is a fresh id or an address not in use. The memory of the block allocators is a map from addresses to
blocks, so that deletion and the reuse of an address can be stated. The choice of an address, the forwarding of a
moving collection, the visitor of an iteration, which heap words are strings, and the local time offset are
parameters.

## Model

| member | source | states |
|---|---|---|
| `CodeUnits.AsciiRange` | ecmascript/ecma_string.h:664-668 | the unsigned test for narrow units accepts exactly 1..0x7F: a unit of 0 wraps around and is refused |
| `CodeUnits.CanBeCompressed` | ecmascript/ecma_string.cpp:507-535 | true exactly when every unit lies in 1..0x7F |
| `StringHash.ComputeHashForData` | ecmascript/ecma_string.h:652-662 | the loop computes the polynomial hash modulo 2^32 from any seed |
| `StringHash.PolyAppend` | ecmascript/ecma_string.cpp:770-798 | hashing a second part from the raw hash of a first part hashes the concatenation |
| `StringHash.PolyInjective` | ecmascript/ecma_string.h:652-662 | on 31 bits, equal hashes of the same data come from equal seeds and from no others |
| `StringHash.HashIntegerString` | ecmascript/ecma_string.h:265-305 | for all data and seeds the digit loop returns the integer hash given by the wrapped accumulator, or nothing |
| `StringHash.WrappedContinues` | ecmascript/ecma_string.h:253-305 | continuing from the hash of a numeral, the carried bit 31 vanishes and the accumulator is the value of all the digits |
| `StringHash.IntegerHashCanonical` | ecmascript/ecma_string.h:265-305 | on narrow data below ten units the integer hash exists exactly for canonical decimal numerals and holds their value |
| `StringHash.RawHashIsCanonical` | ecmascript/ecma_string.cpp:735-768 | hashing a whole string gives the one hash its content ought to have |
| `StringHash.TwoPartHashAgrees` | ecmascript/ecma_string.cpp:741-798 | the two-part hash equals the hash of the concatenation if and only if a stated condition on the parts holds |
| `StringHash.TwoPartHashDisagrees` | ecmascript/ecma_string.cpp:770-798 | two concrete pairs, "0" with "5" and "1" with "a", for which it does not |
| `StringHash.Utf16HashAgrees` | ecmascript/ecma_string.cpp:824-834 | hashing raw UTF-16 data gives the hash of the string if and only if the data is no false numeral (units above 0xFF whose low bytes are digits) |
| `StringHash.Utf16HashDisagrees` | ecmascript/ecma_string.h:253-261 | the concrete data "1", U+0130 is hashed as the integer 10 |
| `Ropes.NarrowIffCompressible` | ecmascript/ecma_string.cpp:25-85 | in every well-formed heap a string of any layout is flagged narrow exactly when its whole content is |
| `Ropes.ShortIsLineOrConstant` | ecmascript/ecma_string.h:939-942 | a string below 13 units is never a tree or a slice |
| `Ropes.EvolvesKeepsVal` | ecmascript/ecma_string.cpp:1120-1216 | whatever set of tree nodes has been redirected to flat copies, every string of the heap, sharing ropes included, denotes what it did |
| `Ropes.PreservesTransitive` | ecmascript/ecma_string.cpp:1120-1216 | keeping every string's content, length and encoding composes over operations |
| `Ropes.RedirectKeeps` | ecmascript/ecma_string.cpp:1120-1141 | the two stores of flattening keep the heap well formed and every string's content, length and encoding |
| `Ropes.AllocKeeps` | ecmascript/ecma_string-inl.h:207-219 | allocating a well-formed node disturbs no existing string |
| `StringHeap.At` | ecmascript/ecma_string-inl.h:304-326 | descending a rope of any shape reads the unit of the content at that index, and 0 outside the string |
| `StringHeap.DirectAt` | ecmascript/ecma_string.h:916-936 | lines, constants and slices answer an index with the unit of their content |
| `StringHeap.CopyChars` | ecmascript/ecma_string.cpp:716-726 | copies exactly the given units into exactly their cells, also into single bytes |
| `StringHeap.NestingBound` | ecmascript/ecma_string-inl.h:376-408 | the bound on nested flattenings is 1 + floor(log2(length)) |
| `StringHeap.NestingHalf` | ecmascript/ecma_string-inl.h:382-407 | taking the shorter child leaves room for one more activation |
| `StringHeap.WriteFirst` | ecmascript/ecma_string-inl.h:382-392 | the shorter first child is written by nested activations, at most one fewer than 1 + floor(log2(length)) of the tree; a rope doubled onto itself is finished by copying |
| `StringHeap.WriteSecond` | ecmascript/ecma_string-inl.h:393-407 | the shorter second child is written to its own cells, nesting at most 1 + floor(log2(its length)) activations |
| `StringHeap.WriteToFlat` | ecmascript/ecma_string-inl.h:351-424 | writes exactly the rope's units into exactly its cells for every shape and width mix, and the counted nested activations never exceed 1 + floor(log2(length)) |
| `StringHeap.EcmaStringHeap.constructor` | ecmascript/ecma_string-inl.h:30-36 | the initial heap of the empty string and the one-character strings is well formed |
| `StringHeap.EcmaStringHeap.SlowFlatten` | ecmascript/ecma_string.cpp:1120-1141 | returns a new line string with the same content, redirects the tree to it and to the empty string, changes no other node, and keeps every string of the heap |
| `StringHeap.EcmaStringHeap.Flatten` | ecmascript/ecma_string.cpp:1143-1154 | returns a string that is no open tree with the same content, and leaves the string itself no open tree; every string keeps content, length and encoding, and nothing changes if there was no open tree |
| `StringHeap.EcmaStringHeap.FlattenAllString` | ecmascript/ecma_string.cpp:1156-1176 | returns a flat window holding exactly the string's content, whatever its layout, and leaves the string no open tree; nothing changes if it was none |
| `StringHeap.EcmaStringHeap.FlattenNoGC` | ecmascript/ecma_string.cpp:1178-1216 | as Flatten, with slices copied out as well: only an open tree is redirected, and nothing changes for any other layout but a slice |
| `StringHeap.EcmaStringHeap.NewLineString` | ecmascript/ecma_string-inl.h:138-182 | a fresh line string with the given content and matching encoding |
| `StringHeap.EcmaStringHeap.Concat` | ecmascript/ecma_string.cpp:25-85 | denotes the append, is refused exactly at 2^30 units, reuses an operand next to an empty one, is a line below 13 units and a tree of the two from there on, and keeps every other string |
| `StringHeap.EcmaStringHeap.NewTree` | ecmascript/ecma_string-inl.h:207-219 | a fresh tree of at least 13 units over the two children, denoting the append |
| `StringHeap.EcmaStringHeap.CopyUnits` | ecmascript/ecma_string-inl.h:221-256 | the units of a part of any string, and whether that part can be narrow |
| `StringHeap.EcmaStringHeap.FastSubString` | ecmascript/ecma_string.cpp:117-131 | denotes the slice and keeps every string; empty and whole slices allocate nothing |
| `StringHeap.EcmaStringHeap.GetSlicedString` | ecmascript/ecma_string.cpp:134-144 | a slice directly over line or constant data, at the part's place in the source's flat window, denoting the part asked for |
| `StringHeap.EcmaStringHeap.GetSubString` | ecmascript/ecma_string.cpp:147-176 | denotes the slice for every layout chosen, and keeps every string; which layout is chosen follows from the length and the encoding of the part |
| `RopePrograms.Step` | ecmascript/ecma_string.cpp:25-176 | one concat, substring or flatten step refines the same step on immutable strings |
| `RopePrograms.Run` | ecmascript/ecma_string.cpp:1120-1216 | over any run of such steps on the shared heap every register denotes what immutable strings would hold |
| `RopePrograms.FlattenTwice` | ecmascript/ecma_string.cpp:1143-1154 | flattening any string twice returns the same object and the second call changes nothing |
| `RopePrograms.ViewTwice` | ecmascript/ecma_string.cpp:1156-1176 | the same for the flat window of any string |
| `RopePrograms.FlattenNoGCTwice` | ecmascript/ecma_string.cpp:1178-1216 | and for the form without collection if and only if the string is no slice |
| `HashedStrings.FlatData` | ecmascript/ecma_string.cpp:1218-1256 | reads the units of a string of any layout without changing the heap |
| `HashedStrings.ComputeRawHashcode` | ecmascript/ecma_string.cpp:741-768 | depends on the content alone, not on the layout |
| `HashedStrings.ComputeHashcode` | ecmascript/ecma_string.cpp:735-739 | is the one hash the content ought to have |
| `HashedStrings.ComputeSeededHashcode` | ecmascript/ecma_string.cpp:770-798 | the second step of the two-part hash, for every layout of the second part |
| `HashedStrings.GetHashcode` | ecmascript/ecma_string.h:236-245 | returns and caches the hash of the content; caching changes no string |
| `HashedStrings.DecimalIsNumeral` | ecmascript/ecma_string.cpp:863-892 | printing a number gives a canonical numeral of that value |
| `HashedStrings.NumeralIsDecimal` | ecmascript/ecma_string.cpp:863-892 | a canonical numeral is the print of its value, so the two directions are inverse |
| `HashedStrings.ToUInt64FromLoopStart` | ecmascript/ecma_string.cpp:924-941 | accepts exactly a non-empty run of digits from the start position to the end and returns its value modulo 2^64 |
| `HashedStrings.ToElementIndex` | ecmascript/ecma_string.cpp:863-892 | succeeds exactly when the content is the print of a number below 2^32 - 1, and returns that number; the cached path agrees with the digit loop |
| `StringSearch.IndexOfSpan` | ecmascript/ecma_string.cpp:321-347 | the least match at or after the position, or -1 when there is none |
| `StringSearch.LastIndexOfSpan` | ecmascript/ecma_string.cpp:349-372 | the greatest match at or before the position, or -1 when there is none |
| `StringSearch.WidePatternInNarrowText` | ecmascript/ecma_string.cpp:419-420 | a pattern that needs the wide encoding never occurs in a narrow text, so the shortcut is sound |
| `StringSearch.FlatPair` | ecmascript/ecma_string.cpp:406-409 | flattening two strings in turn gives both contents, even when they share nodes |
| `StringSearch.IndexOf` | ecmascript/ecma_string.cpp:374-426 | the least match at or after the position, for every layout and width mix; exact for every position if and only if it is not a negative one with an empty pattern |
| `StringSearch.LastIndexOf` | ecmascript/ecma_string.cpp:428-478 | the greatest match at or before the clamped position, for every layout and width mix |
| `StringTable.InternedEqualIsIdentical` | ecmascript/ecma_string.cpp:621-650 | interned strings have equal contents exactly when they are the same object |
| `StringTable.TableKept` | ecmascript/ecma_string_table.cpp:51-103 | string operations elsewhere keep the table canonical |
| `StringTable.InsertKeepsTable` | ecmascript/ecma_string_table.cpp:92-103 | inserting a new content under its hash keeps one entry per content |
| `StringTable.InsertUnder` | ecmascript/ecma_string_table.cpp:92-103 | inserting under any key keeps the table's invariant if and only if the key is the content's hash and the content is new |
| `StringTable.StringsAreEqual` | ecmascript/ecma_string.cpp:652-674 | content equality, through every shortcut on length, encoding and cached hashes |
| `StringTable.StringIsEqualUint8Data` | ecmascript/ecma_string.cpp:676-696 | content equality with compressible UTF-8 data |
| `StringTable.StringsAreEqualUtf16` | ecmascript/ecma_string.cpp:698-714 | content equality with UTF-16 data |
| `StringTable.EqualToSplicedString` | ecmascript/ecma_string.cpp:537-560 | content equality with the concatenation of two strings |
| `StringTable.IsUtf8EqualsUtf16` | ecmascript/ecma_string.cpp:837-861 | for whatever the decoder yields, answers whether the decoded data is a prefix of the wide data, because it stops at the end of the former |
| `StringTable.Find` | ecmascript/ecma_string_table.cpp:79-90 | a hit has the content asked for; a miss means that no entry under that hash has it |
| `StringTable.ComputeHashcodeUtf8` | ecmascript/ecma_string.cpp:800-822 | the hash of compressible data is the hash of the string with that content |
| `StringTable.ComputeHashcodeUtf16` | ecmascript/ecma_string.cpp:824-834 | computes the UTF-16 hash whose agreement Utf16HashAgrees decides |
| `StringTable.EcmaStringTable.constructor` | ecmascript/ecma_string_table.cpp:105-109 | the empty table over a heap without interned strings is canonical |
| `StringTable.EcmaStringTable.InternStringThreadUnsafe` | ecmascript/ecma_string_table.cpp:92-103 | leaves an interned string alone, and otherwise adds the entry under the header's hash, computed when unset, and sets the flag |
| `StringTable.EcmaStringTable.InternNew` | ecmascript/ecma_string_table.cpp:234-235 | interning a new content keeps the table canonical and makes that string its one object |
| `StringTable.EcmaStringTable.InsertStringToTable` | ecmascript/ecma_string_table.cpp:257-263 | inserting without a lookup keeps the table canonical if and only if the flattened string is interned already or its content is new; afterwards the flattened string is interned, and if it was before, neither heap nor table changes |
| `StringTable.EcmaStringTable.InsertTwice` | ecmascript/ecma_string_table.cpp:257-263 | inserting the same string twice returns the same object, and the table stays as the first call left it, canonical whenever that was |
| `StringTable.EcmaStringTable.GetOrInternString` | ecmascript/ecma_string_table.cpp:213-236 | returns the one object with that content; the table stays canonical and no string changes |
| `StringTable.EcmaStringTable.GetOrInternUtf8` | ecmascript/ecma_string_table.cpp:129-143 | the same for non-empty compressible UTF-8 data; an entry is added only for a new content |
| `StringTable.EcmaStringTable.InternFresh` | ecmascript/ecma_string_table.cpp:197-211 | inserting a new string under a caller's hash adds that one entry and keeps the table canonical exactly when the hash is right, or zero and recomputed, and the content new |
| `StringTable.EcmaStringTable.GetOrInternUtf16` | ecmascript/ecma_string_table.cpp:197-211 | the table stays canonical if and only if the data is no false numeral |
| `StringTable.EcmaStringTable.GetOrInternParts` | ecmascript/ecma_string_table.cpp:111-127 | interning a concatenation keeps the table canonical if and only if the two-part hash agrees, or is zero for a new content; from 2^30 units on, and only then, a null pointer is followed |
| `StringTable.EcmaStringTable.StringsAreEqualInterned` | ecmascript/ecma_string.cpp:621-650 | "both interned and not identical means unequal" decides content equality |
| `StringTable.Serve` | ecmascript/ecma_string_table.cpp:129-236 | any request for a heap string or compressible data is answered by the one object of its content |
| `StringTable.InternAll` | ecmascript/ecma_string_table.cpp:129-236 | over any run of requests two answers are the same object exactly when the contents are equal |
| `TableSweep.RelocatedVal` | ecmascript/ecma_string_table.cpp:310-328 | a moving collection changes no content |
| `TableSweep.SweepKeepsTable` | ecmascript/ecma_string_table.cpp:310-328 | sweeping with injective forwarding keeps the table canonical and complete for interned survivors |
| `TableSweep.SweepWeakReference` | ecmascript/ecma_string_table.cpp:310-328 | the entry-by-entry loop performs that sweep |
| `TableRuns.Evacuate` | ecmascript/ecma_string_table.cpp:310-328 | copying the live strings to places in any order yields an injective forwarding of the kind the sweep asks for |
| `TableRuns.CollectStrings` | ecmascript/ecma_string_table.cpp:310-328 | a whole collection keeps the table canonical and every handle on its content, and kept answers stay interned |
| `TableRuns.Step` | ecmascript/ecma_string_table.cpp:51-143 | each operation, request or collection behaves as on plain strings |
| `TableRuns.Run` | ecmascript/ecma_string_table.cpp:51-328 | over every run of string operations, interning requests and collections, handles denote plain strings and two answers of the table are the same object exactly when their contents are equal |
| `NodeLists.NewNodeOk` | ecmascript/ecma_global_storage.h:242-255 | taking a fresh node keeps both lists a partition of the nodes handed out and disturbs no other node |
| `NodeLists.GetFreeNodeOk` | ecmascript/ecma_global_storage.h:257-269 | taking a free node moves exactly that node between the lists |
| `NodeLists.FreeNodeOkay` | ecmascript/ecma_global_storage.h:271-292 | freeing any used node, at the head, in the middle or at the end, moves exactly it to the free list |
| `HandleStore.ViewAt` | ecmascript/ecma_global_storage.h:381-389 | the live handles of a population are exactly the nodes on the used lists, with their values |
| `HandleStore.UsingIsLive` | ecmascript/ecma_global_storage.h:438-443 | the in-use flag of a node tells exactly whether its handle is live; one that was disposed holds undefined |
| `HandleStore.PopFreeOk` | ecmascript/ecma_global_storage.h:556-564 | taking the exhausted head out of the free chain restores "the chain holds exactly the blocks with a free node" |
| `HandleStore.LinkToOk` | ecmascript/ecma_global_storage.h:567-569 | linking a new block behind the last keeps both chains well linked and every earlier block full |
| `HandleStore.NewGlobalHandleImplement` | ecmascript/ecma_global_storage.h:540-575 | in all three cases the new handle is none of the live ones, the others keep their values, the structure is kept, and a block is allocated exactly when there is no room |
| `HandleStore.NoRoomExactly` | ecmascript/ecma_global_storage.h:546-569 | "the last block is full and the free chain is empty" holds if and only if every node of every block is a live handle |
| `HandleDispose.DeleteOk` | ecmascript/ecma_global_storage.h:516-527 | deleting an emptied block, wherever it is in the two chains, keeps the structure |
| `HandleDispose.AddToFreeOk` | ecmascript/ecma_global_storage.h:529-536 | the block is added to the free chain exactly when it is not in it |
| `HandleDispose.DisposeGlobalHandleInner` | ecmascript/ecma_global_storage.h:508-538 | removes exactly that handle, keeps the structure, and releases its block exactly when that was its last handle, all its nodes had been handed out and it is not the only block |
| `HandleIteration.VisitsAll` | ecmascript/ecma_global_storage.h:478-502 | the visiting order lists every live handle exactly once |
| `HandleIteration.IterateBlock` | ecmascript/ecma_global_storage.h:367-378 | visits a block's handles in order although the visitor may dispose each, and the block with the last |
| `HandleIteration.IterateUsageGlobal` | ecmascript/ecma_global_storage.h:478-502 | visits each handle live at the start once; afterwards exactly the disposed ones are gone |
| `GlobalStorage.BlocksBounded` | ecmascript/ecma_global_storage.h:515-527 | a population holds at most one block more than it has live handles |
| `GlobalStorage.EcmaGlobalStorage.constructor` | ecmascript/ecma_global_storage.h:397-402 | both populations start well formed and empty |
| `GlobalStorage.EcmaGlobalStorage.NewGlobalHandle` | ecmascript/ecma_global_storage.h:433-436 | adds one strong handle that aliases none and leaves all others alone |
| `GlobalStorage.EcmaGlobalStorage.DisposeGlobalHandle` | ecmascript/ecma_global_storage.h:438-450 | removes that handle; on a node not in use it does nothing |
| `GlobalStorage.EcmaGlobalStorage.MoveTo` | ecmascript/ecma_global_storage.h:455-469 | reading, disposing and creating anew moves one handle with its value into the population |
| `GlobalStorage.EcmaGlobalStorage.SetWeak` | ecmascript/ecma_global_storage.h:452-463 | moves exactly one handle from strong to weak with its value; a node that is not in use gives a new weak handle of what it holds |
| `GlobalStorage.EcmaGlobalStorage.ClearWeak` | ecmascript/ecma_global_storage.h:465-471 | moves exactly one handle from weak to strong with its value; a node that is not in use gives a new strong handle of what it holds |
| `GlobalStorage.EcmaGlobalStorage.IterateUsage` | ecmascript/ecma_global_storage.h:478-502 | each live handle of the population is visited once, and the other population is untouched |
| `GlobalStorage.EcmaGlobalStorage.ObjectOfLive` | ecmascript/ecma_global_storage.h:452-456 | what a live handle's node holds is the handle's value |
| `GlobalStorage.EcmaGlobalStorage.ObjectOfFreed` | ecmascript/ecma_global_storage.h:271-292 | the node of a disposed handle holds undefined |
| `GlobalStorage.Step` | ecmascript/ecma_global_storage.h:433-471 | each operation behaves as on independent cells |
| `GlobalStorage.Run` | ecmascript/ecma_global_storage.h:433-471 | over every run from the start no two outstanding handles alias, each holds its value in its population, and there are no others |
| `HandleScopes.SlotsDiffer` | ecmascript/ecma_handle_scope.cpp:71-85 | different handles live in different slots |
| `HandleScopes.EcmaContext.OpenScope` | ecmascript/ecma_handle_scope.cpp:22-33 | a scope remembers the state with the handles there are |
| `HandleScopes.EcmaContext.NewHandle` | ecmascript/ecma_handle_scope.cpp:50-86 | the new slot follows the previous one, across blocks too, and every earlier handle keeps address and value |
| `HandleScopes.EcmaContext.ExpandHandleStorage` | ecmascript/ecma_context.cpp:959-977 | moves to the next block, the one already there or else one new block at the end, and disturbs no stored handle |
| `HandleScopes.EcmaContext.ShrinkHandleStorage` | ecmascript/ecma_context.cpp:979-1009 | frees blocks beyond the first three only, and only when none is in use |
| `HandleScopes.EcmaContext.CloseScope` | ecmascript/ecma_handle_scope.cpp:35-48 | drops exactly the scope's own handles and restores next, end and block index to their values at opening; it shrinks to three blocks exactly when the end of the storage moved, there were more than three and the index is below two |
| `HandleScopes.EcmaContext.HandlesHaveBlocks` | ecmascript/ecma_context.cpp:1002-1008 | the slot of every handle of an open scope is in a block that is still allocated |
| `HandleScopes.EcmaContext.IterateHandle` | ecmascript/ecma_context.cpp:942-957 | enumerates exactly the slots of the handles of still-open scopes, each once, and returns their number |
| `HandleScopes.Step` | ecmascript/ecma_handle_scope.cpp:22-86 | each operation behaves as on a plain stack of handles |
| `HandleScopes.Run` | ecmascript/ecma_handle_scope.cpp:22-86 | over every nested run the context holds, and enumerates, exactly the handles of its open scopes |
| `JoinStacks.PopIsExact` | ecmascript/ecma_context.cpp:1086-1100 | popping removes exactly the receiver if and only if it was pushed last or is not in progress |
| `JoinStacks.PopOutOfOrder` | ecmascript/ecma_context.cpp:1091-1093 | a concrete stack that an out-of-order pop empties |
| `JoinStacks.JoinStack.JoinStackPush` | ecmascript/ecma_context.cpp:1059-1074 | fails exactly when the receiver is in progress, else pushes it |
| `JoinStacks.JoinStack.JoinStackPushFastPath` | ecmascript/ecma_context.cpp:1050-1057 | the fast path decides the same |
| `JoinStacks.JoinStack.JoinStackPop` | ecmascript/ecma_context.cpp:1086-1100 | changes the slots as the specification of a pop says, in or out of order |
| `JoinStacks.JoinStack.JoinStackPopFastPath` | ecmascript/ecma_context.cpp:1076-1084 | changes the slots as a pop does for every receiver; the stack loses exactly the receiver if and only if it was pushed last or is not in progress |
| `JoinStacks.Step` | ecmascript/ecma_context.cpp:1050-1100 | entering or leaving a join behaves as on a plain stack |
| `JoinStacks.Run` | ecmascript/ecma_context.cpp:1050-1100 | over every nested run the occupied slots are exactly the receivers in progress and each entry is refused exactly when its receiver is one |
| `ElementKinds.MergeAdmits` | ecmascript/elements.cpp:104-135 | a merged kind admits what either kind admits |
| `ElementKinds.MergeIsLeast` | ecmascript/elements.cpp:104-135 | no smaller kind does |
| `ElementKinds.WiderAntisymmetric` | ecmascript/elements.cpp:104-135 | kinds that admit the same values are equal |
| `ElementKinds.KindOfAllAdmits` | ecmascript/elements.cpp:137-154 | folding the classification over any values yields a kind admitting all of them |
| `ElementKinds.KindOfAllIsLeast` | ecmascript/elements.cpp:137-154 | and the least such kind |
| `ElementKinds.KindOfAllOrderFree` | ecmascript/elements.cpp:137-154 | in whatever order the values come |
| `TaggedWords.IntRoundTrip` | ecmascript/js_tagged_value.h:209-213 | tagging and untagging an int, and storing it raw, are inverse, and neither word is the hole mark |
| `TaggedWords.TaggedIntWord` | ecmascript/js_tagged_value.h:99-99 | the word of an int is its 64-bit two's complement with the upper 16 bits set, negative ints included |
| `TaggedWords.HeapWords` | ecmascript/js_tagged_value.h:193-196 | heap references are exactly the words without tag bits and without the special and boolean bits |
| `TaggedWords.DoubleRoundTrip` | ecmascript/js_tagged_value.h:203-207 | tagging and untagging a pure double are inverse, and its raw bits are never the hole mark |
| `TaggedWords.IntToDoubleExact` | ecmascript/elements.cpp:267-269 | the IEEE 754 fields of a converted int stand for exactly that number |
| `TaggedWords.TruncateOfInt` | ecmascript/elements.cpp:282-284 | converting an int to a double and back is the identity |
| `TaggedWords.TruncateNearestZero` | ecmascript/elements.cpp:282-284 | a double x is cut off to the n of its sign with abs(n) <= abs(x) < abs(n) + 1, said of its fraction and exponent fields |
| `ElementArrays.ConvertedReads` | ecmascript/element_accessor.cpp:83-148 | decoding an encoded value gives it back, numbers up to their tag, under every kind that can hold it |
| `ElementArrays.ClassOfWord` | ecmascript/elements.cpp:137-154 | which words each of the twelve kinds admits, said of the words: ints, doubles, strings, other heap objects and holes |
| `ElementArrays.TransitUnder` | ecmascript/js_hclass.cpp:664-702 | the kind after a write stays within a kind exactly when the old kind, the extra kind and the word do |
| `ElementArrays.ReadsBackExactly` | ecmascript/element_accessor.cpp:83-148 | decoding an encoded value gives its meaning back if and only if it is not the word 0xFFFE000000000001 in a tagged store |
| `ElementArrays.LostReadsAsHole` | ecmascript/element_accessor.cpp:85-88 | that word, a double, is stored as it is and read back as a hole |
| `ElementArrays.LostValueIsNaN` | ecmascript/base/number_helper.h:90-90 | the one value that is lost is a NaN |
| `ElementArrays.MigrateFromRawValueToHeapValue` | ecmascript/elements.cpp:200-225 | each word of the raw store becomes the value it reads as |
| `ElementArrays.MigrateFromHeapValueToRawValue` | ecmascript/elements.cpp:227-256 | every word of the tagged store reads the same from the raw one |
| `ElementArrays.MigrateFromHoleIntToHoleNumber` | ecmascript/elements.cpp:258-271 | in place, every int becomes the double of the same number and holes stay |
| `ElementArrays.MigrateFromHoleNumberToHoleInt` | ecmascript/elements.cpp:273-286 | in place, every double is cut off towards zero to a 64-bit integer and holes stay |
| `ElementArrays.NarrowsExactly` | ecmascript/elements.cpp:273-286 | an element survives that if and only if it is a hole or the double of some int |
| `ElementArrays.JSArray.Get` | ecmascript/element_accessor.cpp:27-41 | reads the element the store stands for |
| `ElementArrays.JSArray.MigrateArrayWithKind` | ecmascript/elements.cpp:156-198 | for every pair of kinds whose new kind admits the elements, the store takes the form of the new kind and every element reads as the value its word stands for |
| `ElementArrays.JSArray.TransitToElementsKind` | ecmascript/js_hclass.cpp:664-702 | merges the value's kind into the array's and reports a change exactly when there is one; a kind covers the result exactly when it covers the old kind, the extra kind and the word written |
| `ElementArrays.JSArray.Set` | ecmascript/element_accessor-inl.h:28-57 | the written index reads as the value written, every other index as before, numbers up to their tag |
| `ElementArrays.Run` | ecmascript/element_accessor-inl.h:28-57 | over any run of writes the array reads as a plain array would, and a kind covers its kind exactly when every word written is one that kind admits, such as only strings and holes for HOLE_STRING |
| `ElementArrays.CopyJSArrayObject` | ecmascript/element_accessor.cpp:150-159 | the copied elements read as the source's, the others as before, and the source is untouched |
| `DateTokens.NumberBounds` | ecmascript/date_parse.h:52-71 | every numeric token lies in 0..2147483639 and below ten to its counted length, so it never equals INT_MAX |
| `DateTokens.CountedDigits` | ecmascript/date_parse.h:56-64 | the digits counted are the shortest prefix above 214748363, or all |
| `DateTokens.StringReader.NextChar` | ecmascript/date_parse.h:41-45 | drops one character of what remains and stays at the end |
| `DateTokens.StringReader.ReadNumber` | ecmascript/date_parse.h:52-71 | consumes the whole digit run and returns the counted value and length without overflow |
| `DateTokens.StringReader.ReadAlphabet` | ecmascript/date_parse.h:73-83 | consumes the whole letter run and returns its first letters in lower case |
| `DateTokens.MatchKeyWord` | ecmascript/date_parse.cpp:319-343 | classifies a word as time flag, zone, month number or other |
| `DateTokens.DateProxy.Read` | ecmascript/date_parse.cpp:275-317 | scans exactly the first token of what remains |
| `DateTokens.DateProxy.NextDate` | ecmascript/date_parse.h:328-333 | moves along the token list of the string; the end stays |
| `DateParser.NormMilliSecond` | ecmascript/date_parse.h:428-450 | the milliseconds of a fraction; the divisor overflows exactly beyond 12 counted digits |
| `DateParser.IsIsoDateTime` | ecmascript/date_parse.cpp:43-88 | decides the ISO date part and leaves exactly the numbers and tokens the legacy path goes on with, which IsoGivesWay shows to lose nothing |
| `DateParser.ParseIsoDateTime` | ecmascript/date_parse.cpp:90-176 | reads time and zone as the specification over token lists says |
| `DateParser.ParseLegacyDates` | ecmascript/date_parse.cpp:178-273 | the loop terminates on every token list and collects what the specification says, whose meaning on texts DateTimeTextMeans gives |
| `DateParser.SetTimeZone` | ecmascript/date_parse.cpp:345-356 | stores the offset in seconds, INT_MAX for local, or fails |
| `DateParser.SetTimeValue` | ecmascript/date_parse.cpp:358-379 | stores the padded time and accepts hour 24 only as 24:00:00.000 |
| `DateParser.SetDayValue` | ecmascript/date_parse.cpp:381-443 | orders the numbers into year, month and day and stores them only if in range; LegacyForms.NumbersMean says which dates result |
| `DateParser.ParseDateString` | ecmascript/date_parse.cpp:21-42 | the whole parser computes the fields that the token-list specification gives the string |
| `DateRanges.TokensOk` | ecmascript/date_parse.cpp:275-317 | every token of every string is in range |
| `DateRanges.LegacyOk` | ecmascript/date_parse.cpp:178-273 | over the whole loop months, zones and counts stay in range and "unset" is never produced by input |
| `DateRanges.FinishOk` | ecmascript/date_parse.h:380-389 | accepted fields are in range and the zone is "unset" exactly when none was given |
| `DateRanges.ParsedInRange` | ecmascript/date_parse.cpp:21-42 | every string that parses has in-range fields, hour 24 only as 24:00:00.000; without overlong fractions nothing overflows |
| `DateIso.FormReads` | ecmascript/date_parse.cpp:43-176 | every text of the ISO grammar parses to what it means, out-of-range ones to a rejection |
| `DateIso.IsoFormOf` | ecmascript/date_parse.cpp:43-176 | whatever the ISO path accepts is a text of that grammar, followed by anything only after a zone |
| `DateText.StrToTargetLength` | ecmascript/js_date.cpp:612-632 | pads with zeros after the sign |
| `DateText.PadValue` | ecmascript/js_date.cpp:612-632 | padded digits have the number's value, and the width when it fits |
| `DateText.ScanNumber` | ecmascript/date_parse.cpp:275-281 | printed digits before a non-digit scan to their number token |
| `DateRoundTrips.ScanForm` | ecmascript/date_parse.cpp:275-317 | scanning the text of an ISO form gives exactly its tokens |
| `DateRoundTrips.IsoRoundTrip` | ecmascript/date_parse.cpp:21-176 | every ISO text, in or out of range, parses to exactly its meaning |
| `DateRoundTrips.FractionMillis` | ecmascript/date_parse.h:428-450 | a fraction of any length gives its first three digits, or overflows if and only if 12 of more than 12 digits stay within 214748363 |
| `DateRoundTrips.IsoOverflowsExactly` | ecmascript/date_parse.cpp:121-130 | an ISO text with a fraction overflows if and only if the fraction is too long, whatever its other fields are |
| `DateRoundTrips.OverflowExample` | ecmascript/date_parse.h:443-449 | the text 2000-01-01T00:00:00 with twelve zeros and a one as its fraction parses to the overflow |
| `DatePrinters.DateTimeRoundTrip` | ecmascript/date_parse.cpp:43-176 | every date-time with Z, an offset or no zone comes back with exactly its fields and offset if its date, time and zone are in range, and is rejected if not |
| `DatePrinters.DateRoundTrip` | ecmascript/date_parse.cpp:171-175 | a date without a time comes back as midnight UTC |
| `DatePrinters.ToISOStringRoundTrip` | ecmascript/js_date.cpp:699-723 | parsing undoes toISOString for every year of up to six digits |
| `DatePrinters.ZoneBack` | ecmascript/date_parse.cpp:345-356 | a written ISO zone is its seconds if and only if it has at most 24 hours and at most 59 minutes, and refused otherwise |
| `LegacySteps.CenturyWindowed` | ecmascript/date_parse.cpp:429-435 | a year below 100 becomes one of 1950..2049 congruent to it modulo 100; from 100 on it is kept |
| `LegacySteps.WindowUnique` | ecmascript/date_parse.cpp:429-435 | there is only one such year |
| `LegacySteps.TakeFraction` | ecmascript/date_parse.cpp:196-210 | seconds with a fraction give seconds and milliseconds, or the overflow |
| `LegacySteps.TakeSpilled` | ecmascript/date_parse.cpp:211-221 | a number above 59 where minutes or seconds end is collected as a number of the date, or refused as the fourth |
| `LegacySteps.TakePair` | ecmascript/date_parse.cpp:246-255 | a signed hh:mm of any widths sets the zone to that hour and minute |
| `LegacySteps.TakeSigned` | ecmascript/date_parse.cpp:256-265 | a signed number of one or two digits is hours, of three or four hours and minutes |
| `LegacyForms.IsoGivesWay` | ecmascript/date_parse.cpp:43-88 | a text on which the ISO date part fails is read by the legacy path as if that had never been tried, unless a colon follows the last number taken or a signed six-digit year comes first |
| `LegacyForms.NumbersLeft` | ecmascript/date_parse.cpp:43-88 | which numbers a failed ISO date part leaves to the legacy path: the year with its sign and every two digits behind a dash |
| `LegacyForms.MinusZeroLeft` | ecmascript/date_parse.cpp:50-53 | a year of minus zero leaves no number |
| `LegacyForms.ColonLeft` | ecmascript/date_parse.cpp:178-222 | with a colon behind them the numbers left stay numbers of the date, and the colon counts for nothing |
| `LegacyForms.IsoRefuses` | ecmascript/date_parse.cpp:43-88 | numbers and month names that are not exactly year, month and day in the ISO widths make the ISO date part fail |
| `LegacyForms.ReadPieces` | ecmascript/date_parse.cpp:178-222 | the loop collects up to three numbers in order and the last month named, whatever separators stand between them |
| `LegacyForms.TooManyNumbers` | ecmascript/date_parse.cpp:217-221 | a fourth number outside a time is refused |
| `LegacyForms.SpecSeconds` | ecmascript/date_parse.cpp:345-356 | a legacy zone is its seconds if and only if it has at most 24 hours and at most 59 minutes, and refused otherwise |
| `LegacyForms.NumbersMean` | ecmascript/date_parse.cpp:381-443 | which date numbers and a month name are, in each of their orders; a year below 100 lies in 1950..2049; rejected exactly when date, time or zone is out of range |
| `LegacyForms.DateTimeMeans` | ecmascript/date_parse.cpp:178-273 | tokens of a date, a time in any form and a zone in any form parse to that date, time and zone, or are rejected exactly when one is out of range |
| `LegacyForms.DateZoneMeans` | ecmascript/date_parse.cpp:224-270 | a date with UTC or an offset and no time is midnight there |
| `LegacyTexts.ScanZoneWord` | ecmascript/date_parse.cpp:319-343 | Z, UTC and GMT in any case scan to a name of UTC |
| `LegacyTexts.OffsetKept` | ecmascript/date_parse.cpp:231-270 | hh:mm, h, hh, hmm and hhmm all have the hours and minutes written |
| `LegacyTexts.DateTimeTextMeans` | ecmascript/date_parse.cpp:178-273 | every text of numbers and month names with any separators, a time hh:mm, hh:mm:ss or hh:mm:ss.fff and a zone (none, a name of UTC, an offset in any form, or both) parses to the date, time and seconds written, or is rejected exactly when one is out of range; a last minute or second above 59 counts as a number of the date |
| `LegacyTexts.DateTextMeans` | ecmascript/date_parse.cpp:21-88 | every text of numbers and month names that is no ISO date is local midnight of the date they are |
| `LegacyTexts.ValueKept` | ecmascript/date_parse.h:52-71 | a digit string up to 214748363 has its decimal value on the legacy path |
| `LegacyTexts.SlashDateMeans` | ecmascript/date_parse.cpp:178-273 | 12/31/1999 is month, day, year and 1999/12/31 year, month, day, with digits of any width and any separators but single dashes; out of range they are rejected |
| `LegacyTexts.DashDateMeans` | ecmascript/date_parse.cpp:43-88 | year, month and day with dashes and digits of any width: midnight UTC of that year in the ISO widths, otherwise the local midnight that the legacy path reads |
| `LegacyTexts.DelEnds` | ecmascript/date_parse.h:110-113 | a DEL character ends the text, whatever follows it |
| `LegacyTexts.BracketsAreLetters` | ecmascript/date_parse.h:120-126 | brackets count as letters and scan as an unknown word |
| `LegacyRejects.AcceptedWords` | ecmascript/date_parse.cpp:226-232 | whatever the legacy loop accepts has its unknown words, and any lone T, before all numbers and none directly before one |
| `LegacyRejects.RefuseColon` | ecmascript/date_parse.cpp:186-195 | a number with a colon and no number after it is refused |
| `LegacyRejects.RefuseAfterTime` | ecmascript/date_parse.cpp:211-216 | a time that goes on with anything but the end, a blank, a sign or Z is refused |
| `LegacyRejects.RefuseFraction` | ecmascript/date_parse.cpp:196-210 | a point after the seconds without a fraction, or with one that does not end the time, is refused |
| `LegacyRejects.RefuseFifth` | ecmascript/date_parse.cpp:186-195 | a fifth number of a time is refused |
| `LegacyRejects.RefuseOffset` | ecmascript/date_parse.cpp:233-269 | an offset without its numbers, or of more than four digits without a colon, is refused |
| `DateLegacy.ToStringRead` | ecmascript/js_date.cpp:725-759 | parsing what toString prints gives its fields to the second and its offset, with a year below 100 moved to 1950..2049 |
| `DateLegacy.ToUTCStringRead` | ecmascript/js_date.cpp:786-810 | the same for toUTCString |
| `DateLegacy.WindowKeeps` | ecmascript/date_parse.cpp:429-435 | a printed year, whose sign the legacy path skips, is kept if and only if it is at least 100 |
| `DateLegacy.LegacyRoundTrip` | ecmascript/date_parse.cpp:178-273 | both texts round trip, to the second, if and only if the year is at least 100 |

## Left out

- Write barriers, memory spaces, locks and threads: every operation is one atomic step on one heap.
- The packing of length, encoding and intern flag into one header word: they are separate fields of a node.
- `EcmaString::IsSubStringAt`, `Compare` and `ToTypedArrayIndex`: not modelled.
- UTF-8 to UTF-16 conversion, case mapping and `Trim`: they rest on `utf_helper`, `StringHelper` and ICU.
- StringTable.StringIsEqualUint8Data: takes compressible data only. For other data the comparison stops at the end of the
  decoded data (`IsUtf8EqualsUtf16`), and a narrow slice is compared over the data's length instead of its own.
- StringTable.ComputeHashcodeUtf8: takes compressible data only, because the UTF-8 decoder lives in another library.
- Looking up empty raw data: the digit loop would read its first unit.
- `TryToSetIntegerHash`, `RelocateConstantData`, constant-pool caches and the AOT and JIT entry points: not modelled.
- `CheckStringTableValidity`: the invariant it samples at run time is the one proved of every operation.
- StringTable.EcmaStringTable.InternNew: is the step of `GetOrInternString` after the lookup has failed, so it asks for a new content.
- HashedStrings.ToElementIndex: holds for a hash field that is unset or right, which every operation of the model keeps.
- Finalizer callbacks and references of weak nodes: they call back into the embedder.
- Debug-only handle leak checks, backtraces and memory zapping.
- The intrusive node pointers of global handles are indices into blocks held in a map, and blocks are values: two
  aliases of one block object are not distinguished from one.
- Copy-on-write element stores: a store belongs to one array.
- ElementArrays.JSArray.MigrateArrayWithKind: asks that the new kind admit the elements; outside that the code converts values by the wrong accessor.
- ElementArrays.CopyJSArrayObject: asks for two arrays with stores of their own; its caller copies into a new store.
- Dictionary-mode arrays, hidden-class transitions other than the element kind, and profiling.
- LegacyTexts.DateTimeTextMeans: asks for seconds of at most 59 before a fraction; above that the loop takes the seconds for a number
  of the date, which `TakeSpilled` states, and goes on with the fraction as if it were the seconds.
- DateLegacy.ToStringRead: takes the printed fields as given; the calendar arithmetic that computes them from a time value is not modelled.
- Turning parsed fields into a time value, local offsets and daylight saving: they ask the operating system.
- `frames.cpp`, `dump.cpp`, the global environment tables, dictionaries and generator helpers: layouts, tables and plumbing
  without a state of their own.
