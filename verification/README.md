# Formal model of the chaincode proxy and of its map container

This project models two parts of the repository and proves what they are for.

**The map container** of the protobuf headers that the proxy is built with (`InnerMap`, its iterators, `Map`,
the two parsers of map entries, `MapField`).  A hash table whose buckets are lists, or trees shared by a pair of
buckets and recognised only by comparing two pointers, is proved to be a mathematical map through every insertion,
erasure, conversion and resizing, with iterators that survive all of these.  On it stand a parser that inserts
early and takes back what it inserted, and a field that keeps its pairs twice.

**The invocation protocol.**  The chaincode suspends at every access to the ledger; its request goes through fixed
buffers from the WASM module to the trusted application, the proxy and the wrapper on the peer, and the answer
goes back.  All of it is modelled in place, on the linear memory, the session context, the shared buffer and the
stream, and proved to be one step on the ledger, for every request, every ledger and every interleaving; and
wherever something fails on the way, the ledger is as before or as after that step.

| files | content |
|---|---|
| `Arithmetic`, `Options`, `LoadFactor` | remainders, masks, powers of two, when to resize |
| `MapNode`, `TableShape`, `TraversalOrder` | nodes and trees, the shape of a table and its traversal order, without the heap |
| `InnerMap`, `MapIterator`, `MapClear` | the hash table, its iterators, its destruction |
| `MapEntries`, `ProtobufMap`, `MapField`, `EntryParser` | the map, the map field, the parsers |
| `CStrings`, `Buffers`, `Decimal` | texts, fixed buffers, decimal numbers |
| `Protocol`, `Session`, `Natives`, `Chaincode`, `TrustedApp` | messages, session context, imports of the chaincode, the chaincode, the trusted application |
| `Wrapper`, `Proxy`, `Deployment` | the wrapper, the proxy, and all parties together |
| `TaModel`, `InvocationSpec`, `RunToEnd`, `Schedules`, `History` | the automaton on texts, the one-step specification, why the hops refine it, all interleavings, all histories |

## How to read it

- `InnerMap.Valid()` ties the real table to ghost fields: the nodes of each bucket, the tree of each pair, the node
  of each key.  `Contents()` is the mathematical map.  `TableShape` says what is right about these fields without
  the heap, so that most of the work is on sequences and maps.
- A traversal is a sequence of nodes, `Order()`.  `GoesOn` relates the order before and after an erasure, so what
  an iterator has still to meet is a suffix of it.
- `Parse` is the grammar of map entries as a recursive function over the rest of the input.  Both parsers are
  proved against it, so they agree with each other.
- In the protocol, `State()` reads texts out of the real buffers, and every method says which function of
  `TaModel` it computes on them.  `Finish` lets the ledger answer until the end; `Spec` is the one step.  `Net` is the
  state of wrapper and proxy together with what is under way between them; the two halves of a turn of the proxy are
  proved to be its moves.
- Whatever may fail outside the modelled code (the connection, the stream, the ledger, a TEE command, a step of the
  chaincode) may fail in the model at any time, arbitrarily; the ghost field `faulty` of the stream says whether
  anything has in the current invocation, and `failed` of the whole deployment keeps that for every invocation.
- The size of `unsigned long` is a parameter, `WordSize`, with up to 32 decimal digits.

## Findings about the code

- The comment on shrinking aims at a table that need not grow soon.  A load below three quarters after shrinking
  is not guaranteed: 192 elements in 1024 buckets shrink to 256 buckets (`LoadFactor.ShrinkingCanFill`).
  `LoadFactor.ShrunkSize` says for which numbers of elements it is.
- `create` with the empty key asks for the value and then forgets that it did: it ends with "NO_RESPONSE"
  exactly then (`RunToEnd.RunIsSpec` with `InvocationSpec.Spec`; `History.NoResponse`, and a request in
  `History.NoResponseToEmptyKey`), while `add` and `query` accept the empty key.
- `create` with an empty value answers "OK" and writes, but the key is still not found afterwards
  (`History.NothingCreated`; when a key is found is said by `History.PresentIffCreated`).
- A ledger value of 256 or more characters is not cut but dropped: the chaincode takes it for absent
  (`Protocol.SeenIsLossless` says which values it sees as they are, `History.SeenAsNothing` which not at all).  So a
  creation answers "OK" and overwrites such a value (`History.LongValueIsOverwritten`): a second creation leaves a
  value alone exactly if the chaincode sees it, or if it writes the same (`History.CreationKeeps`).
- When the chaincode traps after its write, the peer is told a success with the text "RUNTIME_ERROR", although the
  ledger has changed (`Schedules.TrapAfterCreation`).  Traps leave the ledger alone exactly for the requests whose
  one-step specification does (`Schedules.TrapsLeaveLedger`), and in a run exactly if no PUT was sent
  (`Schedules.TrappedRunLedger`, `Deployment.System.Invoke`).
- A query of a value with the text "RUNTIME_ERROR" is answered as a trap is (`InvocationSpec.LooksLikeTrap`); no other
  regular response can be taken for one.
- Swapping two maps of different arenas leaves their default values where they are (`ProtobufMap.Map.Swap`).
- `g_should_exit` is written but never read.

## Model

| member | source | states |
|---|---|---|
| InnerHashMap.InnerMap.Discriminates | fixed-proxy/include/google/protobuf/map.h:829-841 | with no tag bit, comparing the two entries of a pair of buckets tells exactly which buckets share a tree, which hold a non-empty list and which are empty |
| InnerHashMap.InnerMap.TreeHolds | fixed-proxy/include/google/protobuf/map.h:843-857 | both entries of a shared pair are the same tree; it is never empty, holds the nodes of both buckets in key order, its nodes have no successor |
| InnerHashMap.InnerMap.FirstIsNotOddHalf | fixed-proxy/include/google/protobuf/map.h:632-637 | the cached first non-empty bucket is exact and never the odd half of a pair that shares a tree |
| TraversalOrder.OrderLists | fixed-proxy/include/google/protobuf/map.h:422-469 | bucket after bucket, with a tree at its even bucket, every stored node comes exactly once |
| TraversalOrder.OrderWithout | fixed-proxy/include/google/protobuf/map.h:607-638 | unlinking a node from its bucket takes its one occurrence out of the traversal order and moves no other node |
| TableShape.PairShaped | fixed-proxy/include/google/protobuf/map.h:843-857 | gathering the lists of a pair in one tree keeps the shape of the whole table: every node is still where its key says |
| InnerHashMap.InnerMap.BucketNumber | fixed-proxy/include/google/protobuf/map.h:889-893 | masking the wrapped sum of hash and seed gives the home bucket of the key |
| LoadFactor.MaskIsRemainder | fixed-proxy/include/google/protobuf/map.h:484-484 | masking by one less than a power of two is the remainder by it, for all numbers |
| InnerHashMap.InnerMap.FindHelper | fixed-proxy/include/google/protobuf/map.h:647-671 | finds the node of the key if and only if the table has one, with the bucket under which it is kept (the even one for a tree) and its place in the tree |
| InnerHashMap.InnerMap.EntryIsTooLong | fixed-proxy/include/google/protobuf/map.h:876-887 | true exactly for a list of eight nodes, the most there can be |
| InnerHashMap.InnerMap.InsertUniqueInList | fixed-proxy/include/google/protobuf/map.h:711-715 | the new node becomes the head; the table stands for the old map and the new pair; no other entry changes |
| InnerHashMap.InnerMap.InsertUniqueInTree | fixed-proxy/include/google/protobuf/map.h:719-727 | the same for a bucket that shares a tree; table entries stay |
| InnerHashMap.InnerMap.CopyListToTree | fixed-proxy/include/google/protobuf/map.h:861-872 | all nodes of the list get into the tree in key order, and lose their successors; the result counts them |
| InnerHashMap.InnerMap.TreeConvert | fixed-proxy/include/google/protobuf/map.h:843-857 | two lists become one shared tree while the table goes on standing for the same map |
| InnerHashMap.InnerMap.InsertUnique | fixed-proxy/include/google/protobuf/map.h:677-707 | whatever the bucket is (empty, list, full list, tree), exactly the new pair is added, the first non-empty bucket stays exact, and the result is where the node is kept |
| InnerHashMap.InnerMap.CreateEmptyTable | fixed-proxy/include/google/protobuf/map.h:932-939 | a fresh table of a power of two of empty buckets |
| InnerHashMap.InnerMap.TransferList | fixed-proxy/include/google/protobuf/map.h:789-796 | moves the nodes of an old list, and these only |
| InnerHashMap.InnerMap.TransferTree | fixed-proxy/include/google/protobuf/map.h:798-806 | moves the nodes of an old tree, and these only |
| InnerHashMap.InnerMap.Resize | fixed-proxy/include/google/protobuf/map.h:771-787 | any resizing, growing or shrinking, with lists turning into trees on the way, keeps exactly the set of nodes and the map |
| LoadFactor.ShrunkSize | fixed-proxy/include/google/protobuf/map.h:753-761 | the shift loop ends without overflow and gives a power of two of at least 8 and at most half the old size, above 5/6 of the elements; it is the power of two at which a quarter more elements fill at least 3/4, unless it is 8, and at whose double they would not; the load is below 3/4 if and only if LeavesRoom holds of the number of elements |
| LoadFactor.SizeIsUnique | fixed-proxy/include/google/protobuf/map.h:737-768 | what the resizing promises of the size leaves exactly one size for every number of elements: doubled from 3/4 on, shrunk up to 3/16, otherwise the same |
| LoadFactor.CutoffsAre | fixed-proxy/include/google/protobuf/map.h:738-740 | the cutoffs are exactly 3/4 of the buckets and, above 8 of them, 3/16 |
| LoadFactor.RoomAfterShrinking | fixed-proxy/include/google/protobuf/map.h:753-761 | why the number of elements alone decides whether the load after shrinking is below 3/4: some table size must lie between 4/3 of it and 4/3 of the estimate |
| LoadFactor.ShrinkingCanFill | fixed-proxy/include/google/protobuf/map.h:753-761 | the load is not always below 3/4 after shrinking: 192 elements in 1024 buckets |
| InnerHashMap.InnerMap.ResizeIfLoadIsOutOfRange | fixed-proxy/include/google/protobuf/map.h:737-768 | doubles the table from a load of 3/4 on, shrinks it up to 3/16 to the one size fit for the elements, or leaves it; keeps all nodes, and leaves 5 times the elements below 6 times the buckets unless the table has its maximal size |
| InnerHashMap.InnerMap.SizesHold | fixed-proxy/include/google/protobuf/map.h:484-484 | every table has a power of two of buckets, from 8 to 2 to the 60th, the exact number of elements, 5 times of which are below 6 times the buckets, and lists of at most eight nodes |
| InnerHashMap.InnerMap.Insert | fixed-proxy/include/google/protobuf/map.h:565-600 | insert if not present: never overwrites, adds one fresh node otherwise, to a table that is resized exactly as the load says, tells which, and returns the node of the key with the bucket it is kept in |
| InnerHashMap.InnerMap.EraseFromLinkedList | fixed-proxy/include/google/protobuf/map.h:808-815 | the recursive unlinking gives exactly the old list without the node |
| InnerHashMap.InnerMap.EraseFromTree | fixed-proxy/include/google/protobuf/map.h:618-630 | the node leaves the shared tree; with the last one both entries of the pair become empty |
| InnerHashMap.InnerMap.Erase | fixed-proxy/include/google/protobuf/map.h:607-638 | removes exactly the node, and restores count, load bound and exact first non-empty bucket |
| MapClear.DestroyList | fixed-proxy/include/google/protobuf/map.h:527-531 | destroys every node of the list, in order; links are followed and nodes destroyed only by methods that demand that the node is not destroyed yet |
| MapClear.DestroyTree | fixed-proxy/include/google/protobuf/map.h:536-543 | the same for a tree that is erased while it is walked |
| MapClear.Clear | fixed-proxy/include/google/protobuf/map.h:521-550 | every node of the table is destroyed exactly once, in traversal order; a valid empty table of the same size is left |
| MapIterator.Iterator.Begin | fixed-proxy/include/google/protobuf/map.h:399-401 | the iterator starts at the first node of the traversal order, or at the end |
| MapIterator.Iterator.SearchFrom | fixed-proxy/include/google/protobuf/map.h:422-438 | the first node in a bucket or after it, in traversal order |
| MapIterator.Iterator.RevalidateIfNecessary | fixed-proxy/include/google/protobuf/map.h:481-505 | for a live node and an arbitrary stale bucket index: the result is the bucket that really holds the node (even, for a tree), and list or tree is told right |
| MapIterator.Iterator.Next | fixed-proxy/include/google/protobuf/map.h:450-469 | from any stale iterator, the next node of the traversal order, or the end after the last |
| MapIterator.Erase | fixed-proxy/include/google/protobuf/map.h:607-638 | erasing through an iterator removes its node from the map and from the traversal order; the order of the others stays |
| TraversalOrder.NextAfterErase | fixed-proxy/include/google/protobuf/map.h:1136-1141 | the node that followed the erased one has taken its place in the order that is left |
| ProtobufMap.Map.Size | fixed-proxy/include/google/protobuf/map.h:1049-1049 | the number of keys of the map |
| ProtobufMap.Map.Find | fixed-proxy/include/google/protobuf/map.h:1082-1082 | an iterator at the node of the key, or the end if and only if there is none |
| ProtobufMap.Map.Insert | fixed-proxy/include/google/protobuf/map.h:584-600 | the mathematical map gets the new pair only if the key is new; nodes of other keys stay the same objects; for an old key the order stays |
| ProtobufMap.Map.InsertValue | fixed-proxy/include/google/protobuf/map.h:1105-1112 | the same, and the iterator points at the node of the key |
| ProtobufMap.Map.At | fixed-proxy/include/google/protobuf/map.h:1053-1060 | operator[]: the value of the key, made with the default value if there was none |
| ProtobufMap.Map.Set | fixed-proxy/include/google/protobuf/map.h:1118-1118 | assigning through operator[] maps the key to the value and changes no other key |
| ProtobufMap.Map.EraseKey | fixed-proxy/include/google/protobuf/map.h:1127-1135 | removes the key and says whether it was there |
| ProtobufMap.Map.EraseAt | fixed-proxy/include/google/protobuf/map.h:1136-1141 | what remains to be traversed from the returned iterator is what remained after the erased node |
| ProtobufMap.Map.EraseRange | fixed-proxy/include/google/protobuf/map.h:1142-1146 | the loop ends, and removes exactly the nodes from the first place up to the second |
| ProtobufMap.Map.Clear | fixed-proxy/include/google/protobuf/map.h:1147-1147 | erasing from begin to end leaves the empty map |
| ProtobufMap.Map.IterationMeets | fixed-proxy/include/google/protobuf/map.h:1037-1038 | an iteration meets distinct keys, and folding what it meets gives the map |
| ProtobufMap.Map.InsertRange | fixed-proxy/include/google/protobuf/map.h:1113-1121 | any range of any map, also of this one: union with the pairs of the range, in which what is present wins |
| ProtobufMap.Map.InsertMap | fixed-proxy/include/google/protobuf/map.h:1113-1121 | union with a whole map in which what is present wins |
| ProtobufMap.Map.CopyOf | fixed-proxy/include/google/protobuf/map.h:146-150 | a copy with its own nodes stands for the same map |
| ProtobufMap.Map.Assign | fixed-proxy/include/google/protobuf/map.h:1150-1156 | assignment makes the map equal to the other one, also for self-assignment |
| ProtobufMap.Map.Swap | fixed-proxy/include/google/protobuf/map.h:1158-1171 | the maps exchange what they hold; in one arena with their tables and default values, otherwise by copying, and then each keeps its default value |
| EntryParser.MapEntry.MergePartialFromCodedStream | fixed-proxy/include/google/protobuf/map_entry_lite.h:196-233 | the loop accepts exactly what the recursive grammar of entries accepts, with the same final key, value and rest of the input, though it may or may not notice the end of the input early |
| EntryParser.UnknownFieldIsSkipped | fixed-proxy/include/google/protobuf/map_entry_lite.h:225-231 | an unknown field that can be skipped changes nothing: with it or without it, the same inputs are accepted, with the same entry and the same rest |
| EntryParser.CorruptedFieldIsRejected | fixed-proxy/include/google/protobuf/map_entry_lite.h:225-231 | an unknown field that cannot be skipped makes the input corrupted |
| EntryParser.FirstTagDecides | fixed-proxy/include/google/protobuf/map_entry_lite.h:208-231 | for a first tag in any encoding: key and value are read and kept or corrupt the input, zero and wire type 4 end the entry, anything else is skipped |
| EntryParser.Parser.MergePartialFromCodedStream | fixed-proxy/include/google/protobuf/map_entry_lite.h:347-387 | the fast parser succeeds exactly when parsing the entry plainly does, and then the map gets exactly its final key and value, and the parser points at that pair; otherwise the map is as it was |
| EntryParser.Parser.ParseAfterKey | fixed-proxy/include/google/protobuf/map_entry_lite.h:356-383 | the same from the first key on: existing or new key, with the value next or not |
| EntryParser.Parser.ParseNewPair | fixed-proxy/include/google/protobuf/map_entry_lite.h:361-376 | the speculative path is taken exactly for a new key, told from the sizes before and after; if it is not taken, map and input are as they were |
| EntryParser.Parser.FillNewPair | fixed-proxy/include/google/protobuf/map_entry_lite.h:364-376 | a value that cannot be read undoes the insertion |
| EntryParser.Parser.ReadBeyondKeyValuePair | fixed-proxy/include/google/protobuf/map_entry_lite.h:445-463 | when more follows, the pair is taken out again, and the map gets what the whole entry says, or stays without the pair |
| EntryParser.Parser.UseKeyAndValueFromEntry | fixed-proxy/include/google/protobuf/map_entry_lite.h:428-440 | the parsed entry is assigned to the map |
| MapField.MergeMaps | fixed-proxy/include/google/protobuf/map_field_lite.h:78-83 | right-biased union of two maps, or of a map with itself |
| MapField.MapField.SyncMapWithRepeatedFieldNoLock | fixed-proxy/include/google/protobuf/map_field_inl.h:317-334 | the map becomes the fold of the entries, in which the last entry of a key wins |
| MapField.MapField.SyncRepeatedFieldWithMapNoLock | fixed-proxy/include/google/protobuf/map_field_inl.h:280-311 | the repeated field becomes the pairs of the map in traversal order |
| MapField.MapField.SyncMapWithRepeatedField | fixed-proxy/include/google/protobuf/map_field.h:129-132 | what the field holds stays; afterwards the map is up to date |
| MapField.MapField.SyncRepeatedFieldWithMap | fixed-proxy/include/google/protobuf/map_field.h:124-127 | what the field holds stays; if the map has news, the entries become exactly its pairs in traversal order and the state Clean; otherwise entries and state stay |
| MapField.MapField.GetRepeatedField | fixed-proxy/include/google/protobuf/map_field.h:88-88 | the entries returned are exactly those of the repeated field, brought up to date from the map if that has news, which leaves the state Clean; they fold to what the field holds |
| MapField.MapField.WriteRepeatedField | fixed-proxy/include/google/protobuf/map_field.h:91-91 | whatever a client leaves in the repeated field is what the field holds, last entry winning |
| MapField.MapField.GetMap | fixed-proxy/include/google/protobuf/map_field.h:260-263 | the map returned is what the field holds, whichever side was fresh; it is refilled only if the repeated field has news, and then the state is Clean |
| MapField.MapField.MutableMap | fixed-proxy/include/google/protobuf/map_field.h:265-270 | the same, and the map is marked as the fresh side |
| MapField.MapField.Size | fixed-proxy/include/google/protobuf/map_field_inl.h:171-174 | the number of keys that the field holds |
| MapField.MapField.Clear | fixed-proxy/include/google/protobuf/map_field_inl.h:179-193 | the field holds nothing, and the map is the fresh side |
| MapField.MapField.MergeFrom | fixed-proxy/include/google/protobuf/map_field_inl.h:253-260 | what the field holds becomes its union with the other field, which wins; the other one, which may be the same, goes on holding the same |
| MapField.MapField.Swap | fixed-proxy/include/google/protobuf/map_field_inl.h:265-275 | two fields, in one arena or not, exchange what they hold, with their repeated fields and states |
| MapField.MapField.InsertOrLookupMapValue | fixed-proxy/include/google/protobuf/map_field_inl.h:223-239 | a new key gets the default value and is reported; an existing one keeps its value |
| MapField.MapField.DeleteMapValue | fixed-proxy/include/google/protobuf/map_field_inl.h:244-248 | removes the key and says whether the field had it |
| MapField.RepeatedRoundTrip | fixed-proxy/include/google/protobuf/map_field_inl.h:280-334 | entries that go to the map and come back: every key once, with the value of its last entry |
| MapEntries.EntriesMake | fixed-proxy/include/google/protobuf/map_field_inl.h:280-334 | the pairs of a map, in any order that lists it, fold to the same map: from map to entries and back is the identity |
| MapEntries.FoldIsLast | fixed-proxy/include/google/protobuf/map_field_inl.h:322-332 | assigning entries one after the other leaves every key with the value of its last entry |
| CStrings.SafeStrlen | wrapper_ta/ta/main.c:73-79 | the length of the text before the first NUL, at most the limit |
| CStrings.StrEq | wrapper_ta/chaincode/coffee_chaincode_wasm.c:23-23 | true exactly for equal texts, whatever lies behind them |
| CStrings.Strlen | wrapper_ta/chaincode/coffee_chaincode_wasm.c:20-20 | the length of the text before the first NUL |
| Decimal.Atoul | wrapper_ta/chaincode/coffee_chaincode_wasm.c:24-24 | parses to the number of the leading digits, modulo the word size, for every text |
| Decimal.TenDigits | wrapper_ta/chaincode/coffee_chaincode_wasm.c:24-28 | the digits are the ten characters 0 to 9 in this order, both when read and when printed |
| Decimal.NumberOfJoined | wrapper_ta/chaincode/coffee_chaincode_wasm.c:24-24 | digits behind digits: the number of the first is shifted by the length of the second |
| Decimal.LeadingZeros | wrapper_ta/chaincode/coffee_chaincode_wasm.c:24-24 | zeros in front of any digits do not change their number |
| Decimal.PrintedNumber | wrapper_ta/chaincode/coffee_chaincode_wasm.c:25-30 | digits without leading zeros are exactly what their number is printed as |
| Decimal.Ultoa | wrapper_ta/chaincode/coffee_chaincode_wasm.c:25-30 | writes the digits of the number that fit and a NUL, never outside the buffer or the scratch digits, and nothing else |
| Decimal.Scratch | wrapper_ta/chaincode/coffee_chaincode_wasm.c:28-28 | the 32 scratch digits are enough for every word, and hold the digits of the number in reverse |
| Decimal.RoundTrip | wrapper_ta/chaincode/coffee_chaincode_wasm.c:24-30 | parsing a printed number gives the number, for every number below the word size and whatever non-digit follows |
| Decimal.NumberOfPrinted | wrapper_ta/chaincode/coffee_chaincode_wasm.c:25-30 | the digits denote the number; with Printed: no leading zeros |
| Buffers.RefilledRegion | wrapper_ta/ta/chaincode_native_functions.c:156-166 | clearing a field and copying a text into it stores the text up to its first NUL, and no other field changes |
| Session.SessionContext.constructor | wrapper_ta/ta/main.c:53-59 | a session context of zeros: nothing is pending, no response, all texts empty |
| Natives.GetFunction | wrapper_ta/ta/chaincode_native_functions.c:42-105 | the WASM buffer is cleared and gets what fits of the function name; an invalid buffer stays as it was |
| Natives.GetArg | wrapper_ta/ta/chaincode_native_functions.c:107-123 | the same for the argument behind the function name; an index out of range is an empty text |
| Natives.GetState | wrapper_ta/ta/chaincode_native_functions.c:125-179 | the key, cut to 63 characters, and the out buffer are recorded as a pending request; an invalid out buffer records nothing |
| Natives.PutState | wrapper_ta/ta/chaincode_native_functions.c:181-205 | key and value, cut to their fields, are recorded as a pending request; the result is always -1 |
| Natives.ReturnResponse | wrapper_ta/ta/chaincode_native_functions.c:208-237 | the response is recorded, cut to 255 characters |
| Chaincode.Instance.CreateInit | wrapper_ta/chaincode/coffee_chaincode_wasm.c:64-77 | on the WASM memory and the session does what the automaton on texts does: key and argument fetched, the value requested, state 11 unless the key is empty |
| Chaincode.Instance.CreateResume | wrapper_ta/chaincode/coffee_chaincode_wasm.c:79-92 | after GET an existing value ends with EXIST and an absent one is requested to be stored; after PUT the response is OK |
| Chaincode.Instance.AddInit | wrapper_ta/chaincode/coffee_chaincode_wasm.c:95-103 | key and argument fetched, the value requested, state 21 |
| Chaincode.Instance.AddResume | wrapper_ta/chaincode/coffee_chaincode_wasm.c:105-125 | after GET an absent value ends with EMPTY, otherwise the wrapped sum is requested to be stored; after PUT the response is OK |
| Chaincode.Instance.Sum | wrapper_ta/chaincode/coffee_chaincode_wasm.c:112-117 | reading, adding with wrap-around and printing within the WASM memory stores the decimal text of the sum |
| Chaincode.Instance.QueryInit | wrapper_ta/chaincode/coffee_chaincode_wasm.c:128-135 | key fetched, the value requested, state 31 |
| Chaincode.Instance.QueryResume | wrapper_ta/chaincode/coffee_chaincode_wasm.c:137-147 | the stored text, or NOTFOUND |
| Chaincode.Instance.StepResume | wrapper_ta/chaincode/coffee_chaincode_wasm.c:153-187 | one resumption of the buffers refines one step of the automaton on texts, from every valid state |
| TaModel.OtherStates | wrapper_ta/chaincode/coffee_chaincode_wasm.c:79-147 | an operation goes on only in its states 11 and 12, 21 and 22, or 31; resumed in any other one, it does nothing |
| TrustedApplication.TrustedApp.CallStep | wrapper_ta/ta/main.c:82-171 | one step of the chaincode as its automaton says, unless the step fails |
| TrustedApplication.TrustedApp.ProcessHostcallFlow | wrapper_ta/ta/main.c:178-233 | after one step of the chaincode, the shared buffer and the kind of message say what the chaincode waits for, or how it ended; after a step that fails they say RUNTIME_ERROR |
| TrustedApplication.TrustedApp.RunWasm | wrapper_ta/ta/main.c:248-319 | starts a fresh chaincode on the arguments in the buffer and runs it to its first suspension, unless the step fails; if starting it fails, the buffer is as it was or says STEP_INIT_FAILED |
| TrustedApplication.TrustedApp.ResumeWasm | wrapper_ta/ta/main.c:321-361 | puts the answer where the chaincode asked for it and runs it to its next suspension, unless the step fails; is refused exactly if nothing is running |
| RunToEnd.RunSuspends | wrapper_ta/ta/main.c:196-232 | starting leads to a suspended state: a pending GET with state 11, 21 or 31, matching operation and out buffer at the empty g_cur_val, or a response; never a PUT |
| RunToEnd.ResumeSuspends | wrapper_ta/ta/main.c:333-361 | resuming any suspended state with any value leads to another one that is closer to the end, and a second request has the key of the first |
| RunToEnd.RunIsSpec | fixed-proxy/main.cpp:253-357 | for every request and ledger, the hops together give the response, ledger and messages of the one-step specification |
| InvocationSpec.ResponseTells | wrapper_ta/chaincode/coffee_chaincode_wasm.c:79-125 | what each response to anything but a query tells: ERROR exactly for names that are no function, NO_RESPONSE, EXIST and EMPTY exactly in their cases, OK exactly if a value was sent to be stored; any other response leaves the ledger as it was |
| InvocationSpec.UnknownFunction | wrapper_ta/chaincode/coffee_chaincode_wasm.c:173-174 | a name that is no function is answered with ERROR; nothing is read and the ledger stays |
| InvocationSpec.LooksLikeTrap | wrapper_ta/ta/main.c:186-194 | a regular response has the text of a trap exactly if it is that of a query of a value with this very text |
| Proxy.InvocationService.PackArguments | fixed-proxy/main.cpp:218-240 | the buffer holds the function name and at most nine arguments, each cut to 63 characters and to its first NUL |
| Proxy.InvocationService.Forward | fixed-proxy/main.cpp:255-283 | the first half of a turn is the move of the proxy that writes: the wrapper is sent exactly what the chaincode waits for, unless sending fails |
| Proxy.InvocationService.Await | fixed-proxy/main.cpp:279-351 | the second half of a turn is the move of the wrapper that serves and the move of the proxy that reads; if something fails, the ledger is as before or as after serving |
| Proxy.InvocationService.ResumeWith | fixed-proxy/main.cpp:287-350 | the chaincode goes on with exactly the value of the ledger, or with nothing if that is too long for the buffer or the request was to store |
| Proxy.InvocationService.Turn | fixed-proxy/main.cpp:253-357 | one turn of the loop leaves strictly fewer turns and stays on the way to the specified outcome, or is the last one: with that outcome, or with a failure and the ledger as before or as in it |
| Proxy.InvocationService.ExecuteWasm | fixed-proxy/main.cpp:164-363 | the unbounded loop ends; if nothing failed, response, ledger and messages are those of the one-step specification; otherwise the ledger is as before or as in it, as before if no PUT was sent, and as in it if one was and the response is RUNTIME_ERROR |
| Proxy.InvocationService.TransactionInvocation | fixed-proxy/main.cpp:395-430 | serves one request that way, reports a failure, and leaves a fresh session for the next |
| Wrapper.WrapperStream.Serve | chaincode.go:118-191 | one turn of the loop on the peer is the move of the wrapper that serves; if receiving, the ledger or sending fails, it returns an error, and the ledger is as before or as after serving; answers are the stored value, or the empty text for a missing key, and OK after storing |
| Wrapper.WrapperStream.Start | chaincode.go:89-116 | the stream starts with the request, or the wrapper returns an error |
| Deployment.System.Invoke | chaincode.go:73-192 | for every ledger and arguments: too few are rejected and change nothing; otherwise, if nothing fails, the run through wrapper, proxy, trusted application and chaincode returns the response of the one-step specification, with its ledger and messages; if anything fails, the peer gets an error or RUNTIME_ERROR, and the ledger is as before or as in the specification, never in between: as before if no PUT was sent, and after RUNTIME_ERROR as in the specification exactly if one was |
| Deployment.System.InvokeAll | chaincode.go:73-192 | transactions one after another, any of which may fail: each has its whole effect or none; one during which nothing fails is answered with the response of the one step on the ledger that those before it left behind, and has its effect, as has every confirmed one; one without arguments is refused; on the ledger every key is a counter of its own |
| Schedules.EveryScheduleIsSpec | chaincode.go:118-191 | however wrapper and proxy interleave, there are at most eight moves, the messages sent are always a prefix of those specified, the ledger is always as before or as specified, and nobody can move if and only if the wrapper has returned the specified response with the specified ledger |
| Schedules.MovesKeepTrack | fixed-proxy/main.cpp:253-357 | every move of either party keeps the invariant of the protocol and leaves fewer moves |
| Schedules.NobodyIsStuck | fixed-proxy/main.cpp:253-357 | there is no deadlock: somebody can move until the wrapper has returned |
| Schedules.MovesAllOrNothing | chaincode.go:165-189 | no move leaves the ledger between the state before the invocation and the specified one |
| Schedules.TurnKeepsTrack | fixed-proxy/main.cpp:253-357 | a turn of the loop of the proxy is a sequence of these moves, and leads from one point of writing to the next or to the end |
| Schedules.MovesKeepLedger | chaincode.go:165-189 | after every move the ledger is the specified one exactly if a PUT was sent and is not under way any more |
| Schedules.TrapLedger | wrapper_ta/ta/main.c:185-193 | wherever the chaincode may trap, the ledger is the specified one exactly if the answer it is resumed with is that to a PUT |
| Schedules.TrapIsReturned | fixed-proxy/main.cpp:255-266 | after a trap the wrapper returns RUNTIME_ERROR as a success, the ledger stays, and nobody can move any more |
| Schedules.TrappedRunLedger | wrapper_ta/ta/main.c:185-193 | after every run that ends in a trap, the ledger is the specified one if a PUT was sent and as before if not |
| Schedules.TrapAfterWrite | wrapper_ta/ta/main.c:185-193 | whenever an invocation is to change the ledger, there is a run that traps after the change |
| Schedules.TrapsLeaveLedger | wrapper_ta/ta/main.c:185-193 | every trapped run of a request leaves the ledger alone if and only if the one-step specification of the request does |
| Schedules.TrapAfterCreation | wrapper_ta/ta/main.c:185-193 | creating k with 5 on the empty ledger has a run that traps with k already there |
| History.HistoryCounts | wrapper_ta/chaincode/coffee_chaincode_wasm.c:64-125 | for every interleaving of transactions on any keys: the number that the ledger has for a key in the end is that of a wrapping counter of its own transactions |
| History.CounterOfPresent | wrapper_ta/chaincode/coffee_chaincode_wasm.c:79-125 | the number of a key whose value the chaincode sees ends at that number plus all that is added to it, modulo the word size |
| History.ValueOfPresent | wrapper_ta/chaincode/coffee_chaincode_wasm.c:79-125 | the bytes of a key whose value the chaincode sees: the printed sum if anything was added to it, otherwise exactly what they were, whatever else happened; creating it again leaves every byte |
| History.CreationKeeps | wrapper_ta/chaincode/coffee_chaincode_wasm.c:79-92 | a creation under a non-empty key leaves the bytes that are there if and only if the chaincode sees a value, or they are what the creation writes |
| History.SeenAsNothing | fixed-proxy/main.cpp:291-296 | the chaincode sees nothing of a value that is there if and only if that has 256 or more characters or starts with NUL |
| History.LongValueIsOverwritten | wrapper_ta/chaincode/coffee_chaincode_wasm.c:79-92 | creating k with 5 where k has a value of 256 or more characters answers OK and overwrites it |
| History.ValueOfCreated | wrapper_ta/chaincode/coffee_chaincode_wasm.c:64-125 | the bytes of a key under which the chaincode sees nothing, after its first creation: what was given then, or the printed sum if anything was added since |
| History.ValueOfOthers | wrapper_ta/chaincode/coffee_chaincode_wasm.c:64-187 | transactions that neither create nor add to a key leave its bytes alone |
| History.CounterOfCreated | wrapper_ta/chaincode/coffee_chaincode_wasm.c:64-125 | a key under which the chaincode sees nothing ends at the number of its first creation plus all that is added later, modulo the word size |
| History.PresentIffCreated | wrapper_ta/chaincode/coffee_chaincode_wasm.c:79-92 | the chaincode sees a value of a key in the end if and only if it saw one before or some transaction creates the key, which must not be empty, with a value that is not empty |
| History.HistoryIsLossless | fixed-proxy/main.cpp:291-296 | from a ledger of values without NUL and shorter than 256, every later ledger is such a ledger, and no value is ever cut or dropped |
| History.QueryReturnsStored | wrapper_ta/chaincode/coffee_chaincode_wasm.c:137-147 | on such ledgers a query after any history answers with the stored bytes |
| History.QueryAfterWrite | wrapper_ta/chaincode/coffee_chaincode_wasm.c:64-147 | a query after a write answers exactly what was written, from any ledger, unless that is empty |
| History.TraceShape | chaincode.go:118-191 | at most one GET, then at most one PUT with its key, then exactly one response; create and add answer OK if and only if they write |
| History.TraceIsReplayed | chaincode.go:165-189 | nothing but the messages changes the ledger |
| History.NoResponse | wrapper_ta/chaincode/coffee_chaincode_wasm.c:70-76 | a creation or addition ends with NO_RESPONSE if and only if it is a creation under the empty key |
| History.NoResponseToEmptyKey | wrapper_ta/chaincode/coffee_chaincode_wasm.c:70-76 | create with the arguments ["", "5"] on the empty ledger ends with NO_RESPONSE |
| History.NothingCreated | wrapper_ta/chaincode/coffee_chaincode_wasm.c:79-92 | a creation without a value answers OK, and a query then finds nothing |
| History.DigitsAreAdded | wrapper_ta/chaincode/coffee_chaincode_wasm.c:107-118 | adding digits to a value of digits stores the digits of the sum of both numbers, wrapped |
| History.EightAndOne | wrapper_ta/chaincode/coffee_chaincode_wasm.c:107-118 | adding 1 to 8 stores 9, and adding 1 to 9 stores 10 |
| Protocol.SeenIsLossless | fixed-proxy/main.cpp:294-296 | the chaincode sees a value of the ledger as it is if and only if that is free of NUL and shorter than 256 |
| Protocol.FittedIs | fixed-proxy/main.cpp:222-240 | what is passed of a name or argument: up to 63 characters, none from the first NUL on, and not less than that |
| Protocol.SeenIs | fixed-proxy/main.cpp:294-296 | what is passed of a value: nothing of 256 characters or more, otherwise all before the first NUL |

## Left out

- InnerHashMap.InnerMap: keys are integers with any hash function, in place of a type parameter; what is used of them is equality and a total order.
- MapNode.Node: the pair of a node is its key and value; the separate allocation of the pair, arenas and allocators are not modelled. `MapNode.Tree` keeps its nodes as an ordered sequence, with the insertion, search and erasure that `std::set` promises.
- ProtobufMap.Map.Assign: another map, there and in `InsertRange`, `Swap` and the operations of fields, shares no node or table with this one; the source makes no maps that do.
- MapField.MapField.SyncMapWithRepeatedField: map_field.cc is not part of this model; the bodies of the synchronising functions that lock, and of the functions that mark a side as changed, follow the comments and the state enumeration of the header. Atomics and the mutex are left out.
- EntryParser.Wire: how keys, values, tags and unknown fields are read is a parameter; tags of keys and values are one byte, as the parser asserts. What the coded stream sees of its buffer, and so whether it notices a tag or the end early, is arbitrary.
- Natives.GetArg: reading behind the arguments is excluded: index 9, and a text that does not end within them and is longer than asked for; what C does then is undefined. The chaincode asks for 0 and 1.
- Natives.GetFunction: the same for a name that does not end within the arguments when more is asked for.
- Natives.ReturnResponse: a negative length is excluded, as what C does then is undefined; the chaincode passes lengths of texts.
- Chaincode.Instance: the addresses of buffers and literals in the linear memory are chosen here; what matters is that they are apart and not zero. `g_arg0`, which is not used, has none.
- TrustedApplication.TrustedApp.CallStep: what a step that fails leaves in the memory and the session is arbitrary. Exceptions that `call_step` takes for success, those that mention "out of bounds" or "null pointer", are not modelled.
- TrustedApplication.TrustedApp.RunWasm: loading and instantiating the WASM module either works or fails; how is not modelled.
- TrustedApplication.TrustedApp.ResumeWasm: a pending GET is required to name `g_cur_val`; `RunToEnd.Suspended` says that it always does.
- Proxy.InvocationService.TransactionInvocation: `restart_session` gives a trusted application with a session of zeros; that it may end the process instead is not modelled.
- Proxy.InvocationService.Await: the wrapper takes its turn when the proxy waits for it; `Schedules` treats all other interleavings.
- Deployment.System.Invoke: `setup`, which only stores an identifier, and endorsement and commit of the ledger are not modelled; the time limit is one of the failures. The ledger is a map in which a missing key reads as the empty text. One invocation runs at a time.
- `MapField::ContainsMapKey` is left out: it reads the map without synchronising, so it does not speak of what the field holds.
- Other accessors of `Map` (`at`, `count`, `equal_range`, iterators over constants) and the dynamic map field would only add easy members.
- Characters are Dafny characters; nothing depends on their encoding. The text encoding that gRPC demands is not modelled.
- Logging, timing, signals and the functions `cc_log`, `debug_log`, `set_uuid` and the memory functions offered to the WASM module are left out.
- Lines 96 and 259 of `wrapper_ta/ta/main.c` are remains of removed messages and are ignored.
