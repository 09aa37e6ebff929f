# Verified models of the dictionary, JSON, queue and distance code

This project states and proves what the algorithmic core of the repository is for.

* **Double-array dictionary** (`src/classify/textModel/darts.h`). A sorted key list becomes an
  array of 32-bit units, either directly or through a hash-consed acyclic word graph, and is
  searched by XOR transitions. The specification is a finite map from byte strings to
  non-negative integers in which the first of equal keys wins (`Languages`, `Keyset`). `Units`
  is the unit encoding; `FreeList` the circular list in the modulo-4096 window;
  `BuilderInvariant`, `BuilderSteps`, `BuilderPlacing` and `Builder` the array builder;
  `KeysetBuild` the direct build; `BitVector`, `DawgRegistry`, `DawgTable`, `DawgSpine`,
  `DawgNodes`, `DawgKeys`, `DawgBuilder` and `DawgBuild` the word graph and the build from it;
  `Prefixes` counts the nodes a trie needs; `DoubleArray` and `Traversal` are the searches.
* **Minimal prefix trie with a tail** (`src/include/darts-clone.h`). Keys branch only as far as
  they differ; the rest of each key lies in a tail where one suffix may be inside another and
  equal values share a slot. `SuffixUnits`, `SuffixTail`, `PrefixTrie`, `PrefixTrieRanges`,
  `PrefixTriePlacing`, `PrefixTrieBuilder`, `PrefixTrieSearch`, `PrefixTrieBuild`.
* **JSON reader and writers** (`src/jsoncpp`). `JsonText` defines the lexemes of a value tree and
  what it means for a document to be a layout of them, `JsonLayout` the compact and the indented
  text of a tree; the writers produce exactly these texts, and every layout is proved to be read
  back. `JsonGrammar` states which texts RFC 8259 admits for a tree and what they mean. `JsonLexer`,
  `JsonStrings` and `JsonParser` say what the reader makes of any document; `JsonReader` is the
  reader itself, with its cursor, node stack and error list. `JsonLanguage` defines the language it
  accepts, `JsonAccepted` proves that it accepts nothing else, and `JsonErrors` says what it reports
  otherwise. `JsonStable`, `JsonBeyond` and `JsonComments` show what passes beyond the grammar, and
  what the byte behind the document decides.
* **Blocking work queue** (`src/http_server`). `LinkedList` is the intrusive ring, `WaitList` the
  critical sections and, over them, all interleavings of callers with sleeping and woken getters
  and spurious wakeups.
* **Edit distance** (`src/Similarity/editDist`). `EditDistance`.

Loops and in-place updates of the source are methods and classes here; each is tied by its
postcondition to functions or predicates, about which the properties are proved. Ids, offsets and
words are natural numbers with the 32-bit limits written out; `Bits.Xor` and `Bits.Or` are defined
bit by bit. Ghost parameters and ghost fields (`lang`, `sem`, `v`, `node`, `Account`) carry the
meaning of the data and do not influence what is computed.

Where the code raises an exception the model returns `Outcomes.Outcome`. Preconditions that the
code relies on are explicit: a query given without a length is zero-terminated; a key handed to the
word graph has a zero byte behind it (`Backed`), its own zero bytes, if any, are where they are
noticed (`Watched`), and the total length is below 2^30, so that unit ids fit their field; values
fit a 32-bit integer. What happens without the byte behind the key, or with an unnoticed zero byte,
is stated in `DawgKeys`. The byte behind a JSON document is a parameter (`Config.behind`): a NUL for
a string, any byte when the document is given by two pointers.

Two places where the C++ text leaves the behaviour to the platform: negating the smallest 64-bit
integer (json_writer.cpp:41, json_reader.cpp:591 and 617) is taken to wrap around, and
`char` comparison in the list of member names follows `strcmp`.

## Model

| member | source | states |
|---|---|---|
| `Units.OffsetRoundTrip` | src/classify/textModel/darts.h:1441-1451 | a relative offset that passes the builder's mask tests is read back exactly by `offset()`, and writing it changes neither the label nor the leaf flag |
| `Units.OffsetLosslessIff` | src/classify/textModel/darts.h:56-74 | the 22-bit encoding loses nothing exactly on the offsets the mask tests accept |
| `Units.LabelFacts` | src/classify/textModel/darts.h:1438-1440 | setting a label leaves the leaf flag and the offset alone and makes `label()` return it |
| `Units.LeafFacts` | src/classify/textModel/darts.h:1428-1434 | setting the leaf flag leaves label and offset alone |
| `DoubleArray.ExactMatchSearch` | src/classify/textModel/darts.h:442-472 | from any node of a represented dictionary, and on the array of an empty one, the loop answers exactly the dictionary's lookup of the query, with its length, for both ways of giving the query |
| `DoubleArray.CommonPrefixSearch` | src/classify/textModel/darts.h:478-522 | counts all matches of the query, that is the keys that are non-empty prefixes of it, and stores the first `max_num_results` of them with value and length, the lengths strictly increasing |
| `DoubleArray.MatchesAre` | src/classify/textModel/darts.h:478-522 | (v, k) is among the matches exactly when 1 <= k, the first k bytes are a key and v is its value; the lengths strictly increase |
| `Traversal.TraverseComposes` | src/classify/textModel/darts.h:578-610 | traversing p and resuming on q reaches the same node with the same result as traversing p + q |
| `Traversal.Traverse` | src/classify/textModel/darts.h:579-610 | on every built array, the empty one included, the loop computes the walk and its result, all accesses in bounds |
| `Traversal.TraverseMeans` | src/classify/textModel/darts.h:579-610 | from a node with keys below it: -2 exactly when no key extends the query, otherwise the lookup (-1 when the query is only a proper prefix); the node reached is that of what was read, and no key goes on with one byte more of the query |
| `Traversal.EmptyTraverse` | src/classify/textModel/darts.h:579-610 | on the array of no keys -1 is answered where -2 is due exactly for zero bytes followed by at most one byte other than 1, from the root and from node 1 alike |
| `Traversal.KeysInEnumerate` | src/classify/textModel/darts.h:286-313 | the enumeration that `visit` follows lists every key below a node exactly once, in byte order |
| `Traversal.Visit` | src/classify/textModel/darts.h:286-313 | whenever the recursion ends, the loop counts exactly what it lists and writes what there is room for |
| `Traversal.VisitNode` | src/classify/textModel/darts.h:286-313 | from a real node with room for one result it ends, after as many nested calls as the longest key has bytes, with the first min(max, n) keys below the node in byte order, their values and lengths |
| `Traversal.VisitNoRoom` | src/classify/textModel/darts.h:286-313 | without room it ends at once and lists the node's own key, if it is one; `Visit` counts it and writes nothing |
| `Traversal.EmptyVisit` | src/classify/textModel/darts.h:286-313 | on the array of no keys the label test leads node 1 to itself and the root to node 1, so the recursion never ends |
| `Traversal.VisitEndsIff` | src/classify/textModel/darts.h:286-313 | for every built array the recursion from the root with room ends if and only if the dictionary is not empty, and then lists the first keys in byte order, each with its value and its length |
| `FreeList.UnlinkKeeps` | src/classify/textModel/darts.h:1867-1881 | taking one id off the ring keeps the whole free-list invariant: `next` from the head visits all unfixed ids of the window once, in increasing order, and the head is the array size when none is free, in spite of the modulo-4096 slots |
| `FreeList.SpliceKeeps` | src/classify/textModel/darts.h:1900-1916 | merging a new block appends its 256 ids to that list, also when the list was empty |
| `BuilderInvariant.NoFalseStep` | src/classify/textModel/darts.h:1812-1828 | once all blocks are fixed, a step out of a used offset passes the label test exactly when the dictionary has a key that goes on this way |
| `BuilderInvariant.FinishedRepresents` | src/classify/textModel/darts.h:1725-1747 | a finished array with every node decided represents the dictionary assigned to each node, all accesses in bounds |
| `BuilderSteps.Pigeonhole` | src/classify/textModel/darts.h:1930-1948 | a block has at most as many used offsets as ids hanging from them, so a block with a free id has an unused offset |
| `BuilderSteps.FillKeeps` | src/classify/textModel/darts.h:1940-1947 | a free slot labelled against an unused offset reads back that label and can never be mistaken for a child |
| `BuilderSteps.CommitKeeps` | src/classify/textModel/darts.h:1812-1828 | marking an offset used once all children hang from it keeps the invariant of the whole array |
| `BuilderSteps.ShareKeeps` | src/classify/textModel/darts.h:1664-1674 | pointing a node to the offset of a node with the same suffixes keeps the invariant |
| `Builder.DoubleArrayBuilder.ReserveId` | src/classify/textModel/darts.h:1867-1881 | takes exactly the id off the free list, growing the array when needed, and disturbs no unit that has a role |
| `Builder.DoubleArrayBuilder.ExpandUnits` | src/classify/textModel/darts.h:1883-1916 | fixes the block that leaves the 16-block window, adds a block, and keeps the invariant |
| `Builder.DoubleArrayBuilder.FixBlock` | src/classify/textModel/darts.h:1930-1948 | gives every id of the block its final role; the free ones are labelled against the first unused offset, which exists whenever it is needed |
| `Builder.DoubleArrayBuilder.FixAllBlocks` | src/classify/textModel/darts.h:1918-1928 | afterwards every id of the array is final |
| `Builder.DoubleArrayBuilder.IsValidOffset` | src/classify/textModel/darts.h:1847-1865 | accepts an offset exactly when it is unused, representable, and free for every label after the first |
| `Builder.DoubleArrayBuilder.FindValidOffset` | src/classify/textModel/darts.h:1830-1845 | the walk along the free list ends; its result is the first fit along the list, or the offset in a new block when nothing fits, and in either case unused, representable and free for all labels |
| `Builder.DoubleArrayBuilder.PlaceChildren` | src/classify/textModel/darts.h:1810-1828 | decides a node: its offset, its leaf flag and one unit per label, each with the quotient of the dictionary below it; fails only when the array is within a block of 2^29 units, which takes that many prefixes |
| `Builder.DoubleArrayBuilder.ShareOffset` | src/classify/textModel/darts.h:1664-1674 | links a node to the offset of an equal one; fails only under the same condition |
| `Builder.DoubleArrayBuilder.PlantRoot` | src/classify/textModel/darts.h:1733-1740 | the root is reserved and offset 0 marked used |
| `Prefixes.SizeBound` | src/classify/textModel/darts.h:1725-1776 | a trie of listed keys needs no more nodes than the list has bytes and terminators |
| `Keyset.RunLang` | src/classify/textModel/darts.h:1750-1776 | the keys of a range with one next byte are the quotient of the range's dictionary by that byte |
| `KeysetBuild.CollectLabels` | src/classify/textModel/darts.h:1783-1809 | collects exactly the next bytes of the range and succeeds exactly when the level has no misplaced zero byte, no negative value and no descending byte; the exception is that of the first offending key of the level |
| `KeysetBuild.ArrangeFromKeyset` | src/classify/textModel/darts.h:1779-1828 | decides the node of a range; only its children remain; the exception is that of the level or about offsets |
| `KeysetBuild.BuildRange` | src/classify/textModel/darts.h:1750-1776 | decides the node of a range with everything below it; an exception that is not about offsets names what is wrong with the range: a zero byte in a key, an index that is negative as a 32-bit integer, or two keys out of order |
| `KeysetBuild.AcceptableRange` | src/classify/textModel/darts.h:1779-1809 | the level-by-level checks together accept exactly the key lists that are zero-free and in byte order |
| `KeysetBuild.BuildFromKeyset` | src/classify/textModel/darts.h:1725-1776 | on every key list: success means an acceptable list and an array for the dictionary of first indices, for the empty list the exact array; an exception that is not about offsets names what is wrong (so zero-free lists of at most 2^31 keys fail as out of order, and lists in byte order never do); below 2^21 bytes and terminators success holds if and only if the list is acceptable |
| `BitVector.PopCountOnes` | src/classify/textModel/darts.h:887-895 | the parallel bit count is the number of one bits, for every 32-bit word |
| `BitVector.BitVector.Append` | src/classify/textModel/darts.h:866-871 | appends a zero bit |
| `BitVector.BitVector.Set` | src/classify/textModel/darts.h:848-854 | changes exactly one bit |
| `BitVector.BitVector.Build` | src/classify/textModel/darts.h:901-913 | computes the cumulative counts |
| `BitVector.BitVector.Rank` | src/classify/textModel/darts.h:842-847 | after any run of append and set followed by build, the number of set bits up to and including the position |
| `BitVector.RankInjective` | src/classify/textModel/darts.h:1107-1116 | different marked states get different numbers |
| `BitVector.RankOnto` | src/classify/textModel/darts.h:1107-1116 | every number below the count belongs to a marked state |
| `DawgRegistry.PackReads` | src/classify/textModel/darts.h:1020-1065 | a packed graph unit gives back child or value, sibling flag and state flag |
| `DawgRegistry.Minimal` | src/classify/textModel/darts.h:1267-1308 | no two registered sibling groups have the same suffix-to-value map |
| `DawgRegistry.RegisterKeeps` | src/classify/textModel/darts.h:1283-1298 | registering a group that is not there yet keeps the registry: meanings of the old groups, and minimality |
| `DawgTable.SeatKeeps` | src/classify/textModel/darts.h:1296-1297 | writing a group into the empty slot its probe ended at keeps every group reachable from its home slot |
| `DawgTable.EmptySlot` | src/classify/textModel/darts.h:1272-1274 | below full load there is an empty slot |
| `DawgTable.ProbeEnds` | src/classify/textModel/darts.h:1325-1352 | a probe that has met only occupied slots has not yet gone around, so every probe loop meets an empty slot |
| `DawgSpine.CollapseDict` | src/classify/textModel/darts.h:1267-1308 | replacing the deepest open group by its registered state leaves the dictionary of the whole graph unchanged |
| `DawgSpine.ExtendDict` | src/classify/textModel/darts.h:1231-1248 | hanging a new branch off the spine adds exactly the new key with its value |
| `DawgSpine.BeyondNew` | src/classify/textModel/darts.h:1220-1227 | a key that turns off to the right of the last one is not in the dictionary yet |
| `DawgKeys.NullIff` | src/classify/textModel/darts.h:1219-1221 | the walk stops at a zero byte exactly when the key has one on the part it shares with the last key |
| `DawgKeys.WalkRightIff` | src/classify/textModel/darts.h:1212-1232 | reading the byte behind a zero-free key, the walk compares it rightly with the last key if and only if that byte is zero, is not reached, or is smaller than the byte it meets |
| `DawgKeys.FalseMore` | src/classify/textModel/darts.h:1218-1230 | "a" inserted again from the buffer "ab" is found greater than itself |
| `DawgKeys.FalseSame` | src/classify/textModel/darts.h:1218-1230 | "a" after "ab" from the buffer "ab" is taken for the same key |
| `DawgKeys.ZeroUnnoticed` | src/classify/textModel/darts.h:1219-1221 | an empty graph accepts the bytes 97, 0, 98; after "a" they are refused |
| `DawgNodes.CollapseTree` | src/classify/textModel/darts.h:1300-1306 | freeing the nodes of a flushed group and linking its parent keeps the node pool, the stack and the recycle bin consistent |
| `DawgBuilder.DawgBuilder.AreEqual` | src/classify/textModel/darts.h:1354-1373 | true exactly when the open group and the registered one have the same items |
| `DawgBuilder.DawgBuilder.HashNode` | src/classify/textModel/darts.h:1389-1397 | the hash of an open group is the hash of its items |
| `DawgBuilder.DawgBuilder.HashUnit` | src/classify/textModel/darts.h:1375-1387 | and so is that of a registered group, although the two walk in opposite directions |
| `DawgBuilder.DawgBuilder.FindNode` | src/classify/textModel/darts.h:1338-1352 | finds a group exactly when an equal one is registered, and otherwise the slot to put it in; the loop ends |
| `DawgBuilder.DawgBuilder.FindUnit` | src/classify/textModel/darts.h:1325-1336 | ends at the empty slot for a registered group |
| `DawgBuilder.DawgBuilder.ExpandTable` | src/classify/textModel/darts.h:1310-1323 | rehashing into the doubled table keeps every registered group findable |
| `DawgBuilder.DawgBuilder.Register` | src/classify/textModel/darts.h:1272-1298 | yields the one group with that suffix-to-value map: an old one, then marked as shared with nothing else changed in marks and units, or a new one at the end of the units, not marked |
| `DawgBuilder.DawgBuilder.FlushTo` | src/classify/textModel/darts.h:1267-1308 | flushing down to a node leaves the dictionary of the graph unchanged |
| `DawgBuilder.DawgBuilder.WalkDown` | src/classify/textModel/darts.h:1212-1232 | the first loop computes that walk for every buffer and stops above the right node |
| `DawgBuilder.DawgBuilder.Insert` | src/classify/textModel/darts.h:1201-1249 | accepts exactly a non-empty key that is not before the last one, whose zero bytes if any are beyond the part shared with it, with a non-negative value, and says which exception is thrown otherwise; a zero-free key is added unless it is there |
| `DawgBuilder.DawgBuilder.Finish` | src/classify/textModel/darts.h:1187-1199 | the finished units mean the dictionary of everything inserted |
| `DawgBuilder.BuildDawg` | src/classify/textModel/darts.h:1616-1627 | on every list of terminated keys whose zero bytes are where they are noticed: success exactly on the insertable ones, and then a graph of the dictionary in which the first pair wins; otherwise the exception for the first pair that is refused |
| `DawgBuild.ArrangeFromDawg` | src/classify/textModel/darts.h:1692-1722 | decides the node of a graph state |
| `DawgBuild.BuildNode` | src/classify/textModel/darts.h:1659-1690 | decides the node of a state with everything below it; a shared state whose remembered offset is representable is linked to without building any other node, and a shared state is remembered for good once it has been arranged |
| `DawgBuild.BuildFromDawg` | src/classify/textModel/darts.h:1629-1657 | the array is one for the dictionary of the graph; fails only when that dictionary has 2^21 prefixes |
| `DawgBuild.BuildPairs` | src/classify/textModel/darts.h:1582-1592 | the build through the graph preserves meaning: the array is one for the dictionary of the pairs; below 2^21 bytes and terminators success holds if and only if the list is insertable; an exception that is not about offsets is the one for the first pair that is refused |
| `DawgBuild.PairDictFirst` | src/classify/textModel/darts.h:1616-1627 | that dictionary has exactly the given keys, each with the value of its first pair |
| `DawgBuild.BuildsAgree` | src/classify/textModel/darts.h:1582-1592 | with value i for key i both builds are of one dictionary |
| `DawgBuild.SearchBothBuilds` | src/classify/textModel/darts.h:442-472 | whichever way the array is built, a search answers the index of the first equal key, and -1 for every other query; below 2^21 bytes each build succeeds exactly on the lists it demands |
| `SuffixUnits.RawRoundTrip` | src/include/darts-clone.h:278-303 | an offset survives its 22 bits exactly when it is short or a multiple of 256 |
| `SuffixUnits.WordFields` | src/include/darts-clone.h:275-306 | the bit fields of the 32-bit word give back the fields of the unit, before and after a leaf is linked; every word of a built array is read through them |
| `SuffixTail.BytesRoundTrip` | src/include/darts-clone.h:1251-1257 | the four bytes of a value give it back |
| `SuffixTail.IsSuffixOf` | src/include/darts-clone.h:176-182 | the comparison from the end decides whether one key is a suffix of another |
| `SuffixTail.SortSuffixes` | src/include/darts-clone.h:701-705 | the same entries, ordered by their reversed suffixes; entries with one suffix keep their order |
| `SuffixTail.ArrangeSuffixes` | src/include/darts-clone.h:695-746 | every leaf reaches its own suffix and value; in the stored order a suffix of the one before shares its bytes unless all slots of the block are taken by other values, equal values of a block share a slot, and the tail holds nothing else; no other unit changes; fails only when suffixes, terminators and values together reach the limit of a link |
| `PrefixTrie.UnusedLeft` | src/include/darts-clone.h:668-679 | a block with a free id has an offset that is not used |
| `PrefixTrie.StepTrie` | src/include/darts-clone.h:1097-1105 | a step from a decided node leads to the child on this path when some key goes on this way, and otherwise to a unit whose letter, or whose leaf's first letter, differs from the one read |
| `PrefixTriePlacing.SplitStep` | src/include/darts-clone.h:496-537 | splitting the top range keeps the account of all keys, nodes and ranges |
| `PrefixTrieRanges.LeafStep` | src/include/darts-clone.h:482-493 | so does turning a range of one key into a leaf |
| `PrefixTrieBuilder.TrieBuilder.ReserveIndex` | src/include/darts-clone.h:581-597 | takes exactly the index off the free list, growing the trie when needed |
| `PrefixTrieBuilder.TrieBuilder.ExpandTrie` | src/include/darts-clone.h:600-641 | adds a block and keeps the invariant |
| `PrefixTrieBuilder.TrieBuilder.FixBlock` | src/include/darts-clone.h:656-691 | the free ids of the lowest block, taken from the head of the list, become fillers labelled against the first unused offset |
| `PrefixTrieBuilder.TrieBuilder.FindOffsetIndex` | src/include/darts-clone.h:541-578 | ends; the offset found is the first fit along the free list, or the one in a new block when nothing fits, and in either case unused, read back exactly, and free for all labels |
| `PrefixTrieBuilder.TrieBuilder.ListLabels` | src/include/darts-clone.h:496-514 | the next letters in increasing order, each with exactly the keys that go on with it |
| `PrefixTrieBuilder.TrieBuilder.PlaceChildren` | src/include/darts-clone.h:516-533 | decides the node, places one child per label and pushes their ranges, the first on top, adding a block at most; fails only when the trie is within a block of 2^29 units |
| `PrefixTrieBuilder.TrieBuilder.BuildTrieSubroutine` | src/include/darts-clone.h:469-538 | the stack is worked off; every key has a leaf of its own and every other node is decided; fails only when the keys have 2^21 bytes, counting two more for each |
| `PrefixTrieBuilder.TrieBuilder.BuildTrie` | src/include/darts-clone.h:445-466 | the finished trie, for every sorted list of distinct keys, the empty one included, with offsets that fit their fields; fails only under that condition |
| `PrefixTrieSearch.CompareTail` | src/include/darts-clone.h:1108-1118 | succeeds exactly when the rest of the query spells the stored suffix, with the stored value |
| `PrefixTrieSearch.AtLeaf` | src/include/darts-clone.h:1098-1103 | at any leaf, also one reached by a foreign step, comparing the stored suffix decides whether the query is a key |
| `PrefixTrieSearch.ExactMatch` | src/include/darts-clone.h:1087-1121 | reading bit fields of 32-bit words, succeeds exactly on the given keys and returns each key's own value; ends within the terminated query |
| `PrefixTrieBuild.Compare` | src/include/darts-clone.h:167-173 | the sign is the byte order of the terminated keys |
| `PrefixTrieBuild.PrepareKeys` | src/include/darts-clone.h:1039-1064 | succeeds exactly on zero-free lists in order, and keeps each distinct key with its first value; otherwise the exception for the first key that is refused |
| `PrefixTrieBuild.BuildArray` | src/include/darts-clone.h:401-430 | the words of trie and tail together answer the keys, and the word of unit 1 says where the tail begins; fails only on keys of 2^21 bytes, counting five more for each, or too many for a link |
| `PrefixTrieBuild.BuildThenSearch` | src/include/darts-clone.h:1028-1121 | from list to answer: the first value given for the key, nothing for any other query; below 2^21 bytes, counting five more for each key, success holds if and only if the list is ordered and zero-free; other lists fail with the exception for their first refused key |
| `JsonValue.PutKeeps` | src/jsoncpp/json_value.cpp:1138-1159 | storing a member keeps the members sorted and changes no other one |
| `JsonValue.LessIff` | src/jsoncpp/json_value.cpp:221-226 | the order of the members is decided by the first byte that differs, or by the string that ends first |
| `JsonValue.StoredIsSame` | src/jsoncpp/json_reader.cpp:614-621 | what is read back is the same tree, integers by value, exactly when no string was cut at a NUL |
| `JsonText.NumeralOfDigits` | src/jsoncpp/json_tool.h:77-89 | the digits of a number denote it |
| `JsonText.DigitTable` | src/jsoncpp/json_tool.h:77-89 | each of the ten digits has the value of its place |
| `JsonText.DigitsOfNumeral` | src/jsoncpp/json_tool.h:77-89 | and digits without leading zeros are recovered from the number |
| `JsonText.StripLaid` | src/jsoncpp/json_writer.cpp:218-274 | a laid-out document without the white space outside its strings is its lexemes and nothing else |
| `JsonText.SameLexemes` | src/jsoncpp/json_writer.cpp:302-476 | two layouts of one tree differ in white space outside strings only |
| `JsonWriter.UintToString` | src/jsoncpp/json_tool.h:77-89 | writes the decimal digits and a NUL backwards, stays inside the 25-byte buffer for every 64-bit value, and changes nothing else |
| `JsonWriter.SignedToString` | src/jsoncpp/json_writer.cpp:35-47 | the decimal form of every 64-bit signed integer, the smallest included when negation wraps |
| `JsonWriter.UnsignedToString` | src/jsoncpp/json_writer.cpp:50-57 | the decimal form of every 64-bit unsigned integer |
| `JsonWriter.ValueToQuotedString` | src/jsoncpp/json_writer.cpp:120-183 | the copying path and the escaping path give the same quoted form of the C string |
| `JsonWriter.FastWriter.Write` | src/jsoncpp/json_writer.cpp:209-216 | the document is the compact text of the tree and a newline, with a space behind the colons under YAML compatibility; without it, it is the lexemes and nothing else |
| `JsonWriter.FastWriter.WriteValue` | src/jsoncpp/json_writer.cpp:218-274 | appends exactly the compact text of the value |
| `JsonLayout.CompactLaid` | src/jsoncpp/json_writer.cpp:218-274 | the compact text is a layout of the lexemes of the tree |
| `JsonLayout.CompactIs` | src/jsoncpp/json_writer.cpp:218-274 | without YAML compatibility it is the lexemes one behind the other |
| `JsonLayout.StyledLaid` | src/jsoncpp/json_writer.cpp:302-413 | the indented text is a layout of the same lexemes |
| `JsonLayout.BracketsOnLines` | src/jsoncpp/json_writer.cpp:331-384 | each member and each item of an array that does not fit on a line stands behind a newline and three spaces per depth, and so does the closing bracket, unless the last entry is a null string or a real whose text ends in white space |
| `JsonStyledWriter.StyledWriter.Write` | src/jsoncpp/json_writer.cpp:289-300 | the document is the indented text of the tree at depth 0 and a newline; it is a layout of the same lexemes |
| `JsonStyledWriter.StyledWriter.WriteValue` | src/jsoncpp/json_writer.cpp:302-360 | in the collecting mode the text of the value goes to the children's list and nowhere else; otherwise its indented text at the current depth is appended to the document |
| `JsonStyledWriter.StyledWriter.WriteArrayValue` | src/jsoncpp/json_writer.cpp:363-413 | the same for arrays on one line or many, whatever the nested calls leave in the children's list |
| `JsonStyledWriter.StyledWriter.IsMultilineArray` | src/jsoncpp/json_writer.cpp:416-444 | an array takes one line exactly when its items are flat, 3 times their number is below 74 and the line is shorter than 74; either no child was collected or all of them were, and on one line all |
| `JsonStyledWriter.StyledWriter.WriteIndent` | src/jsoncpp/json_writer.cpp:457-469 | a newline and the indentation, less what the document already ends with |
| `JsonLexer.TokenShape` | src/jsoncpp/json_reader.cpp:265-336 | number tokens hold number characters only, string tokens both their quotes |
| `JsonStrings.Utf8RoundTrip` | src/jsoncpp/json_tool.h:18-52 | what is written for a code point is its UTF-8 form after section 3 of RFC 3629 if and only if it is a Unicode scalar value; for a surrogate it is no UTF-8, beyond the last code point nothing |
| `JsonStrings.CombineInverse` | src/jsoncpp/json_reader.cpp:732-743 | the surrogate pair of every supplementary code point is combined to it |
| `JsonStrings.CombineIff` | src/jsoncpp/json_reader.cpp:732-743 | what is combined from two units is the code point of that pair if and only if the second one is a low surrogate, which the code does not ask |
| `JsonStrings.HexTables` | src/jsoncpp/json_reader.cpp:764-771 | the d-th character of either hexadecimal table has value d, and every other character is refused |
| `JsonStrings.HexIff` | src/jsoncpp/json_reader.cpp:753-776 | four digits in any mixture of cases are read as the unit they spell by the tables, and nothing else is read |
| `JsonStrings.ShortTable` | src/jsoncpp/json_reader.cpp:695-702 | the eight letters of section 7 of RFC 8259 are read as the characters they stand for, and no other letter is read |
| `JsonStrings.EscapeMeans` | src/jsoncpp/json_reader.cpp:723-750 | of the accepted escapes, the decoded number is a scalar value exactly when the first unit is no low surrogate, and is what section 7 of RFC 8259 gives exactly when, besides, a high surrogate is followed by a low one |
| `JsonStrings.MeaningDecoded` | src/jsoncpp/json_reader.cpp:723-750 | every escape that means something is accepted and decoded to it |
| `JsonStrings.LoneLowSurrogate` | src/jsoncpp/json_reader.cpp:730-731 | the escape of DC00 is accepted and written as ED B0 80 |
| `JsonStrings.FalsePair` | src/jsoncpp/json_reader.cpp:736-741 | D800 followed by 0041 is accepted as 10041 |
| `JsonParser.ReadValueReadable` | src/jsoncpp/json_reader.cpp:186-233 | on every document, with or without errors, the tree left behind has sorted C-string names, integers in range and in their canonical type |
| `JsonParser.ParseReadable` | src/jsoncpp/json_reader.cpp:142-182 | the same of a whole parse |
| `JsonParser.ParseNullFree` | src/jsoncpp/json_reader.cpp:142-182 | the reader never produces a null string |
| `JsonReader.InspectReal` | src/jsoncpp/json_reader.cpp:575-581 | finds whether the token is more than a minus sign and digits |
| `JsonReader.DecodeInteger` | src/jsoncpp/json_reader.cpp:587-621 | the accumulator never passes its limit; the integer is exact precisely when its magnitude fits, and otherwise the real decoder is called |
| `JsonReader.Reader.NextToken` | src/jsoncpp/json_reader.cpp:265-336 | the token at the cursor; the cursor stays within the document and moves on unless it is at the end |
| `JsonReader.Reader.Match` | src/jsoncpp/json_reader.cpp:353-365 | moves over the word exactly when it stands there |
| `JsonReader.Reader.ReadBlockComment` | src/jsoncpp/json_reader.cpp:416-426 | succeeds exactly when the comment is closed |
| `JsonReader.Reader.RecoverFromError` | src/jsoncpp/json_reader.cpp:793-807 | skips to the closing token or an end of stream and keeps the errors there were |
| `JsonReader.Reader.DecodeStringToken` | src/jsoncpp/json_reader.cpp:677-721 | the characters the escapes stand for, or the error of the first bad one |
| `JsonReader.Reader.DecodeUnicode` | src/jsoncpp/json_reader.cpp:723-750 | the code point of one escape or of a surrogate pair, at most 10FFFF |
| `JsonReader.Reader.DecodeHex` | src/jsoncpp/json_reader.cpp:753-776 | the number of the four hexadecimal digits, by `JsonStrings.HexIff` the unit they spell, or an error |
| `JsonReader.Reader.ReadNode` | src/jsoncpp/json_reader.cpp:186-233 | leaves the node stack as deep as it was with only its top changed, adds errors exactly when it fails, and ends on every document |
| `JsonReader.Reader.ReadObject` | src/jsoncpp/json_reader.cpp:470-526 | the same for objects, with every recovery path |
| `JsonReader.Reader.ReadArray` | src/jsoncpp/json_reader.cpp:529-569 | the same for arrays |
| `JsonReader.Reader.ParseDocument` | src/jsoncpp/json_reader.cpp:141-182 | returns true exactly when the error list is empty, and exactly when the document begins with a text of the language of `JsonLanguage`; the root is then what that text means |
| `JsonRoundTrip.IntegerReads` | src/jsoncpp/json_reader.cpp:572-622 | every integer after section 6 of RFC 8259 that fits 64 bits is decoded exactly |
| `JsonRoundTrip.PiecesRead` | src/jsoncpp/json_reader.cpp:454-467 | the scan of any string after section 7 of RFC 8259 stops behind its closing quote, and decoding gives the characters its escapes and pairs stand for |
| `JsonRoundTrip.ReadBack` | src/jsoncpp/json_reader.cpp:186-233 | wherever a text of the grammar is laid out, the reader reads the tree it means and stops before what follows |
| `JsonGrammar.OwnIs` | src/jsoncpp/json_writer.cpp:218-274 | what the writers write for a tree without reals and null strings is a text of the grammar that means the tree as stored |
| `JsonGrammar.EscapedLeast` | src/jsoncpp/json_writer.cpp:130-178 | the writers escape exactly what section 7 of RFC 8259 does not allow unescaped, by a letter where there is one and by upper-case digits elsewhere |
| `JsonRoundTrip.GrammarParses` | src/jsoncpp/json_reader.cpp:141-182 | every layout of every real-free text of RFC 8259, with any escapes, members in any order and names repeated, parses to the tree it means |
| `JsonRoundTrip.LayoutParses` | src/jsoncpp/json_reader.cpp:141-182 | in particular every layout of a tree's lexemes parses to it, integers re-typed and strings cut at a NUL, with an error exactly where the strict mode refuses the root |
| `JsonRoundTrip.RoundTrip` | src/jsoncpp/json_writer.cpp:218-274 | for every tree without reals and every layout, the tree read back is the same, integers by value, if and only if no string is null and none holds a NUL |
| `JsonRoundTrip.Reparse` | src/jsoncpp/json_reader.cpp:141-182 | whatever document a tree was read from, any layout of it is read back as exactly that tree |
| `JsonRoundTrip.NullStringLost` | src/jsoncpp/json_writer.cpp:122-123 | a witness of that condition: an array holding one null string is written, and read back, as an empty array |
| `JsonStable.ReadMore` | src/jsoncpp/json_reader.cpp:186-233 | a value that is read is read the same, with the same end, whatever is appended to the document, unless it is a number or an open bracket at the document's edge |
| `JsonStable.NumberReadMore` | src/jsoncpp/json_reader.cpp:441-451 | a number that is read is read the same if and only if it ended before the edge or no number character is appended |
| `JsonBeyond.TrailingPasses` | src/jsoncpp/json_reader.cpp:163-181 | for every layout of every text of the grammar that is no number, and every tail, document and tail together parse to what the text means: what follows the value is not looked at |
| `JsonBeyond.TrailingNumber` | src/jsoncpp/json_reader.cpp:163-181 | the same for numbers if and only if the tail does not go on with a number character right behind the last digit |
| `JsonBeyond.TrailingWitness` | src/jsoncpp/json_reader.cpp:163-181 | an instance: `[] x` parses to an empty array |
| `JsonBeyond.BehindDecides` | src/jsoncpp/json_reader.cpp:529-540 | a document that parses before a NUL parses the same before any byte; one that does not parses exactly before a `]` when it is an open bracket with nothing but white space behind it, and then to an empty array |
| `JsonBeyond.LooseIntegers` | src/jsoncpp/json_reader.cpp:587-621 | digits may begin with zeros, and may be missing behind a minus |
| `JsonBeyond.CommaPasses` | src/jsoncpp/json_reader.cpp:476-486 | every layout of every object text with a comma behind its last member is read as without it, and accepted if and only if the last name means the empty string |
| `JsonComments.CommentsRefused` | src/jsoncpp/json_reader.cpp:186-196 | with comments disallowed a document parses if and only if it parses with them allowed and none stands where a value is due, and to the same tree; comments anywhere else pass |
| `JsonComments.AnySeparates` | src/jsoncpp/json_reader.cpp:503-521 | in every object text a comment followed by any token but a closing brace may stand for each comma, in either mode, and changes nothing; before the closing brace it passes if and only if the last name means the empty string |
| `JsonComments.SwallowedToken` | src/jsoncpp/json_reader.cpp:503-521 | an instance: `{"":[]/**/x}` parses with comments disallowed |
| `JsonLanguage.TokenIs` | src/jsoncpp/json_reader.cpp:265-336 | every token looks like a lexeme of its kind, as listed kind by kind, and stands behind nothing but white space |
| `JsonLanguage.DecodeSound` | src/jsoncpp/json_reader.cpp:677-750 | a string that is decoded was written as characters, escapes of the tables and pairs of escapes, and is decoded to what they mean |
| `JsonLanguage.DecodeComplete` | src/jsoncpp/json_reader.cpp:677-750 | and everything written so is decoded to it |
| `JsonLanguage.NumberIs` | src/jsoncpp/json_reader.cpp:572-622 | a number has a value exactly when it is a minus and digits that fit 64 bits, or the real scanner reads it |
| `JsonAccepted.ReadSound` | src/jsoncpp/json_reader.cpp:186-569 | a value that is read was written as a text of the language, with the same end, and is what the text means |
| `JsonAccepted.ReadComplete` | src/jsoncpp/json_reader.cpp:186-569 | and where the lexemes of such a text stand, its value is read |
| `JsonAccepted.AcceptedIff` | src/jsoncpp/json_reader.cpp:141-182 | a document parses if and only if it begins with a text of the language whose value the strict mode admits |
| `JsonAccepted.CommaRefused` | src/jsoncpp/json_reader.cpp:222-223 | an instance: `[,]` is refused |
| `JsonAccepted.ScannedLaid` | src/jsoncpp/json_reader.cpp:265-336 | the lexemes of that text are laid out at the beginning of the document with white space between them |
| `JsonAccepted.StrictIs` | src/jsoncpp/json_reader.cpp:186-569 | a text of the language that takes none of the named liberties is a text of RFC 8259 with the same lexemes and the same meaning |
| `JsonErrors.ReadErrors` | src/jsoncpp/json_reader.cpp:186-569 | a value that is not read leaves exactly one error, at a token that cannot stand where its message says what is expected |
| `JsonErrors.ParseErrors` | src/jsoncpp/json_reader.cpp:163-181 | a parse adds to it the error about the root and no other |
| `JsonErrors.WrongEscapeFound` | src/jsoncpp/json_reader.cpp:686-776 | a string that is not decoded has an escape that is wrong in the way the message says |
| `JsonErrors.RecoverIs` | src/jsoncpp/json_reader.cpp:793-807 | recovery skips to the first token of the kind it looks for, or to the first end of stream |
| `JsonDocuments.PrintBoth` | src/jsoncpp/json_writer.cpp:218-476 | the two printers' documents are the compact and the indented text, have the same lexemes, and the compact one is the indented one without its white space |
| `JsonDocuments.WriteThenRead` | src/jsoncpp/json_writer.cpp:209-300 | what either printer writes, the reader reads back as the same tree if and only if no string of it is null and none holds a NUL |
| `LinkedList.List.Add` | src/http_server/linked_list.hpp:23-29 | the node becomes the first of the ring |
| `LinkedList.List.Del` | src/http_server/linked_list.hpp:47-51 | exactly the node leaves the ring |
| `LinkedList.List.IsEmpty` | src/http_server/linked_list.hpp:18-18 | true exactly on the empty ring |
| `WaitList.Queue.Put` | src/http_server/wait_list.hpp:28-38 | the critical section adds the item while the queue is alive |
| `WaitList.Queue.Get` | src/http_server/wait_list.hpp:40-58 | one pass of the loop under the mutex: wait, take from the tail or the head, or give up on a dead queue |
| `WaitList.Queue.Flush` | src/http_server/wait_list.hpp:106-112 | the queue is dead and keeps its items |
| `WaitList.StepKeeps` | src/http_server/wait_list.hpp:28-112 | every step of every caller, spurious wakeups included, keeps the invariant |
| `WaitList.RunKeeps` | src/http_server/wait_list.hpp:28-112 | so every state of every run satisfies it |
| `WaitList.NoLostWakeup` | src/http_server/wait_list.hpp:28-58 | in every state of every run, while alive, either no getter sleeps or the woken getters are at least as many as the items; items are neither lost nor doubled |
| `WaitList.FirstInFirstOut` | src/http_server/wait_list.hpp:40-58 | when only `get` is used, the items handed out are the first ones put, in that order |
| `WaitList.OldestOrNewest` | src/http_server/wait_list.hpp:28-104 | in every run, with both ends used in any mixture, `get` hands out the item accepted first among those still queued and `get_from_head` the one accepted last |
| `WaitList.FlushIsFinal` | src/http_server/wait_list.hpp:106-112 | after a flush nobody sleeps and every answer is NULL |
| `EditDistance.Edit` | src/Similarity/editDist/EditDist.cpp:20-68 | the last cell of the table is the distance |
| `EditDistance.LcsIsLongest` | src/Similarity/editDist/EditDist.cpp:42-57 | the length of the longest common subsequence is attained, and no common subsequence is longer |
| `EditDistance.DistanceByLcs` | src/Similarity/editDist/EditDist.cpp:42-57 | the distance is the sum of the lengths less twice that length |
| `EditDistance.NoCheaperScript` | src/Similarity/editDist/EditDist.cpp:46-56 | no script of insertions, deletions and substitutions at 2 is cheaper |
| `EditDistance.CheapestScript` | src/Similarity/editDist/EditDist.cpp:46-56 | some script costs exactly the distance |
| `EditDistance.DistanceSymmetric` | src/Similarity/editDist/EditDist.cpp:20-68 | the distance is symmetric |
| `EditDistance.DistanceZeroIffEqual` | src/Similarity/editDist/EditDist.cpp:20-68 | it is zero exactly on equal lists |
| `EditDistance.TriangleInequality` | src/Similarity/editDist/EditDist.cpp:20-68 | it satisfies the triangle inequality |

## Left out

- DawgBuilder.DawgBuilder.Insert: of an accepted key with an unnoticed zero byte only the branch on the stack is stated, not what the graph then means; the total length is below 2^30, as larger unit ids do not fit their field.
- DawgBuilder.DawgBuilder.Register: which states end up marked as shared is stated for each registration, not for the finished graph.
- JsonAccepted.AcceptedIff: what a real is worth is a parameter, since `sscanf` reads it.
- DawgBuilder.BuildDawg: says nothing of lists in which a zero byte goes unnoticed; the same holds of what is built from it.
- DawgBuild.SearchBothBuilds: asks also of the direct build that zero bytes are noticed by the word graph, since it compares the two; `KeysetBuild.BuildFromKeyset` alone does not.
- Builder.DoubleArrayBuilder.Detach: the part of reserve_id after the growth test, used alone where the id is known to be inside the array.
- BitVector.BitVector.Rank: asks for a position inside the vector and a finished `build`, as its callers provide.
- Traversal.TraverseMeans: asks for a node with keys below it; `Traversal.EmptyTraverse` says what is answered without.
- Traversal.VisitNode: asks for room for one result; `Traversal.VisitNoRoom` says what happens without.
- PrefixTrieBuilder.TrieBuilder.ListLabels: the end flag of a unit is set as in the code, but nothing is proved about it, since only the prefix search and the traversal read it.
- PrefixTrieSearch.ExactMatch: starts at the root; resuming from an agent is not modelled.
- PrefixTrieBuild.BuildArray: values are given by the caller; the code's default of index i for key i is a particular choice of them.
- JsonRoundTrip.RoundTrip: excludes reals, which go through the C library.
- JsonRoundTrip.GrammarParses: excludes reals, and integers beyond 64 bits, which go to the decoder of reals; a string that means a NUL is cut there, as the value classes do.
- JsonComments.AnySeparates: of the tokens that take the place of a comma it leaves out those the scanner refuses after more than one character, such as an unclosed string or comment and a misspelt word.
- JsonReader.Reader.ParseDocument: comments are skipped but not attached to values, and an error does not record its extra location.
- EditDistance.Edit: table entries are unbounded integers; the code's `int` suffices while both lists together have fewer than 2^31 words.
- `prefixSearch` of darts.h, whose bound arithmetic differs between its branches; `visit` carries the property.
- `commonPrefixSearch` and `traverse` of darts-clone.h.
- The timed `get` of the queue: a waiter that times out may consume a signal.
- Growth of the memory pools, file loading and saving, progress callbacks.
- The copies of both trie headers and of the list headers elsewhere in the tree.
- `StyledStreamWriter`, the same logic over a stream; sparse arrays, which print as if filled with null; the cut of strings longer than 2^31 - 2 bytes.
- HTTP, MySQL, audio and XML plumbing, the classifiers and scorers in floating point, the segmenter behind `Calculate`, URL coding and small utilities.
