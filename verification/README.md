# A verified model of the ipgeolocation MMDB reader

This project models the parts of the ipgeolocation Traefik middleware that decide what a request is
judged by, in Dafny 4.11, and proves what the code's comments and design rely on:

- the MMDB data section decoder (`decode`, `skip`, `seek`) and the three byte sources it reads through;
- the binary search tree, its node layouts, the IPv4 shortcut, and opening a database;
- the writer that produces whole database files (`buildMMDB` and its encoders), so that reading and
  writing can be proved inverse to each other;
- turning records into header fields, by seeking or by decoding, over layered databases;
- the two-generation result cache, and the refresh protocol as a state machine of interleaved steps;
- the access rules, the selection of fields, and the choice of the client address.

The loops, the objects and the in-place updates of the original are methods and classes here, each
proved against a specification function; the theorems are lemmas about those functions.
`dafny verify dfyconfig.toml` checks the whole project.

## How it is organised

| file | subject |
|---|---|
| `Bytes.dfy`, `Sources.dfy` | bytes, byte order, sorting and splitting of strings; the three sources |
| `DataSection.dfy`, `ByteForms.dfy` | the decoder: specification functions and the loops; what the bytes of each form and type mean |
| `Grammar.dfy`, `Progress.dfy`, `Cycles.dfy` | a reference definition of the encoding by derivation trees; depth, skipping, progress, cycles |
| `Seeking.dfy`, `Interchange.dfy` | targeted access against whole decoding; independence of the source |
| `FixtureEncoder.dfy`, `FixtureWriter.dfy`, `RoundTrip.dfy`, `SizesAndPointers.dfy` | the value encoder, its loops, the round trip, the size and pointer forms |
| `SearchTrees.dfy`, `TreeBuilder.dfy`, `Tries.dfy`, `Networks.dfy`, `TreeFile.dfy` | node layouts and walks; the builder; what a tree means; trees against linear scans; written trees |
| `Readers.dfy`, `BuiltDatabase.dfy`, `EndToEnd.dfy`, `PlainDatabases.dfy`, `BuiltRecords.dfy` | opening and looking up; writing a whole file; the end-to-end theorem and when its conditions hold; the records of written files |
| `AddressNumbers.dfy`, `MetadataForms.dfy` | addresses, networks and nodes as numbers; which metadata opens a database |
| `Fields.dfy`, `Renderings.dfy` | formatting and extraction; what each kind of value is rendered as |
| `Provider.dfy`, `Priority.dfy` | lookups over layered databases by either strategy; which database and path decide |
| `Cache.dfy`, `Refresh.dfy`, `RefreshSafety.dfy`, `FreshAnswers.dfy` | the cache; the refresh protocol, its invariant and what follows; hits as answers of databases |
| `Plugins.dfy`, `RefreshRuns.dfy` | the provider and plugin objects; the protocol taken without interruption as the provider's refresh |
| `Rules.dfy`, `Policies.dfy`, `Selection.dfy`, `ClientIp.dfy` | rules; what a configuration allows; field selection and the decision path; the client address |
| `FlaggedRequests.dfy` | from a decoded flag to the verdict |
| `WrittenRequests.dfy`, `PartialFailures.dfy`, `StrategyFlips.dfy` | when headers do not matter; a failing database, and a record, for which they do |

`Grammar.Derives` is the reference point for everything about the data section: a tree says which
bytes make up a value, with no depth limit, no pointers to follow twice and no reading order. Decoding
is proved to find exactly the derivations of bounded height, and skipping and seeking are proved
against the same trees.

## Main results

1. **Seeking preserves meaning** (`Seeking.SeekPreservesMeaning`, `Seeking.SeekAgreesIff`,
   `Provider.StrategiesAgree`). For every byte source, offset and path: inside a record that decodes
   and repeats no key on the path, `seek` followed by `decode` never fails and answers what walking the
   decoded record answers, except that a nil is found by the one and absent for the other. In general
   the two agree if and only if in each map on the way the first and the last entry with the wanted key
   agree. Under that condition the provider's answers are the same by both strategies, because a nil
   shows as nothing. Every record of a written database meets it, in memory and on disk, so there the
   strategies always agree (`BuiltRecords.WrittenStrategiesAgree`).
2. **End to end** (`EndToEnd.BuiltDatabaseAnswersAsScan`). Every file written from disjoint, non-empty
   networks opens, from memory or from disk, and answers every address as a linear scan of the entries.
   In numbers: with the data of the first entry whose network holds the address's big-endian number
   (`AddressNumbers.BuiltDatabaseAnswersByNumber`). `PlainDatabases` shows that its conditions are met in
   practice.
3. **Refresh safety in every interleaving** (`RefreshSafety.SlotsFollowPaths`). How stale a cache hit can
   be is stated exactly (`StaleHitIff`, `HitIsCurrentIff`), and so is which readers are never closed
   (`LeakedIff`), with a run for each case that the code's comments rule out (`StaleAnswerAfterReset`,
   `FreshReaderLeaks`). In the cases that are not stale a hit is what the databases now in the slots answer
   (`FreshAnswers.HitIsAnswerOfSlots`).
4. **Round trip** (`RoundTrip.DecodeInvertsEncode`): an encoded value decodes back if and only if its
   nesting fits the depth limit.
5. **The tree builder** (`Tries.LookupAfterInsert`, `Tries.InsertIsTrieInsert`,
   `Networks.LookupIsScan`): the exact effect of an insertion on every lookup, overlaps included.
6. **The cache is exact** (`Cache.HitIsLatestPut`, `Cache.PutIsServed`, `Cache.RetentionIsExact`,
   `Cache.RetentionIsSharp`).
7. **From bytes to a verdict.** What the bytes of each pointer form and type number mean (`ByteForms`), what
   each kind of value is rendered as (`Renderings`), that the first database to show a field decides it
   (`Priority.FirstDatabaseWins`), and which requests a configuration allows
   (`Policies.ConfigurationAllowsIff`, `Selection.ServingIs`): a decoded flag is on for the rules exactly when
   its bool is true (`FlaggedRequests.DecodedFlagIsOn`).
8. **Headers bear on a verdict only through the lookup strategy** that the number of selected fields picks
   (`Selection.VerdictIsByStrategy`): it is the same under two header maps if and only if they pick one
   strategy or both strategies give one verdict on the records found (`VerdictIgnoresHeadersIff`), and when no
   database fails the like holds of what is done with the request (`StrategyDecidesServingIff`). Over written
   databases headers never matter (`WrittenRequests.WrittenServingIgnoresHeaders`). On a record with an entry
   that does not decode they do: such a request is let in exactly while at most eight fields are selected
   (`StrategyFlips.FewFieldsAdmit`, `ThresholdFlipsVerdict`). Where the verdicts agree, headers still matter
   exactly when a database fails, only one of the answers has fields and failing open differs from the verdict
   (`Selection.ServingIgnoresHeadersIff`, with a concrete case in `PartialFailures`). **Tightening never
   allows** (`Rules.TighteningNeverAllows`), and shortening a list of allowed values of any kind is a tightening
   if and only if it does not empty it (`Rules.ShrinkingTightensIff`).
9. **Forwarded addresses resist forging** exactly when the honest values hold an address outside the
   proxies (`ClientIp.Resolver.RightmostStableIff`) or at least `depth` entries (`DepthIsStable`,
   `ShallowHeadersAreForgeable`).

## Where the code and its documentation differ

The model follows the code.

- `cache.go:71-72` says that after a reset "stale answers cannot outlive the data they came from".
  They can: a lookup that read a slot before the swap may be stored after the reset, and is then served
  for up to the time to live. `RefreshSafety.StaleAnswerAfterReset` is such a run. `StaleHitIff` gives the
  exact condition for each reader an answer came from, and `HitIsCurrentIff` for the whole answer when no
  refresh is between its swaps and its reset.
- `mmdb_test.go:334-337` says the test compares seeking with decoding. The records it builds leave
  `seekOnly` unset (`mmdb_test.go:366`, `mmdb_test.go:375`), so it compares decoding with decoding.
- `rules.go:99` says `active` reports whether any rule would ever block a request. Inactive rules still
  block addresses without data unless `allowUnknown` is set (`Rules.InactiveAllowsFound`), as those of a
  configuration with every rule off do (`Rules.InactiveDeniesUnknown`).
- `cache.go:83` says `len` reports the live entries. It also counts expired ones
  (`Cache.ExpiredPutIsCounted`), and counts twice a key that is in both generations
  (`Cache.RepeatedPutCountsTwice`); `Cache.CountIsLiveIff` says exactly when the count is right.
- `provider.go:46-63` picks between seeking and decoding for their cost alone. They can differ in what they
  find, and then the number of configured headers decides a request (`StrategyFlips.ThresholdFlipsVerdict`).

## Model

| member | source | states |
|---|---|---|
| `Sources.WindowBacksIff` | decode.go:157-163 | a window over a source that answers as the file does is itself indistinguishable from the file if and only if its buffer is what one read at its base returns |
| `Sources.FileBacks` | decode.go:122-134 | an open file answers every read as memory does, whether or not a prefix is pinned |
| `Sources.FileSource.LoadHead` | decode.go:109-120 | pinning succeeds exactly for sizes inside the readable file, then pins that prefix and leaves every read unchanged; otherwise nothing changes |
| `Sources.FileSource.Close` | decode.go:138-141 | the pinned head is dropped and the handle is closed |
| `Sources.MemSource.Close` | decode.go:79-82 | the bytes are dropped |
| `Interchange.DecodingIgnoresSource` | decode.go:157-163 | decoding, seeking, skipping and targeted access through any source that answers as the file does equal those over the file in memory, at every offset, path and depth |
| `Bytes.SplitJoins` | provider.go:111 | the parts of a split path are the pieces between its dots: joined they give the path back, and none holds a dot |
| `Bytes.LexLeqIff` | fields.go:314-318 | keys are ordered by the first byte that differs, a prefix first |
| `DataSection.Decoder.DecodeValue` | decode.go:179-328 | computes the specification `Decode`, all types, errors and depths included |
| `DataSection.Decoder.DecodeMapLoop` | decode.go:289-308 | the map loop adds the entries in order, a later one replacing an earlier one with its key, and stops at the first error |
| `DataSection.Decoder.DecodeArrayLoop` | decode.go:310-321 | the array loop collects the items in order and stops at the first error |
| `DataSection.Decoder.DecodeMapEntry` | decode.go:293-304 | one key that must be a string, its value, and the offset of the next key |
| `DataSection.Decoder.ReadUintLoop` | decode.go:382-398 | the big-endian value of at most 8 bytes, below 256 to the power of the size, or an error |
| `DataSection.Decoder.SkipValue` | decode.go:476-536 | computes the specification `Skip`, which follows no pointer and reads no content |
| `DataSection.Decoder.SkipLoop` | decode.go:509-528 | the loops over the parts of a map or an array step over each part once |
| `DataSection.Decoder.SeekPath` | decode.go:411-473 | computes the specification `Seek` |
| `DataSection.Decoder.FindKeyLoop` | decode.go:453-472 | the loop finds the value of the first entry with the key, decoding keys and skipping values |
| `ByteForms.PointerLeadsToTarget` | decode.go:193-203 | from the bytes of a pointer, prefix bits and content: at every depth it decodes to what its target decodes to one level deeper, seeking in it seeks in its target, and skipping steps over it |
| `ByteForms.ContentDecodes` | decode.go:220-284 | from the bytes: a string, bytes, integer, float or double of each type number decodes to a value exactly when that is what its content stands for |
| `ByteForms.SizeDecodes` | decode.go:286-327 | from the bytes: a bool is whether its size is not zero, the two markers are nil, and type numbers past 15 are an error |
| `ByteForms.ContainerDecodes` | decode.go:289-321 | types 7 and 11 decode as many entries or items as their size says, one level deeper |
| `ByteForms.UnreadableContent` | decode.go:225-228 | a content that cannot be read is an error |
| `ByteForms.TooDeepFails` | decode.go:180-182 | past depth 64 decoding, seeking and skipping fail |
| `Grammar.DecodeIffDerives` | decode.go:179-328 | decoding succeeds with a value and next offset if and only if a derivation of that offset, at most 64 minus the depth high, denotes that value and ends there |
| `Grammar.DecodeComplete` | decode.go:179-328 | every derivation low enough for the depth is decoded |
| `Grammar.DecodeSound` | decode.go:179-328 | every success comes from a derivation low enough for the depth |
| `Grammar.Unambiguous` | decode.go:179-328 | an offset has at most one derivation |
| `Progress.DepthIsCutOff` | decode.go:179-182 | success at a depth is success with the same value and next offset at every smaller depth, and the value is at most 64 minus the depth high |
| `Progress.SkipAgreesWithDecode` | decode.go:476-536 | whenever decoding succeeds, skipping gives the same next offset, which lies after the start and inside the file |
| `Progress.BackedSkipAgrees` | decode.go:476-536 | so it is over memory, an open file and a window over either, with the file's length as the bound |
| `Progress.SkipComplete` | decode.go:476-536 | skipping a derivation low enough for the depth ends where the derivation ends |
| `Progress.DerivationAdvances` | decode.go:289-321 | each derived value takes at least one byte inside the file, and a container takes more bytes than it has parts |
| `Progress.CountBoundedByBytes` | decode.go:289-321 | the number of entries or items a decoded container declares is below the bytes its decoding consumed |
| `Cycles.CycleNeverDecodes` | decode.go:193-203 | an offset that reaches itself through any mix of pointers, keys, values and items is an error at every depth |
| `Cycles.PointerCycleNeverSeeks` | decode.go:427-433 | seeking into a cycle of pointers is an error at every depth |
| `SizesAndPointers.DecodeSizeReads` | decode.go:331-354 | the size decoder reads the four forms |
| `SizesAndPointers.SizesCovered` | decode.go:331-354 | every size from 0 to 16843036 has a form |
| `SizesAndPointers.SizesDistinct` | decode.go:331-354 | no size has two forms, and no form exceeds 16843036 |
| `SizesAndPointers.SizeGuardNeverFires` | decode.go:221-234 | no value's size exceeds the 32 MiB limit, so its guard is dead code |
| `SizesAndPointers.DecodePointerReads` | decode.go:358-380 | the pointer decoder reads the four forms relative to the base |
| `SizesAndPointers.ShortPointersCovered` | decode.go:366-376 | forms 1 to 3 reach every target from 0 to 134744063 |
| `SizesAndPointers.ShortPointersDistinct` | decode.go:366-376 | they reach each of those targets once and nothing beyond |
| `SizesAndPointers.LongPointers` | decode.go:376-378 | form 4 reaches every target below 2 to the 32 by exactly one content, whatever its prefix bits |
| `Seeking.ResolvePathLoop` | fields.go:197-214 | walks nested decoded maps; a missing key, a value that is not a map and a final nil all count as absent |
| `Seeking.SeekFinds` | decode.go:411-473 | seeking in a derivable value finds the start of the first-entry path through it, or nothing |
| `Seeking.ValueAtIsFirst` | mmdb.go:293-304 | seeking and decoding the target never fails in a record that decodes, and gives what the first-entry path denotes |
| `Seeking.SeekMeansResolve` | mmdb.go:291-304 | where first and last entries with the wanted keys agree on the path, targeted access answers what the decoded record holds there |
| `Seeking.SeekPreservesMeaning` | mmdb.go:291-304 | without repeated keys on the path, targeted access equals walking the decoded record; `resolvePath` differs only in reporting a nil as absent |
| `Seeking.SeekAgreesIff` | decode.go:463-470 | targeted access agrees with the decoded record on a path and its prefixes if and only if first and last entries with the wanted keys agree on the way |
| `Seeking.UniqueKeysAgree` | decode.go:463-470 | unique keys on the path are sufficient for that condition |
| `Seeking.RepeatedKeyDisagrees` | decode.go:305-306 | on `{a: false, a: true}` seeking finds the first value and decoding keeps the last |
| `Seeking.NilValueDisagrees` | fields.go:210-212 | a container marker under a key is found as nil by seeking and absent for `resolvePath` |
| `Seeking.UndecodableSibling` | decode.go:289-308 | an entry that does not decode makes decoding its map fail, while seeking answers every key among the entries before it |
| `Seeking.BrokenSiblingDisagrees` | decode.go:327 | on `{a: true, b: <type 16>}` decoding fails and seeking finds `a` |
| `FixtureWriter.WriteControl` | mmdb_fixture_test.go:254-279 | appends the type and size bytes, or refuses sizes from 65821 on |
| `FixtureWriter.MinimalBytesLoop` | mmdb_fixture_test.go:242-249 | the shortest big-endian form of a 64-bit number |
| `FixtureWriter.WriteUint` | mmdb_fixture_test.go:239-252 | appends an unsigned integer in its shortest form |
| `FixtureWriter.EncodeValue` | mmdb_fixture_test.go:168-237 | appends the encoding of a value, or stops exactly where the encoder's size limit does |
| `FixtureWriter.EncodeListLoop` | mmdb_fixture_test.go:216-220 | appends the items in order |
| `FixtureWriter.EncodeMapLoop` | mmdb_fixture_test.go:222-232 | appends the entries in the order of their sorted keys |
| `RoundTrip.ControlRoundTrip` | mmdb_fixture_test.go:254-279 | reading a written control gives back its type and size and the offset after it |
| `RoundTrip.EncodingDerives` | mmdb_fixture_test.go:168-237 | an encoding has a derivation wherever it stands |
| `RoundTrip.TreeDenotes` | mmdb_fixture_test.go:168-237 | that derivation denotes the value with its integers normalised, and is as high as the value is nested |
| `RoundTrip.DecodeInvertsEncode` | mmdb_fixture_test.go:168-279 | at any offset an encoded value decodes to its normalised form and the offset after its encoding, if and only if its nesting fits under the depth limit |
| `SearchTrees.NodeRoundTrip` | mmdb_fixture_test.go:142-162 | reading a written node gives back both records in all three layouts |
| `SearchTrees.NodeBytesRoundTrip` | mmdb.go:207-228 | writing the records read from a node gives back its bytes |
| `SearchTrees.UnpackedInRange` | mmdb.go:213-227 | every record read is below 2 to the record size |
| `SearchTrees.SearchTree.WalkLoop` | mmdb.go:335-350 | the loop over an address's bits computes the walk from the start node |
| `SearchTrees.SearchTree.FindIPv4Start` | mmdb.go:232-242 | the loop computes the walk of 96 zero bits from the root |
| `SearchTrees.WalkAppend` | mmdb.go:335-350 | walking two runs of bits is walking the first and going on from where it ends, also when it has left the tree |
| `SearchTrees.IPv4Shortcut` | mmdb.go:232-242 | walking 32 bits from the IPv4 start equals walking the 128 bits of the zero-extended address from the root |
| `SearchTrees.WalkNeverFails` | mmdb.go:335-350 | no walk of a tree that can be read meets a read error |
| `AddressNumbers.BitsSpell` | mmdb.go:335-350 | the bits an address is walked by, first bit most significant, spell its big-endian number |
| `AddressNumbers.PrefixIffNumbersAgree` | mmdb_fixture_test.go:123-139 | an address begins with the bits of a network exactly when both numbers agree after division by two for every remaining bit |
| `AddressNumbers.WalkByNumber` | mmdb.go:335-350 | a walk takes the right record of a node for a digit one of the address's number and the left one for a zero |
| `AddressNumbers.NodeByNumber` | mmdb.go:213-227 | the right record is the last bits of a node's bytes and the left record the bytes before, in all three layouts |
| `AddressNumbers.To4IsNumber` | mmdb.go:313-322 | an address is an IPv4 address exactly when it has 4 bytes, or 16 of which all above the low 32 bits are the number 65535, and then its number is those bits |
| `AddressNumbers.ContainsByNumber` | mmdb_fixture_test.go:97-121 | the inserted bits of a network begin the bits an address is looked up by exactly when the network's number and prefix length hold the address's number, in both families and both database versions |
| `TreeBuilder.InsertKeepsTree` | mmdb_fixture_test.go:123-139 | insertion keeps links pointing to later nodes and every node with at most one parent |
| `TreeBuilder.Builder.InsertNetwork` | mmdb_fixture_test.go:123-139 | the loop that appends to and changes the nodes computes the specification `Insert` and keeps the tree |
| `Tries.InsertIsTrieInsert` | mmdb_fixture_test.go:123-139 | insertion into the linked nodes is insertion into the binary trie they stand for, and changes nothing outside the subtree |
| `Tries.LookupAfterInsert` | mmdb_fixture_test.go:126-138 | addresses in the inserted network find it, addresses whose covering entry was split lose it, and all other lookups are unchanged |
| `Tries.InsertDepth` | mmdb_fixture_test.go:123-139 | the trie gets no deeper than it was or than the inserted network is long |
| `Networks.BuiltTree` | mmdb_fixture_test.go:43-46 | the nodes after inserting networks in order stand for the trie of those insertions |
| `Networks.BuiltDepth` | mmdb_fixture_test.go:123-139 | the trie is no deeper than the longest network |
| `Networks.LookupsEndOutside` | mmdb_fixture_test.go:123-139 | no lookup of an address at least as long as every network ends inside the tree, whether networks overlap or not |
| `Networks.LookupIsScan` | mmdb_fixture_test.go:43-46 | with disjoint networks every lookup equals a linear scan of them |
| `TreeFile.WriteTree` | mmdb_fixture_test.go:49-55 | the loop writes the nodes' resolved records one after another |
| `TreeFile.FileIsSerialised` | mmdb.go:207-228 | each node read from a file that starts with a written tree has the records that were written |
| `TreeFile.WalkIsFind` | mmdb.go:335-358 | walking a written tree along an address ends at the number that stands for the trie's answer |
| `Readers.FindLast` | mmdb.go:363-380 | the last occurrence of a needle, and none after it; -1 when there is none or the needle is empty |
| `Readers.LastFromIsLast` | mmdb.go:367-378 | the search from the right returns the last occurrence |
| `Readers.Db.LookupOffsetLoop` | mmdb.go:308-361 | computes the lookup of an address of either family in a database of either version, with its three outcomes and its errors |
| `Readers.OpenedWalksNeverFail` | mmdb.go:197-209 | no walk in an opened database held in memory meets a read error |
| `Readers.IPv4LookupIsZeroExtended` | mmdb.go:313-361 | in every opened IPv6 database an IPv4 lookup has the outcome of the zero-extended walk from the root |
| `Readers.RecordSourceBacks` | mmdb.go:261-279 | reading a record through an up-front window changes no answer |
| `Readers.FileModeEqualsMemoryMode` | mmdb.go:52-112 | a file opens from disk exactly when it opens in memory, and then both answer every lookup, record and path alike |
| `Readers.Reader.ReadMetadataFields` | mmdb.go:138-204 | finds the last marker near the end, decodes and checks the metadata, and sets the reader's derived fields, or reports the error |
| `Readers.Reader.Open` | mmdb.go:52-112 | reads the metadata, pins the tree in file mode and computes the IPv4 start, or reports the first error and releases the source |
| `Readers.Reader.Close` | mmdb.go:115-120 | no byte can be read afterwards |
| `BuiltDatabase.BuildMMDB` | mmdb_fixture_test.go:31-78 | writes tree, separator, data, marker and metadata, or stops exactly where the builder does |
| `BuiltDatabase.EncodeRecords` | mmdb_fixture_test.go:35-40 | the loop encodes the records one after another and remembers where each starts |
| `BuiltDatabase.BuildTree` | mmdb_fixture_test.go:97-121 | takes the address and prefix length of every network by its family and inserts them in order, or stops exactly when one cannot be inserted: an IPv6 one in an IPv4 database, or a mapped one with too long a prefix |
| `EndToEnd.MetadataFound` | mmdb.go:144-158 | the marker search finds the written metadata when the metadata does not contain the marker |
| `EndToEnd.MetadataReadBack` | mmdb.go:138-204 | opening reads back the metadata written at the end of any file that has room for its tree, whatever else the file holds |
| `EndToEnd.BuiltDatabaseAnswersAsScan` | mmdb_fixture_test.go:31-78 | a written file of disjoint networks opens in both modes and answers every address with the containing entry's value or not found, never with an error |
| `AddressNumbers.BuiltDatabaseAnswersByNumber` | mmdb_fixture_test.go:31-78 | a written file answers every address with the data of the first entry whose network holds its number, and with nothing when none does, in both modes |
| `MetadataForms.MetadataReadIff` | mmdb.go:138-204 | metadata is read exactly when the last marker, in the last 128 KiB, is followed by an accepted map whose tree and separator fit in the file |
| `MetadataForms.AcceptedIff` | mmdb.go:165-196 | a map is accepted exactly for record sizes 24, 28 and 32, a node count that is not zero, IP versions 4 and 6, and major version 2 |
| `MetadataForms.AcceptedMeans` | mmdb.go:165-196 | what each field of accepted metadata is taken from |
| `MetadataForms.AsUintCounts` | fields.go:385-401 | negative numbers and what is no number count as zero |
| `MetadataForms.StringsAreKept` | fields.go:415-430 | the strings of a list in order, without empty ones and what is no string |
| `PlainDatabases.PlainMetadata` | mmdb_fixture_test.go:62-75 | metadata with a database type below 29 bytes, in which neither the type nor the node count's bytes hold the marker's first byte, can be written and holds no marker |
| `PlainDatabases.PlainIsSound` | mmdb_fixture_test.go:31-78 | so disjoint networks, records that fit and nesting within the limit are all such a database needs for the end-to-end theorem |
| `PlainDatabases.HalfIsSound` | mmdb_fixture_test.go:31-78 | databases of one network of one bit meet the conditions of the theorem, whatever their data |
| `BuiltRecords.EncodedPathsUnique` | mmdb_fixture_test.go:222-232 | no map on any path through an encoded value repeats a key |
| `Readers.OpenedBacks` | mmdb.go:52-112 | the source of an opened database answers every read as the file it was opened from does |
| `BuiltRecords.BuiltRecordReadable` | mmdb_fixture_test.go:31-78 | every record of a sound written database, in memory or on disk, can be read at every path by both strategies alike |
| `BuiltRecords.WrittenStrategiesAgree` | provider.go:154 | over databases opened from written files, in any order and mode, every lookup gives the same answer by both strategies and no error |
| `Fields.Formatter.FormatValue` | fields.go:242-326 | renders every kind of value, choosing in a map the configured language, then "en", then "name", then the first sorted key that shows anything |
| `Renderings.TruthShows` | fields.go:251-283 | a bool of any kind, and a number or text of kind bool, shows the text for true exactly when it is true, not zero, or "true", "1" or "yes" |
| `Renderings.NumberShowsAsn` | fields.go:265-283 | a number of kind ASN shows "AS" and its digits, and zero nothing |
| `Renderings.TextShowsAsn` | fields.go:336-347 | a text of kind ASN shows "AS" and its digits, with or without the prefix |
| `Renderings.UnknownAsnShowsNothing` | fields.go:336-347 | the empty text, "0" and "AS0" show nothing |
| `Renderings.TextShowsTrimmed` | fields.go:247-260 | text of kind number loses a leading "AS", and other text is trimmed |
| `Renderings.NumberShowsDigits` | fields.go:265-283 | numbers of the other kinds show their digits |
| `Renderings.OthersShow` | fields.go:262-298 | bytes, floating point numbers and nil |
| `Renderings.ListShows` | fields.go:285-293 | a list shows exactly the items that show something, in order, with the separator between any two |
| `Fields.FirstKeyDecides` | fields.go:302-321 | among keys tried in order the first whose value shows anything decides, and nothing is shown only when none does |
| `Fields.PreferredKeyWins` | fields.go:300-311 | in a map the configured language wins when it shows anything, then "en", then "name" |
| `Fields.MapShowsNothingIff` | fields.go:300-322 | a map shows nothing if and only if none of its values shows anything |
| `Fields.FirstShownSame` | fields.go:219-228 | two records that answer every path the same up to a nil show the same first value |
| `Fields.ExtractSame` | fields.go:218-239 | and the same field, presence paths included |
| `Provider.MmdbRecord.Value` | provider.go:94-116 | the memoised answer to a path does not depend on what was asked before |
| `Provider.MmdbRecord.ExtractField` | fields.go:218-239 | the field's paths are tried in order, then its presence paths |
| `Provider.ExtractFieldsLoop` | provider.go:28-39 | each field gets the value of the first record that shows one |
| `Provider.CollectRecords` | provider.go:177-190 | the databases that have a record contribute one each, in order, and the first walk error is remembered |
| `Provider.LookupLoop` | provider.go:172-196 | computes the lookup over all databases with either strategy |
| `Priority.FirstDatabaseWins` | provider.go:28-39 | a selected field is in a lookup's answer with a value exactly when some database shows that value for the address and no database before it shows the field |
| `Priority.ExtractIff` | fields.go:218-239 | a record gives a field the text of the first of its paths that shows any, or the text for true when only a presence path shows something |
| `Priority.DottedPath` | provider.go:111 | a path of two parts with a dot between them gives what the map under the first part holds under the second, by both strategies |
| `Priority.FoundAndFailedIff` | provider.go:172-196 | an answer is found exactly when some database has a record, and its error is that of the first walk that fails |
| `Priority.OnlySelectedFields` | provider.go:28-39 | nothing but selected fields is in an answer |
| `Provider.StrategiesAgree` | provider.go:154 | for records that decode and in which repeated keys agree on the paths in use, both strategies give the same fields, result and error, for every field list and order of databases |
| `Provider.UniqueIsReadable` | provider.go:94-116 | records without repeated keys on the path are among them |
| `Cache.ResultCache.Get` | cache.go:39-54 | the current generation, else the previous one, unless expired |
| `Cache.ResultCache.Put` | cache.go:56-69 | a full current generation becomes the previous one before the entry is added |
| `Cache.ResultCache.Clear` | cache.go:73-81 | both generations are emptied |
| `Cache.ResultCache.Len` | cache.go:84-91 | the sizes of both generations added up, at most twice the limit |
| `Cache.CountIsLiveIff` | cache.go:83-91 | that count is the number of keys that would be hits if and only if no key is in both generations and none has expired; it is never less |
| `Cache.RepeatedPutCountsTwice` | cache.go:56-69 | with room for one entry, two puts of one key give a count of two and one live key |
| `Cache.ExpiredPutIsCounted` | cache.go:83-91 | an entry past its time to live is counted and no key is live |
| `Cache.NewResultCache` | cache.go:28-37 | there is a cache exactly when both limits are positive |
| `Cache.RunBounded` | cache.go:15-19 | after any history each generation holds at most `maxEntries` and a previous one exactly that many |
| `Cache.RunAgrees` | cache.go:39-69 | after any history each remembered entry is the latest put of its key since the last reset |
| `Cache.HitIsLatestPut` | cache.go:39-69 | every hit returns the latest put of its key since the last reset, no older than the time to live |
| `Cache.PutIsServed` | cache.go:39-69 | after any history and through any `maxEntries` later puts of other keys a put entry is served until it expires, and not afterwards |
| `Cache.SurvivesRoom` | cache.go:56-69 | an entry survives as many later puts, of any keys, as it has room for |
| `Cache.RetentionIsExact` | cache.go:56-69 | a put entry survives every run of `n` later puts if and only if `n` is at most twice `maxEntries` less the size of its generation, which is never less than `maxEntries` |
| `Cache.RetentionIsSharp` | cache.go:56-69 | some history and some run of `maxEntries + 1` later puts drop an entry |
| `Refresh.RunKeepsInv` | provider.go:172-280 | every run of interleaved lookups, refreshes, delayed closes and closes of the provider keeps the protocol's invariant |
| `Refresh.SwapSlotKeepsInv` | provider.go:257-262 | overwriting a slot retires its reader and keeps the invariant, also after a close |
| `Refresh.ResetCacheKeepsInv` | provider.go:265 | emptying the cache keeps the invariant |
| `Refresh.CloseRetiredKeepsInv` | provider.go:268-275 | closing a retired reader keeps the invariant |
| `Refresh.CloseProviderKeepsInv` | provider.go:202-210 | closing the provider keeps the invariant |
| `RefreshSafety.SlotsFollowPaths` | provider.go:202-280 | in every reachable state slot `i` holds a reader of path `i`, slots hold different readers, no reader was closed twice, and a reader in a slot was closed exactly if the provider was |
| `RefreshSafety.RetiredReadersAreOut` | provider.go:268-275 | a refresh closes only readers that are in no slot, each for the first time |
| `RefreshSafety.StepChangesSlots` | provider.go:257-262 | only a swap under the lock of an open provider changes the slots, never their number, and only a close closes a reader that stays in one |
| `RefreshSafety.LookupsReadInOrder` | provider.go:172-190 | a lookup reads readers of path 0, 1, 2 and so on, all of them or none, and can always read the next |
| `RefreshSafety.OnlyTheLockBlocks` | provider.go:172-280 | lookups and refreshes can always take their next step, except that beginning, swapping and closing wait for the lock |
| `RefreshSafety.EveryReaderAccountedFor` | provider.go:232-280 | once the refreshes are over, each reader ever opened is in its slot or was overwritten and closed once, except those a refresh opened before a close and could not swap in |
| `RefreshSafety.StaleHitIff` | plugin.go:365-379 | every cache hit, no older than the time to live, repeats a lookup of every slot in order; a reader it read is no longer in its slot if and only if it was overwritten after the lookup read it and its reset is still to come or came before the answer was stored |
| `RefreshSafety.HitIsCurrentIff` | cache.go:71-81 | with no refresh between its swaps and its reset, a hit comes from the readers in the slots if and only if its lookup read no reader that was later overwritten and reset for before the answer was stored |
| `RefreshSafety.HitsAreCurrent` | cache.go:71-81 | so with no lookup in flight across a refresh every hit comes from the readers in the slots |
| `FreshAnswers.HitIsAnswerOfSlots` | plugin.go:365-379 | while the provider is open, if each stored answer is what the databases of its lookup's readers answer, then with no refresh between swaps and reset and no lookup in flight across one every hit is what the databases now in the slots answer |
| `RefreshSafety.StaleAnswerAfterReset` | cache.go:71-72 | a run after which the cache serves an answer of a replaced reader although it was reset for it |
| `RefreshSafety.LeakedIff` | provider.go:257-262 | the reader a refresh has for a slot is out of every slot and never closed, in every later state in which the refreshes are over, if and only if the provider was closed at the swap |
| `RefreshSafety.FreshReaderLeaks` | provider.go:255-262 | a run in which a freshly opened reader is never closed because the provider was closed before the swap |
| `RefreshSafety.SwapOrderDoesNotMatter` | provider.go:257-262 | the map of replacements can be walked in any order: slots and retired readers come out the same |
| `Plugins.NewMmdbProvider` | provider.go:133-163 | opens every database in order, or releases all it opened and reports the first that does not open; the number of fields fixes the strategy |
| `Plugins.MmdbProvider.Lookup` | provider.go:172-196 | answers from the databases in the slots, and from none once closed |
| `Plugins.MmdbProvider.OpenChanged` | provider.go:238-249 | a new reader for exactly the files that changed and open |
| `Plugins.MmdbProvider.SwapIn` | provider.go:255-263 | overwrites in place exactly the replaced slots that are there, skips the others, and returns the old reader of each overwritten slot exactly once |
| `Plugins.MmdbProvider.RefreshChanged` | provider.go:232-280 | changed files that open take their databases' places, all others stay, the cache is emptied exactly if something changed, and the reader of each changed slot is returned exactly once to be closed |
| `RefreshRuns.RefreshAloneIsRefresh` | provider.go:232-280 | the protocol's steps taken without interruption leave the databases, the cache and the readers to close that this operation leaves |
| `Plugins.MmdbProvider.Close` | provider.go:202-210 | every reader is released and later lookups see no database |
| `Plugins.Plugin.Resolve` | plugin.go:365-379 | a hit is returned as it is; otherwise the lookup's answer is returned and remembered exactly if the lookup did not fail |
| `Rules.NewRuleSet` | rules.go:43-97 | compiles the lists and flags, or refuses a kind with both lists and a country code that is not two bytes long |
| `Rules.NormalSetLoop` | rules.go:221-250 | the set of the normalised, non-empty, comma separated parts |
| `Rules.RequiredFieldsLoop` | rules.go:123-146 | the fields of the lists, the threshold and the enabled flags with their exceptions |
| `Rules.VerdictReadsOnlyRequired` | rules.go:121-219 | the verdict, reason included, depends on nothing but the required fields |
| `Rules.AllowedIff` | rules.go:149-219 | a request is allowed if and only if every check passes, or, without data, if unknowns are allowed |
| `Rules.DenialIsJustified` | rules.go:149-219 | the reason of every denial holds of the request |
| `Rules.FirstFailureIsGiven` | rules.go:149-219 | the reason is that of the first failing check in the order country, continent, AS number, flags, threat score |
| `Policies.ConfigurationAllowsIff` | rules.go:43-219 | under the rules compiled from a configuration a request is allowed exactly when each list passes its field, no option that is on blocks it by the option's own field, and its score is not above the threshold; without data, when unknowns are allowed |
| `Policies.NormalSetIsNamed` | rules.go:221-250 | a compiled list holds exactly the normal forms, if not empty, of the comma separated parts |
| `Policies.NoOptionTrips` | rules.go:75-94 | each option blocks by its own field, and bots are spared by the good bot field unless those are blocked too |
| `Policies.ExceedsIsAbove` | rules.go:209-217 | a score counts without white space and a leading "AS", and only a number above the threshold blocks |
| `Policies.AsnForms` | rules.go:253-263 | AS numbers compare alike with and without their prefix, and empty or zero ones count as unknown |
| `Policies.RequiredIff` | rules.go:123-146 | exactly which fields the rules read |
| `Policies.ActiveIffReads` | rules.go:100-119 | rules are active exactly when they read some field |
| `Rules.InactiveAllowsFound` | rules.go:99-119 | inactive rules allow exactly the addresses with data, and the others if unknowns are allowed |
| `Rules.InactiveDeniesUnknown` | rules.go:149-155 | the configuration with every rule off is accepted and inactive, and denies every address without data |
| `Rules.TighteningNeverAllows` | rules.go:149-219 | longer block lists, shorter but non-empty allow lists, more flags, fewer exceptions, a lower threshold and refusing unknowns never let a denied request through |
| `Rules.TurningFlagsOnNeverAllows` | rules.go:75-94 | nor does turning on any blocking flag in the configuration, the good-bot one included |
| `Rules.EmptyingAdmits` | rules.go:149-219 | for each kind of list of every accepted configuration, emptying the allowed values lets some denied request through, whatever is blocked instead |
| `Rules.ShrinkingTightensIff` | rules.go:149-219 | for each kind, shortening the allowed and lengthening the blocked values denies every request denied before if and only if it does not empty a list of allowed values |
| `Rules.EmptyingAllowedLoosens` | rules.go:43-97 | two accepted configurations that differ in deleting the only allowed country, and a request that only the second lets through |
| `Selection.CatalogLoop` | fields.go:154-160 | files the definitions by name, a later one replacing an earlier one |
| `Selection.CatalogNames` | fields.go:154-160 | each definition in the catalog is filed under its own name |
| `Selection.LastDefinitionCounts` | fields.go:154-160 | the last definition of a name is the one in the catalog |
| `Selection.WantedIff` | plugin.go:553-562 | a field is needed exactly when a header shows it, unless it is the address, or the rules read it |
| `Selection.SelectFieldsLoop` | plugin.go:549-577 | computes the sorted selection, or reports an unknown field |
| `Selection.SelectionIsExact` | plugin.go:549-577 | every field a header or a rule needs is selected once and nothing else is; it fails exactly when one is unknown |
| `Selection.LookupShows` | provider.go:28-39 | a selected field holds what its own definition shows by the strategy in use, whatever else is selected |
| `Selection.VerdictIsByStrategy` | provider.go:154 | for every header map and all records the verdict is what the strategy it picks shows for the fields the rules read |
| `Selection.VerdictIgnoresHeadersIff` | plugin.go:547-577 | the verdict, reason included, is the same under two header maps if and only if they pick one strategy or both strategies give one verdict on the records |
| `Selection.ReadAlikeSameVerdict` | provider.go:94-116 | they do when the records decode and their repeated keys agree on the paths of the fields that the rules read |
| `Selection.VerdictIgnoresHeaders` | plugin.go:547-577 | so under one strategy, or for records read alike where the rules look, the verdict is the same |
| `Selection.ServingIs` | plugin.go:318-362 | a request bypasses the rules exactly if its address is in `allowedIPs`, or is private, not in `blockedIPs` and let through; one in `blockedIPs` only is denied; failing open decides without an address and for a failed lookup without fields; all others are let in exactly if the rules allow them |
| `FlaggedRequests.DecodedFlagIsOn` | rules.go:199-207 | a selected flag is on for the rules exactly when the bool decoded for it, in the first database that shows it, is true |
| `FlaggedRequests.TorIsDenied` | rules.go:82-94 | with Tor blocked, a request whose record decodes `is_tor` as true is denied |
| `Selection.ServingIgnoresHeadersIff` | plugin.go:318-362 | where the verdict is the same under two header maps, what is done with a request is the same if and only if its address alone decides, or no database fails, or both answers or neither have fields, or failing open gives the verdict |
| `Selection.StrategyDecidesServingIff` | plugin.go:318-362 | when no database fails, it is the same if and only if its address alone decides, or both header maps pick one strategy, or both strategies allow the request or neither does |
| `Selection.ServingIgnoresHeaders` | plugin.go:318-362 | so when no database fails it is the same under one strategy and for records read alike where the rules look |
| `Selection.NoFieldsIff` | plugin.go:349-352 | an answer has no fields if and only if no record shows any selected field by the strategy in use |
| `WrittenRequests.WrittenServingIgnoresHeaders` | plugin.go:318-362 | over databases opened from written files the verdict and what is done with a request are the same under any two header maps |
| `PartialFailures.FailuresMakeHeadersMatter` | plugin.go:347-353 | two opened databases, one of them corrupt, a compiled configuration and a request that passes without headers and is denied with a header for a field that the rules do not read |
| `PartialFailures.CorruptLookup` | mmdb.go:352-360 | in a database whose only node leads back to itself every lookup ends inside the tree |
| `StrategyFlips.FewFieldsAdmit` | provider.go:154 | a request whose record shows the only allowed country to seeking and does not decode is let in if and only if at most eight fields are selected, for every header map |
| `StrategyFlips.ThresholdFlipsVerdict` | plugin.go:318-362 | an opened database in which no lookup fails, a compiled configuration and two header maps, of which the empty one lets a request in and the other has it denied |
| `ClientIp.InNetsLoop` | clientip.go:154-164 | an address is in the networks if one of them contains it; no address is in none |
| `ClientIp.Resolver.ForwardedValuesLoop` | clientip.go:77-92 | the trimmed, non-empty, comma separated entries of all occurrences of the header, in order |
| `ClientIp.Resolver.ClientIp` | clientip.go:24-75 | computes the choice among peer, entry at a depth, rightmost untrusted and leftmost parsable entry |
| `ClientIp.Resolver.ChoiceIs` | clientip.go:24-75 | without belief in the header the peer; with a depth the entry that many from the right, with proxies the rightmost entry outside them, otherwise the leftmost that is an address; the peer where there is none |
| `ClientIp.Resolver.EntriesAreKept` | clientip.go:77-92 | the entries are the trimmed parts of all lines that are not empty, in order |
| `ClientIp.Resolver.RightmostMeans` | clientip.go:54-65 | the walk from the right stops at an address outside the proxies with only trusted or unparsable entries to its right, and finds none exactly if there is none |
| `ClientIp.Resolver.RightmostIsStable` | clientip.go:52-65 | that address is chosen, and nothing prepended, as header lines or within the first line, changes the choice |
| `ClientIp.Resolver.RightmostStableIff` | clientip.go:52-65 | the choice resists every forged prefix if and only if the honest values hold an address outside the proxies |
| `ClientIp.Resolver.DepthIsStable` | clientip.go:42-50 | with a depth nothing prepended changes the choice once there are that many honest values |
| `ClientIp.Resolver.ShallowHeadersAreForgeable` | clientip.go:42-50 | with fewer, the honest choice is the peer and a forged prefix can make it any parsable address |
| `ClientIp.Resolver.LeftmostIsForgeable` | clientip.go:67-74 | without proxies or a depth a prepended address always wins |
| `ClientIp.Resolver.UntrustedPeerIsItself` | clientip.go:27-32 | the header of a peer that is not believed has no effect |

## Left out

- DataSection.Decoder.DecodeValue: offsets are unbounded integers; overflow of 64-bit offsets is not modelled, because every offset is below the file size plus 2^33.
- DataSection.Decoder.FindKeyLoop: the original seeks on from inside the loop; here the loop returns the offset found and the caller seeks on.
- Fields.Formatter.FormatValue: trimming white space and printing integers and floating point numbers are given functions, and floating point values are kept as their bits.
- Readers.Reader.ReadMetadataFields: converting a floating point number to an integer is a given function.
- Readers.Reader.Open: the file is an unchanging byte string; checking that the path is a readable file is left out.
- TreeBuilder.Builder.InsertNetwork: no longest-prefix matching is claimed for overlapping networks, because a more specific network discards the one that covered it; `Tries.LookupAfterInsert` states what happens instead.
- BuiltDatabase.BuildMMDB: the wrap-around of 32-bit offsets and node counts is excluded by the requirement on the number of nodes and, in `EndToEnd.Sound`, by records that fit; parsing the text of a network is left out. `EndToEnd.Sound` also excludes networks of length zero, which the builder does not insert.
- Refresh.RunKeepsInv: what a lookup finds in the readers it read, and whether it fails, is arbitrary, which includes readers that were closed under it; whether a file changed and opens is arbitrary too, and the five seconds before a close may be any time.
- Plugins.Plugin.Resolve: the text form of the address is given as the key.
- Plugins.MmdbProvider.RefreshChanged: runs from start to end; lookups and closes in between are the steps of the state machine in `Refresh`.
- Rules.TighteningNeverAllows: scores are compared with the threshold as exact numbers; rounding of thresholds above 2^53 is not modelled. Upper and lower case, trimming and parsing of numbers are given functions.
- Rules.ShrinkingTightensIff: as for `Rules.EmptyingAdmits`, of the given functions it is required that trimming and changing case leave strings of the digit one alone, the empty string among them.
- Renderings.NumberShowsAsn: printing an integer is a given function, of which it is required that it prints digits, and "0" only for zero.
- FlaggedRequests.DecodedFlagIsOn: stated for the texts "true" and "false", which trimming and lower case leave alone.
- Rules.NewRuleSet: the message of an error is reduced to one family, and the reason text of a verdict to its kind and values.
- ClientIp.Resolver.ClientIp: parsing an address and membership in a network are given functions, and so is the peer's address.
- Selection.ServingIgnoresHeaders: whether an address is private is given; redirects, block responses, dry run, logging and the headers themselves are left out.
- Error messages are reduced to the families in `Bytes.Failure`.
- The claim that every opened reader is eventually closed is false (`RefreshSafety.FreshReaderLeaks`); `RefreshSafety.EveryReaderAccountedFor` says which are.
- The API provider, its JSON parsing and its redaction: a client over libraries that are not part of this model.
- Building header names and header maps, the contents of the field catalog, durations and defaults of the configuration: no result here depends on them.
- In-place overwriting of an open database file, modification times and the watcher's timer.
