/** The written file opens, and every lookup in it answers what scanning the entries would. */
module EndToEnd {
  import opened Bytes
  import opened Sources
  import opened DataSection
  import opened FixtureEncoder
  import opened SearchTrees
  import opened Networks
  import opened TreeFile
  import opened Readers
  import opened BuiltDatabase
  import RoundTrip

  // -------------------------------------------------------------------------
  // Content held in memory
  // -------------------------------------------------------------------------

  lemma MemoryHolds(file: bytes, base: int, off: nat, bs: bytes)
    requires off + |bs| <= |file| && file[off..off + |bs|] == bs
    ensures RoundTrip.Holds(Decoder(Memory(file).Reads(), base), off, bs)
  {
    var d := Decoder(Memory(file).Reads(), base);
    forall i, n | RoundTrip.Within(bs, i, n)
      ensures d.at(off + i, n) == Ok(bs[i..i + n])
    {
      SliceOfSlice(file, off, off + |bs|, i, i + n);
    }
  }

  lemma Slices(a: bytes, b: bytes, c: bytes)
    ensures (a + b + c)[|a|..|a| + |b|] == b
    ensures (a + b + c)[|a| + |b|..] == c
    ensures a <= a + b + c
  {
  }

  // -------------------------------------------------------------------------
  // The metadata block is found
  // -------------------------------------------------------------------------

  /** The marker's first byte does not occur again in it. */
  lemma MarkerStart(k: nat)
    requires 0 < k < |METADATA_MARKER|
    ensures METADATA_MARKER[k] != METADATA_MARKER[0]
  {
  }

  lemma NoLaterMarker(front: bytes, meta: bytes, j: nat)
    requires forall i :: !OccursAt(meta, METADATA_MARKER, i)
    requires |front| < j
    ensures !OccursAt(front + METADATA_MARKER + meta, METADATA_MARKER, j)
  {
    var whole := front + METADATA_MARKER + meta;
    var n := |METADATA_MARKER|;
    if OccursAt(whole, METADATA_MARKER, j) {
      if j < |front| + n {
        MarkerStart(j - |front|);
        assert false;
      } else {
        var i := j - |front| - n;
        assert whole[j..j + n] == meta[i..i + n];
        assert OccursAt(meta, METADATA_MARKER, i);
        assert false;
      }
    }
  }

  lemma MarkerIsLast(front: bytes, meta: bytes)
    requires forall i :: !OccursAt(meta, METADATA_MARKER, i)
    ensures LastIndexOf(front + METADATA_MARKER + meta, METADATA_MARKER) == |front|
  {
    hide OccursAt, LastFrom;
    var whole := front + METADATA_MARKER + meta;
    var top := |whole| - |METADATA_MARKER|;
    Slices(front, METADATA_MARKER, meta);
    assert OccursAt(whole, METADATA_MARKER, |front|) by {
      OccursAtMiddle(front, METADATA_MARKER, meta);
    }
    LastFromIsLast(whole, METADATA_MARKER, top);
    var r := LastFrom(whole, METADATA_MARKER, top);
    if r > |front| {
      NoLaterMarker(front, meta, r);
    }
  }

  lemma OccursAtMiddle(front: bytes, needle: bytes, rest: bytes)
    ensures OccursAt(front + needle + rest, needle, |front|)
  {
  }

  lemma MetadataFound(front: bytes, meta: bytes)
    requires forall i :: !OccursAt(meta, METADATA_MARKER, i)
    requires |METADATA_MARKER| + |meta| <= METADATA_MAX_SIZE
    ensures MetadataStart(Memory(front + METADATA_MARKER + meta)) == Ok(|front| + |METADATA_MARKER|)
  {
    hide LastIndexOf, OccursAt;
    var file := front + METADATA_MARKER + meta;
    var window := if |file| < METADATA_MAX_SIZE then |file| else METADATA_MAX_SIZE;
    var start := |file| - window;
    var tail := front[start..];
    assert file[start..start + window] == tail + METADATA_MARKER + meta;
    MarkerIsLast(tail, meta);
  }

  // -------------------------------------------------------------------------
  // The metadata block is read back
  // -------------------------------------------------------------------------

  lemma KeysDiffer()
    ensures NODE_COUNT != IP_VERSION && RECORD_SIZE != BUILD_EPOCH && RECORD_SIZE != DESCRIPTION
    ensures BUILD_EPOCH != DESCRIPTION && MAJOR_VERSION != MINOR_VERSION
    ensures |NODE_COUNT| == |IP_VERSION| == 10 && |RECORD_SIZE| == |BUILD_EPOCH| == |DESCRIPTION| == 11
    ensures |DATABASE_TYPE| == 13 && |LANGUAGES| == 9 && |MAJOR_VERSION| == |MINOR_VERSION| == 27 && |EN| == 2
  {
    assert NODE_COUNT[0] == 110 && IP_VERSION[0] == 105;
    assert RECORD_SIZE[0] == 114 && BUILD_EPOCH[0] == 98 && DESCRIPTION[0] == 100;
    assert MAJOR_VERSION[15] == 97 && MINOR_VERSION[15] == 105;
  }

  function MetadataKeys(): set<bytes>
  {
    {NODE_COUNT, RECORD_SIZE, IP_VERSION, DATABASE_TYPE, LANGUAGES, MAJOR_VERSION, MINOR_VERSION, BUILD_EPOCH,
     DESCRIPTION}
  }

  /** The entries of the metadata block. */
  lemma MetadataEntries(r: Recipe, nodeCount: nat)
    ensures var m := MetadataFixture(r, nodeCount).m;
            && NODE_COUNT in m && m[NODE_COUNT] == FUint32(nodeCount)
            && RECORD_SIZE in m && m[RECORD_SIZE] == FUint16(r.recordSize)
            && IP_VERSION in m && m[IP_VERSION] == FUint16(r.ipVersion)
            && DATABASE_TYPE in m && m[DATABASE_TYPE] == FString(r.databaseType)
            && MAJOR_VERSION in m && m[MAJOR_VERSION] == FUint16(2)
            && MINOR_VERSION in m && m[MINOR_VERSION] == FUint16(0)
            && BUILD_EPOCH in m && m[BUILD_EPOCH] == FUint64(1750000000)
  {
    KeysDiffer();
    hide Ascii;
  }

  lemma MetadataTexts(r: Recipe, nodeCount: nat)
    ensures var m := MetadataFixture(r, nodeCount).m;
            && LANGUAGES in m && m[LANGUAGES] == LANGUAGE_LIST && DESCRIPTION in m && m[DESCRIPTION] == DESCRIPTIONS
  {
    KeysDiffer();
    hide Ascii;
  }

  lemma MetadataKeysAre(r: Recipe, nodeCount: nat)
    ensures MetadataFixture(r, nodeCount).m.Keys == MetadataKeys()
  {
    hide Ascii;
  }

  lemma AtMostNine(a: bytes, b: bytes, c: bytes, d: bytes, e: bytes, f: bytes, g: bytes, h: bytes, i: bytes)
    ensures |{a, b, c, d, e, f, g, h, i}| <= 9
  {
  }

  lemma MetadataDomain(r: Recipe, nodeCount: nat)
    ensures var m := MetadataFixture(r, nodeCount).m;
            && m.Keys == MetadataKeys() && |m| <= 9
            && m[LANGUAGES] == LANGUAGE_LIST && m[DESCRIPTION] == DESCRIPTIONS
  {
    hide Ascii, MetadataFixture;
    MetadataKeysAre(r, nodeCount);
    MetadataTexts(r, nodeCount);
    AtMostNine(NODE_COUNT, RECORD_SIZE, IP_VERSION, DATABASE_TYPE, LANGUAGES, MAJOR_VERSION, MINOR_VERSION,
               BUILD_EPOCH, DESCRIPTION);
    var m := MetadataFixture(r, nodeCount).m;
    assert |m| == |m.Keys|;
  }

  lemma NormalisedEntry(v: Fixture, key: bytes)
    requires v.FMap? && key in v.m
    ensures Normalised(v).Map? && At(Normalised(v).m, key) == Normalised(v.m[key])
  {
  }

  /** The metadata that opening reads back. */
  function MetadataOf(r: Recipe, nodeCount: nat): Metadata
  {
    Metadata(r.databaseType, Some(map[EN := TEST_FIXTURE]), Some([EN]), 1750000000, r.ipVersion, nodeCount,
             r.recordSize, 2, 0)
  }

  lemma NormalisedTexts()
    ensures AsStringSlice(Normalised(LANGUAGE_LIST)) == Some([EN])
    ensures AsStringMap(Normalised(DESCRIPTIONS)) == Some(map[EN := TEST_FIXTURE])
  {
    hide Ascii;
    var items := [Str(EN)];
    EnIsNotEmpty();
    assert Normalised(LANGUAGE_LIST) == List(items);
    assert items[1..] == [] && Strings(items) == [EN];
    assert AsStringMap(Normalised(DESCRIPTIONS)).value == map[EN := TEST_FIXTURE];
  }

  lemma EnIsNotEmpty()
    ensures EN != []
  {
    assert |EN| == 2;
  }

  lemma ParsedFrom(m: map<bytes, Value>, r: Recipe, nodeCount: nat, floatToUint: Value -> nat)
    requires IsRecordSize(r.recordSize) && (r.ipVersion == 4 || r.ipVersion == 6)
    requires 0 < nodeCount < 0x1_0000_0000
    requires At(m, NODE_COUNT) == Uint(nodeCount) && At(m, RECORD_SIZE) == Uint(r.recordSize) &&
             At(m, IP_VERSION) == Uint(r.ipVersion)
    requires AsStringMap(At(m, DESCRIPTION)) == Some(map[EN := TEST_FIXTURE]) &&
             AsStringSlice(At(m, LANGUAGES)) == Some([EN])
    requires At(m, DATABASE_TYPE) == Str(r.databaseType) && At(m, BUILD_EPOCH) == Uint(1750000000)
    requires At(m, MAJOR_VERSION) == Uint(2) && At(m, MINOR_VERSION) == Uint(0)
    ensures ParseMetadata(m, floatToUint) == Ok(MetadataOf(r, nodeCount))
  {
    hide At, Ascii, AsStringMap, AsStringSlice;
  }

  lemma MetadataParsed(r: Recipe, nodeCount: nat, floatToUint: Value -> nat)
    requires IsRecordSize(r.recordSize) && (r.ipVersion == 4 || r.ipVersion == 6)
    requires 0 < nodeCount < 0x1_0000_0000
    ensures var v := Normalised(MetadataFixture(r, nodeCount));
            v.Map? && ParseMetadata(v.m, floatToUint) ==
              Ok(MetadataOf(r, nodeCount))
  {
    hide At, Ascii, ParseMetadata, MetadataFixture, AsStringMap, AsStringSlice;
    var f := MetadataFixture(r, nodeCount);
    MetadataEntries(r, nodeCount);
    MetadataTexts(r, nodeCount);
    NormalisedTexts();
    NormalisedEntry(f, LANGUAGES);
    NormalisedEntry(f, DESCRIPTION);
    NormalisedEntry(f, NODE_COUNT);
    NormalisedEntry(f, RECORD_SIZE);
    NormalisedEntry(f, IP_VERSION);
    NormalisedEntry(f, DATABASE_TYPE);
    NormalisedEntry(f, MAJOR_VERSION);
    NormalisedEntry(f, MINOR_VERSION);
    NormalisedEntry(f, BUILD_EPOCH);
    ParsedFrom(Normalised(f).m, r, nodeCount, floatToUint);
  }

  // -------------------------------------------------------------------------
  // The metadata block is small and shallow
  // -------------------------------------------------------------------------

  lemma ControlLength(kind: nat, size: nat)
    requires 0 < kind < 16 && Control(kind, size).Some?
    ensures |Control(kind, size).value| <= 4
    ensures size < 29 ==> |Control(kind, size).value| <= 2
  {
  }

  lemma UintLength(kind: nat, v: nat)
    requires 0 < kind < 16 && v < TWO_64
    ensures EncodeUint(kind, v).Some? && |EncodeUint(kind, v).value| <= 10
  {
    Pow256Values();
    MinimalBytesLength(v, 8);
    ControlLength(kind, |MinimalBytes(v)|);
  }

  lemma ShortStringLength(s: bytes)
    requires |s| < 29
    ensures EncodeKey(s).Some? && |EncodeKey(s).value| <= 2 + |s|
    ensures Encode(FString(s)) == EncodeKey(s)
  {
    ControlLength(TYPE_STRING, |s|);
  }

  lemma LanguagesLength()
    ensures Encode(LANGUAGE_LIST).Some? && |Encode(LANGUAGE_LIST).value| <= 8
    ensures Nesting(LANGUAGE_LIST) == 1
  {
    var items := [FString(EN)];
    KeysDiffer();
    ShortStringLength(EN);
    ControlLength(TYPE_ARRAY, 1);
    assert items[1..] == [] && items[0] == FString(EN);
    assert EncodeItems(items) == Some(Encode(FString(EN)).value + []);
    assert ItemsNesting(items) == Max(1 + Nesting(FString(EN)), ItemsNesting(items[1..]));
  }

  lemma SortedSingleton(k: bytes)
    ensures Sorted({k}) == [k]
  {
    SortedMembers({k});
    assert Sorted({k})[0] in Sorted({k});
  }

  lemma DescriptionsLength()
    ensures Encode(DESCRIPTIONS).Some? && |Encode(DESCRIPTIONS).value| <= 30
    ensures Nesting(DESCRIPTIONS) == 1
  {
    hide Sorted;
    var text := FString(TEST_FIXTURE);
    KeysDiffer();
    ShortStringLength(EN);
    ShortStringLength(text.s);
    ControlLength(TYPE_MAP, 1);
    assert DESCRIPTIONS.m.Keys == {EN} && |DESCRIPTIONS.m| == 1;
    SortedSingleton(EN);
    assert [EN][1..] == [];
    assert EncodePairs(DESCRIPTIONS, [EN]) == Some(EncodeKey(EN).value + Encode(text).value + []);
    assert PairsNesting(DESCRIPTIONS, [EN]) == Max(1 + Nesting(text), PairsNesting(DESCRIPTIONS, [EN][1..]));
  }

  /** The fields other than the database type take little room. */
  predicate SmallValue(v: Fixture)
  {
    || ((v.FUint16? || v.FUint32? || v.FUint64?) && v.n < TWO_64)
    || v == LANGUAGE_LIST
    || v == DESCRIPTIONS
  }

  lemma SmallValueLength(v: Fixture)
    requires SmallValue(v)
    ensures Encode(v).Some? && |Encode(v).value| <= 30 && Nesting(v) <= 1
  {
    LanguagesLength();
    DescriptionsLength();
    if v.FUint16? {
      UintLength(TYPE_UINT16, v.n);
    } else if v.FUint32? {
      UintLength(TYPE_UINT32, v.n);
    } else if v.FUint64? {
      UintLength(TYPE_UINT64, v.n);
    }
  }

  lemma {:induction false} PairsBounds(v: Fixture, keys: seq<bytes>, big: bytes, room: nat)
    requires v.FMap? && EncodePairs(v, keys).Some?
    requires forall k :: k in keys ==> k in v.m && Encode(v.m[k]).Some? && EncodeKey(k).Some? && Nesting(v.m[k]) <= 1
    requires forall k :: k in keys && k != big ==> |EncodeKey(k).value| + |Encode(v.m[k]).value| <= 64
    requires big in keys ==> |EncodeKey(big).value| + |Encode(v.m[big]).value| <= room
    requires forall i, j :: 0 <= i < j < |keys| ==> keys[i] != keys[j]
    ensures |EncodePairs(v, keys).value| <= 64 * |keys| + if big in keys then room else 0
    ensures PairsNesting(v, keys) <= 2
    decreases |keys|
  {
    hide Encode, EncodeKey, Nesting;
    if keys != [] {
      var rest := keys[1..];
      assert forall i :: 0 <= i < |rest| ==> rest[i] == keys[i + 1];
      PairsBounds(v, rest, big, room);
      assert keys[0] !in rest;
    }
  }

  lemma ConstantsWellTyped()
    ensures WellTyped(LANGUAGE_LIST) && WellTyped(DESCRIPTIONS)
  {
  }

  lemma MetadataValue(r: Recipe, nodeCount: nat, k: bytes)
    requires IsRecordSize(r.recordSize) && (r.ipVersion == 4 || r.ipVersion == 6) && nodeCount < TWO_32
    requires k in MetadataFixture(r, nodeCount).m
    ensures var v := MetadataFixture(r, nodeCount).m[k];
            && |k| <= 27 && WellTyped(v)
            && if k == DATABASE_TYPE then v == FString(r.databaseType) else SmallValue(v)
  {
    hide Ascii, Nesting, MetadataFixture;
    KeysDiffer();
    MetadataEntries(r, nodeCount);
    MetadataDomain(r, nodeCount);
    ConstantsWellTyped();
  }

  lemma {:induction false} PairsEncode(v: Fixture, keys: seq<bytes>, k: bytes)
    requires v.FMap? && EncodePairs(v, keys).Some? && k in keys
    ensures k in v.m && EncodeKey(k).Some? && Encode(v.m[k]).Some?
    decreases |keys|
  {
    if k != keys[0] {
      PairsEncode(v, keys[1..], k);
    }
  }

  lemma MetadataWellTyped(r: Recipe, nodeCount: nat)
    requires IsRecordSize(r.recordSize) && (r.ipVersion == 4 || r.ipVersion == 6) && nodeCount < TWO_32
    ensures WellTyped(MetadataFixture(r, nodeCount))
  {
    forall k | k in MetadataFixture(r, nodeCount).m
      ensures WellTyped(MetadataFixture(r, nodeCount).m[k])
    {
      MetadataValue(r, nodeCount, k);
    }
    hide Ascii;
  }

  lemma MapEncoding(v: Fixture)
    requires v.FMap? && Encode(v).Some?
    ensures EncodePairs(v, Sorted(v.m.Keys)).Some?
    ensures |Encode(v).value| <= 4 + |EncodePairs(v, Sorted(v.m.Keys)).value|
    ensures Nesting(v) == PairsNesting(v, Sorted(v.m.Keys))
  {
    hide Control, EncodePairs, Sorted, PairsNesting;
    ControlLength(TYPE_MAP, |v.m|);
  }

  lemma MetadataBounds(r: Recipe, nodeCount: nat)
    requires IsRecordSize(r.recordSize) && (r.ipVersion == 4 || r.ipVersion == 6) && nodeCount < TWO_32
    requires Encode(MetadataFixture(r, nodeCount)).Some?
    ensures |METADATA_MARKER| + |Encode(MetadataFixture(r, nodeCount)).value| <= METADATA_MAX_SIZE
    ensures Nesting(MetadataFixture(r, nodeCount)) <= 2
  {
    hide MetadataFixture, Sorted, Control, SmallValue, EncodePairs, PairsNesting, Encode, EncodeKey, Nesting, Ascii;
    var v := MetadataFixture(r, nodeCount);
    var keys := Sorted(v.m.Keys);
    MetadataDomain(r, nodeCount);
    MapEncoding(v);
    SortedMembers(v.m.Keys);
    forall k | k in keys
      ensures Encode(v.m[k]).Some? && EncodeKey(k).Some? && Nesting(v.m[k]) <= 1
      ensures |EncodeKey(k).value| + |Encode(v.m[k]).value| <= if k == DATABASE_TYPE then 65900 else 64
    {
      PairsEncode(v, keys, k);
      MetadataValue(r, nodeCount, k);
      PairLength(k, v.m[k], r.databaseType);
    }
    forall i, j | 0 <= i < j < |keys|
      ensures keys[i] != keys[j]
    {
      SortedOrder(v.m.Keys, i, j);
    }
    PairsBounds(v, keys, DATABASE_TYPE, 65900);
  }

  lemma PairLength(k: bytes, v: Fixture, databaseType: bytes)
    requires |k| <= 27 && EncodeKey(k).Some? && Encode(v).Some?
    requires if k == DATABASE_TYPE then v == FString(databaseType) else SmallValue(v)
    ensures Nesting(v) <= 1
    ensures |EncodeKey(k).value| + |Encode(v).value| <= if k == DATABASE_TYPE then 65900 else 64
  {
    hide Ascii;
    ShortStringLength(k);
    if k == DATABASE_TYPE {
      ControlLength(TYPE_STRING, |databaseType|);
    } else {
      SmallValueLength(v);
    }
  }

  // -------------------------------------------------------------------------
  // Where each record lies
  // -------------------------------------------------------------------------

  lemma {:induction false} ItemAt(items: seq<Fixture>, i: nat)
    requires EncodeItems(items).Some? && i < |items|
    ensures Encode(items[i]).Some? && EncodeItems(items[..i]).Some?
    ensures var o, e, all := |EncodeItems(items[..i]).value|, Encode(items[i]).value, EncodeItems(items).value;
            o + |e| <= |all| && all[o..o + |e|] == e
    decreases i
  {
    hide Encode;
    var first, rest := Encode(items[0]).value, EncodeItems(items[1..]).value;
    assert EncodeItems(items).value == first + rest;
    if i == 0 {
      assert items[..0] == [];
      assert (first + rest)[0..|first|] == first;
    } else {
      ItemAt(items[1..], i - 1);
      assert items[..i][0] == items[0] && items[..i][1..] == items[1..][..i - 1];
      var o, e := |EncodeItems(items[1..][..i - 1]).value|, Encode(items[i]).value;
      assert (first + rest)[|first| + o..|first| + o + |e|] == rest[o..o + |e|];
    }
  }

  // -------------------------------------------------------------------------
  // Main result
  // -------------------------------------------------------------------------

  /** What a caller of the builder has to provide for the file to mean what its entries say. */
  ghost predicate Sound(r: Recipe)
    requires r.Valid()
  {
    && r.Buildable() && Build(r).Some?
    && Disjoint(r.Networks())
    && Fits(r.Nodes(), r.recordSize)
    && (forall i :: 0 <= i < |r.entries| ==> Nesting(r.entries[i].data) <= MAX_DEPTH)
    && forall i :: !OccursAt(Encode(MetadataFixture(r, |r.Nodes()|)).value, METADATA_MARKER, i)
  }

  /** The written file. */
  ghost function FileOf(r: Recipe): bytes
    requires r.Valid() && Sound(r)
  {
    Build(r).value
  }

  ghost function CountOf(r: Recipe): nat
    requires r.Valid() && Sound(r)
  {
    |r.Nodes()|
  }

  lemma SoundParts(r: Recipe)
    requires r.Valid() && Sound(r)
    ensures r.Buildable() && FileOf(r) == Build(r).value && CountOf(r) == |r.Nodes()|
  {
  }

  ghost function DataBytes(r: Recipe): bytes
    requires r.Valid() && Sound(r)
  {
    EncodeItems(r.Records()).value
  }

  lemma FileLayout(r: Recipe)
    requires r.Valid() && Sound(r)
    ensures var file, tree := FileOf(r), TreeBytes(r.Nodes(), r.recordSize, CountOf(r));
            var meta, base := Encode(MetadataFixture(r, CountOf(r))).value, |tree| + 16;
            && tree <= file
            && base + |DataBytes(r)| <= |file| && file[base..base + |DataBytes(r)|] == DataBytes(r)
            && file == (tree + ZeroBytes(16) + DataBytes(r)) + METADATA_MARKER + meta
  {
    hide TreeBytes, EncodeItems, Encode, Recipe.Nodes, MetadataFixture, Disjoint, Fits, OccursAt;
    var tree := TreeBytes(r.Nodes(), r.recordSize, CountOf(r));
    var meta := Encode(MetadataFixture(r, CountOf(r))).value;
    Slices(tree + ZeroBytes(16), DataBytes(r), METADATA_MARKER + meta);
    assert FileOf(r) == (tree + ZeroBytes(16)) + DataBytes(r) + (METADATA_MARKER + meta);
  }

  /**
   Opening reads back the metadata at the end of any file that has room for its tree, whatever else is in the
   file.
   */
  lemma MetadataReadBack(front: bytes, r: Recipe, count: nat, floatToUint: Value -> nat)
    requires IsRecordSize(r.recordSize) && (r.ipVersion == 4 || r.ipVersion == 6) && 0 < count < TWO_32
    requires Encode(MetadataFixture(r, count)).Some?
    requires forall i :: !OccursAt(Encode(MetadataFixture(r, count)).value, METADATA_MARKER, i)
    requires var size := |front| + |METADATA_MARKER| + |Encode(MetadataFixture(r, count)).value|;
             DataBase(MetadataOf(r, count)) <= size
    ensures var file := front + METADATA_MARKER + Encode(MetadataFixture(r, count)).value;
            ReadMetadata(Memory(file), floatToUint) == Ok(MetadataOf(r, count))
  {
    hide Encode, MetadataFixture, OccursAt, MetadataStart, Decoder.Decode, Normalised, Nesting, ParseMetadata,
         WellTyped, RoundTrip.Holds;
    var v := MetadataFixture(r, count);
    var meta := Encode(v).value;
    var file := front + METADATA_MARKER + meta;
    MetadataBounds(r, count);
    MetadataWellTyped(r, count);
    MetadataFound(front, meta);
    var start := |front| + |METADATA_MARKER|;
    Slices(front, METADATA_MARKER, meta);
    assert file[start..] == file[start..start + |meta|];
    MemoryHolds(file, start, start, meta);
    RoundTrip.DecodeInvertsEncode(Decoder(Memory(file).Reads(), start), start, v, 0);
    MetadataParsed(r, count, floatToUint);
  }

  lemma BuiltMetadataReadBack(r: Recipe, floatToUint: Value -> nat)
    requires r.Valid() && Sound(r)
    ensures ReadMetadata(Memory(FileOf(r)), floatToUint) == Ok(MetadataOf(r, CountOf(r)))
  {
    hide TreeBytes, EncodeItems, Encode, Recipe.Nodes, MetadataFixture, Disjoint, OccursAt, Build, DataBytes,
         ReadMetadata;
    BuildEncodes(r);
    FileLayout(r);
    CountInRange(r);
    var front := TreeBytes(r.Nodes(), r.recordSize, CountOf(r)) + ZeroBytes(16) + DataBytes(r);
    assert DataBase(MetadataOf(r, CountOf(r))) == |TreeBytes(r.Nodes(), r.recordSize, CountOf(r))| + 16;
    MetadataReadBack(front, r, CountOf(r), floatToUint);
  }

  lemma BuildEncodes(r: Recipe)
    requires r.Valid() && Sound(r)
    ensures Encode(MetadataFixture(r, CountOf(r))).Some? && EncodeItems(r.Records()).Some?
  {
  }

  lemma CountInRange(r: Recipe)
    requires r.Valid() && Sound(r)
    ensures 0 < CountOf(r) < TWO_32
  {
    hide InsertAll, TreeBytes, EncodeItems, Encode, MetadataFixture, Disjoint, OccursAt, Build;
  }

  function TreeOfFile(r: Recipe, file: bytes, count: nat): SearchTree
  {
    SearchTree(Memory(file).Reads(), r.recordSize, count)
  }

  function AddressLength(ipVersion: nat): nat
  {
    if ipVersion == 6 then 128 else 32
  }

  /** The start of the data section. */
  ghost function BaseOf(r: Recipe): nat
    requires r.Valid() && Sound(r)
  {
    DataBase(MetadataOf(r, CountOf(r)))
  }

  /** A walk of the whole address from the root ends where the scan of the networks says. */
  lemma RootWalk(r: Recipe, address: seq<bool>)
    requires r.Valid() && Sound(r) && |address| == AddressLength(r.ipVersion)
    ensures var end := TreeOfFile(r, FileOf(r), CountOf(r)).Walk(0, address);
            end.Ok? && Ends(end.value, Scan(r.Networks(), address), CountOf(r))
  {
    hide SearchTree.Walk, TreeBytes, EncodeItems, Encode, MetadataFixture, Build, OccursAt, Bits, Serialised, Fits,
         Recipe.Offset, Tries.Meaning, Tries.Find;
    var nodes := r.Nodes();
    FileLayout(r);
    FileIsSerialised(FileOf(r), nodes, r.recordSize);
    WalkIsFind(TreeOfFile(r, FileOf(r), |nodes|), nodes, 0, address);
    BuiltTree(r.Networks());
    LookupIsScan(r.Networks(), address);
  }

  lemma RootWalkZeros(r: Recipe)
    requires r.Valid() && Sound(r)
    ensures TreeOfFile(r, FileOf(r), CountOf(r)).Walk(0, Zeros(96)).Ok?
  {
    hide SearchTree.Walk, TreeBytes, EncodeItems, Encode, MetadataFixture, Build, OccursAt, Bits, Serialised, Fits,
         Recipe.Offset, Tries.Meaning, Tries.Find;
    var nodes := r.Nodes();
    FileLayout(r);
    FileIsSerialised(FileOf(r), nodes, r.recordSize);
    WalkIsFind(TreeOfFile(r, FileOf(r), |nodes|), nodes, 0, Zeros(96));
  }

  /** The encoding of an entry's data stands at its offset. */
  lemma RecordHeld(r: Recipe, i: nat)
    requires r.Valid() && Sound(r) && i < |r.entries|
    ensures Encode(r.entries[i].data).Some?
    ensures RoundTrip.Holds(Decoder(Memory(FileOf(r)).Reads(), BaseOf(r)), BaseOf(r) + r.Offset(i),
                            Encode(r.entries[i].data).value)
  {
    hide TreeBytes, EncodeItems, Encode, MetadataFixture, Build, OccursAt, Recipe.Nodes, Disjoint, Fits,
         Decoder.Decode, Normalised, Nesting, RoundTrip.Holds, WellTyped;
    BuildEncodes(r);
    FileLayout(r);
    var file, base, data, v := FileOf(r), BaseOf(r), DataBytes(r), r.entries[i].data;
    ItemAt(r.Records(), i);
    var e := Encode(v).value;
    assert r.Records()[i] == v;
    SliceOfSlice(file, base, base + |data|, r.Offset(i), r.Offset(i) + |e|);
    MemoryHolds(file, base, base + r.Offset(i), e);
  }

  /** What one source of a file holds, every other source of it holds. */
  lemma BackedHolds(src: Source, file: bytes, base: int, off: int, bs: bytes)
    requires src.Backs(file) && RoundTrip.Holds(Decoder(Memory(file).Reads(), base), off, bs)
    ensures RoundTrip.Holds(Decoder(src.Reads(), base), off, bs)
  {
    hide Source.At;
    forall i, n | RoundTrip.Within(bs, i, n)
      ensures src.At(off + i, n) == Ok(bs[i..i + n])
    {
      assert Decoder(Memory(file).Reads(), base).at(off + i, n) == Ok(bs[i..i + n]);
    }
  }

  /** An open database over a written file, held in memory or read from disk. */
  ghost predicate IsBuilt(r: Recipe, db: Db)
    requires r.Valid() && Sound(r)
  {
    db.src.Backs(FileOf(r)) && db.meta == MetadataOf(r, CountOf(r))
  }

  /** The decoder of an entry's record reads the encoding of the entry's data there. */
  lemma RecordHeldByDb(r: Recipe, db: Db, i: nat)
    requires r.Valid() && Sound(r) && i < |r.entries| && IsBuilt(r, db)
    ensures Encode(r.entries[i].data).Some?
    ensures var off := BaseOf(r) + r.Offset(i);
            RoundTrip.Holds(db.RecordDecoder(off), off, Encode(r.entries[i].data).value)
  {
    hide Sound, FileOf, CountOf, Encode, Recipe.Nodes, Recipe.Offset, Db.RecordSource, Source.Backs, RoundTrip.Holds;
    RecordHeld(r, i);
    var off := BaseOf(r) + r.Offset(i);
    RecordSourceBacks(db, FileOf(r), off);
    BackedHolds(db.RecordSource(off), FileOf(r), BaseOf(r), off, Encode(r.entries[i].data).value);
  }

  /** The record of an entry decodes to the entry's data. */
  lemma RecordRead(r: Recipe, db: Db, i: nat)
    requires r.Valid() && Sound(r) && i < |r.entries| && IsBuilt(r, db)
    ensures db.RecordAt(BaseOf(r) + r.Offset(i)) == Ok(Normalised(r.entries[i].data))
  {
    hide FileOf, CountOf, Sound, Encode, Recipe.Nodes, Recipe.Offset, Db.RecordDecoder, Decoder.Decode, Normalised,
         Nesting,
         RoundTrip.Holds, WellTyped, Source.Backs;
    SoundRecord(r, i);
    RecordHeldByDb(r, db, i);
    var off := BaseOf(r) + r.Offset(i);
    RoundTrip.DecodeInvertsEncode(db.RecordDecoder(off), off, r.entries[i].data, 0);
  }

  lemma SoundRecord(r: Recipe, i: nat)
    requires r.Valid() && Sound(r) && i < |r.entries|
    ensures WellTyped(r.entries[i].data) && Nesting(r.entries[i].data) <= MAX_DEPTH
  {
    hide Encode, Recipe.Nodes, MetadataFixture, WellTyped, Nesting, Disjoint, OccursAt;
  }

  lemma OpensInMemory(r: Recipe, floatToUint: Value -> nat)
    requires r.Valid() && Sound(r)
    ensures var db := OpenDb(FileOf(r), true, floatToUint);
            && db.Ok? && db.value.meta == MetadataOf(r, CountOf(r))
            && db.value.src == Memory(FileOf(r)) && db.value.inMemory
            && db.value.Tree() == TreeOfFile(r, FileOf(r), CountOf(r))
            && (r.ipVersion == 6 ==> db.value.ipv4Start == Some(db.value.Tree().Walk(0, Zeros(96)).value))
  {
    hide SearchTree.Walk, Sound, FileOf, CountOf, ReadMetadata;
    BuiltMetadataReadBack(r, floatToUint);
    RootWalkZeros(r);
  }

  /** Every address is looked up by a walk of its bits from the root. */
  lemma LookupIsRootWalk(db: Db, ip: bytes)
    requires db.Valid() && (|ip| == 4 || |ip| == 16)
    requires db.meta.ipVersion == 6 ==>
             db.Tree().Walk(0, Zeros(96)).Ok? && db.ipv4Start == Some(db.Tree().Walk(0, Zeros(96)).value)
    ensures var address := AddressBits(ip, db.meta.ipVersion);
            db.LookupOffset(Some(ip)) ==
            if address.None? then Ok(None)
            else
              var end := db.Tree().Walk(0, address.value);
              if end.Ok? then db.Outcome(end.value) else Err(end.error)
  {
    hide SearchTree.Walk, Bits, ZeroBytes, Db.Outcome;
    if db.meta.ipVersion == 6 && To4(ip).Some? {
      IPv4Shortcut(db.Tree(), To4(ip).value);
    }
  }

  lemma AddressBitsLength(ip: bytes, ipVersion: nat)
    requires |ip| == 4 || |ip| == 16
    requires AddressBits(ip, ipVersion).Some?
    ensures |AddressBits(ip, ipVersion).value| == AddressLength(ipVersion)
  {
  }

  /** The offset an address leads to, by the scan of the networks. */
  lemma LookupOffsetInMemory(r: Recipe, floatToUint: Value -> nat, ip: bytes)
    requires r.Valid() && Sound(r) && (|ip| == 4 || |ip| == 16)
    ensures OpenDb(FileOf(r), true, floatToUint).Ok?
    ensures var db := OpenDb(FileOf(r), true, floatToUint).value; var address := AddressBits(ip, r.ipVersion);
            db.LookupOffset(Some(ip)) ==
            if address.None? then Ok(None)
            else
              var found := Scan(r.Networks(), address.value);
              Ok(if found.Hit? then Some(DataBase(db.meta) + found.offset) else None)
  {
    hide SearchTree.Walk, Sound, FileOf, CountOf, Recipe.Networks, OpenDb, Bits, Scan, Db.LookupOffset, AddressBits;
    SoundParts(r);
    OpensInMemory(r, floatToUint);
    RootWalkZeros(r);
    var db := OpenDb(FileOf(r), true, floatToUint).value;
    LookupIsRootWalk(db, ip);
    var address := AddressBits(ip, r.ipVersion);
    if address.Some? {
      AddressBitsLength(ip, r.ipVersion);
      RootWalk(r, address.value);
      ScanHit(r.Networks(), address.value);
    }
  }

  /** A written file opens, in memory or from disk, as a database over that file. */
  lemma OpensBuilt(r: Recipe, inMemory: bool, floatToUint: Value -> nat)
    requires r.Valid() && Sound(r)
    ensures OpenDb(FileOf(r), inMemory, floatToUint).Ok?
    ensures IsBuilt(r, OpenDb(FileOf(r), inMemory, floatToUint).value)
  {
    hide SearchTree.Walk, Sound, FileOf, CountOf, OpenDb, Source.Backs, SameAnswers;
    OpensInMemory(r, floatToUint);
    FileModeEqualsMemoryMode(FileOf(r), floatToUint);
    OpenedBacks(FileOf(r), inMemory, floatToUint);
    SameMeta(OpenDb(FileOf(r), true, floatToUint).value, OpenDb(FileOf(r), false, floatToUint).value);
  }

  lemma SameMeta(a: Db, b: Db)
    requires SameAnswers(a, b)
    ensures a.meta == b.meta && forall ip | a.Valid() && b.Valid() :: a.LookupOffset(ip) == b.LookupOffset(ip)
  {
    hide Db.LookupOffset, Db.RecordAt, Db.ValueAt;
  }

  /** An address that a written database has a record for is led to the record of an entry. */
  lemma LookupOffsetBuilt(r: Recipe, inMemory: bool, floatToUint: Value -> nat, ip: bytes) returns (i: nat)
    requires r.Valid() && Sound(r) && (|ip| == 4 || |ip| == 16)
    ensures OpenDb(FileOf(r), inMemory, floatToUint).Ok?
    ensures var offset := OpenDb(FileOf(r), inMemory, floatToUint).value.LookupOffset(Some(ip));
            offset.Ok? && (offset.value.Some? ==> i < |r.entries| && offset.value.value == BaseOf(r) + r.Offset(i))
  {
    hide SearchTree.Walk, Sound, FileOf, CountOf, OpenDb, Bits, Scan, To4, Db.LookupOffset, SameAnswers,
         NetworkBits, ScanEntries, Normalised, Recipe.Offset;
    SoundParts(r);
    OpensInMemory(r, floatToUint);
    LookupOffsetInMemory(r, floatToUint, ip);
    FileModeEqualsMemoryMode(FileOf(r), floatToUint);
    SameMeta(OpenDb(FileOf(r), true, floatToUint).value, OpenDb(FileOf(r), false, floatToUint).value);
    var address := AddressBits(ip, r.ipVersion);
    i := 0;
    if address.Some? {
      i := ScanFindsEntry(r.entries, r.ipVersion, r.Networks(), address.value);
    }
  }

  lemma LookupInMemory(r: Recipe, floatToUint: Value -> nat, ip: bytes)
    requires r.Valid() && Sound(r) && (|ip| == 4 || |ip| == 16)
    ensures OpenDb(FileOf(r), true, floatToUint).Ok?
    ensures r.Buildable() && OpenDb(FileOf(r), true, floatToUint).value.Lookup(Some(ip)) == Ok(Expected(r, ip))
  {
    hide SearchTree.Walk, Sound, FileOf, CountOf, OpenDb, Bits, Scan, To4, Db.LookupOffset, Decoder.Decode,
         NetworkBits, ScanEntries, Normalised, Recipe.Offset;
    SoundParts(r);
    OpensInMemory(r, floatToUint);
    LookupOffsetInMemory(r, floatToUint, ip);
    var address := AddressBits(ip, r.ipVersion);
    if address.Some? {
      var i := ScanFindsEntry(r.entries, r.ipVersion, r.Networks(), address.value);
      if Scan(r.Networks(), address.value).Hit? {
        RecordRead(r, OpenDb(FileOf(r), true, floatToUint).value, i);
      }
    }
  }

  /**
   A file written from disjoint non-empty networks opens, in memory or from disk, and answers every
   address with the data of the entry that contains it, or with no data, and never with an error.
   */
  lemma BuiltDatabaseAnswersAsScan(r: Recipe, inMemory: bool, floatToUint: Value -> nat, ip: bytes)
    requires r.Valid() && Sound(r) && (|ip| == 4 || |ip| == 16)
    ensures OpenDb(FileOf(r), inMemory, floatToUint).Ok?
    ensures r.Buildable() && OpenDb(FileOf(r), inMemory, floatToUint).value.Lookup(Some(ip)) == Ok(Expected(r, ip))
  {
    hide SearchTree.Walk, Sound, FileOf, OpenDb, Db.LookupOffset, Db.RecordAt, Expected;
    LookupInMemory(r, floatToUint, ip);
    FileModeEqualsMemoryMode(FileOf(r), floatToUint);
  }
}
