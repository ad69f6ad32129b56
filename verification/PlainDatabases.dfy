/**
 When the conditions of the end-to-end theorem are met: a short database type without the marker's first
 byte is enough for the metadata, and the smallest databases meet all of them.
 */
module PlainDatabases {
  import opened Bytes
  import opened DataSection
  import opened FixtureEncoder
  import opened SearchTrees
  import opened TreeBuilder
  import opened Networks
  import opened TreeFile
  import opened Readers
  import opened BuiltDatabase
  import opened EndToEnd

  /** The marker's first byte does not occur. */
  predicate Plain(b: bytes)
  {
    METADATA_MARKER[0] !in b
  }

  lemma PlainHasNoMarker(b: bytes, i: int)
    requires Plain(b)
    ensures !OccursAt(b, METADATA_MARKER, i)
  {
    if 0 <= i && i + |METADATA_MARKER| <= |b| {
      assert b[i] in b && b[i..i + |METADATA_MARKER|][0] == b[i];
    }
  }

  // -------------------------------------------------------------------------
  // The pieces of the metadata
  // -------------------------------------------------------------------------

  lemma PlainControl(kind: nat, size: nat)
    requires 0 < kind < 16 && size < 29 && (kind == TYPE_UINT16 ==> size < 11)
    ensures Control(kind, size).Some? && Plain(Control(kind, size).value)
  {
  }

  lemma PlainUint(kind: nat, v: nat)
    requires 0 < kind < 16 && v < TWO_64 && Plain(MinimalBytes(v))
    ensures EncodeUint(kind, v).Some? && Plain(EncodeUint(kind, v).value)
  {
    Pow256Values();
    MinimalBytesLength(v, 8);
    PlainControl(kind, |MinimalBytes(v)|);
  }

  lemma PlainString(s: bytes)
    requires |s| < 29 && Plain(s)
    ensures EncodeKey(s).Some? && Plain(EncodeKey(s).value) && Encode(FString(s)) == EncodeKey(s)
  {
    PlainControl(TYPE_STRING, |s|);
  }

  lemma PlainAscii(s: string)
    requires forall i :: 0 <= i < |s| ==> s[i] < 128 as char
    ensures Plain(Ascii(s))
  {
  }

  lemma OneByteNumber(v: nat)
    requires v < 128
    ensures Plain(MinimalBytes(v))
  {
  }

  lemma OneMoreByte(v: nat)
    requires Plain(MinimalBytes(v / 256)) && v % 256 != METADATA_MARKER[0]
    ensures Plain(MinimalBytes(v))
  {
  }

  /** The fixed time of the build is not an obstacle. */
  lemma PlainEpoch()
    ensures Plain(MinimalBytes(1750000000))
  {
    OneByteNumber(104);
    OneMoreByte(26702);
    OneMoreByte(6835937);
    OneMoreByte(1750000000);
  }

  lemma PlainLanguages()
    ensures Encode(LANGUAGE_LIST).Some? && Plain(Encode(LANGUAGE_LIST).value)
  {
    hide Ascii;
    var items := [FString(EN)];
    KeysDiffer();
    PlainAscii("en");
    PlainString(EN);
    PlainControl(TYPE_ARRAY, 1);
    assert items[1..] == [] && items[0] == FString(EN);
    assert EncodeItems(items) == Some(Encode(FString(EN)).value + []);
  }

  lemma PlainDescriptions()
    ensures Encode(DESCRIPTIONS).Some? && Plain(Encode(DESCRIPTIONS).value)
  {
    hide Sorted;
    var text := FString(TEST_FIXTURE);
    KeysDiffer();
    PlainAscii("en");
    PlainAscii("test fixture");
    PlainString(EN);
    PlainString(text.s);
    PlainControl(TYPE_MAP, 1);
    assert DESCRIPTIONS.m.Keys == {EN} && |DESCRIPTIONS.m| == 1;
    SortedSingleton(EN);
    assert [EN][1..] == [];
    assert EncodePairs(DESCRIPTIONS, [EN]) == Some(EncodeKey(EN).value + Encode(text).value + []);
  }

  lemma PlainKeys(k: bytes)
    requires k in MetadataKeys()
    ensures Plain(k) && |k| < 29
  {
    hide Ascii, Plain;
    KeysDiffer();
    if k == NODE_COUNT {
      PlainAscii("node_count");
    } else if k == RECORD_SIZE {
      PlainAscii("record_size");
    } else if k == IP_VERSION {
      PlainAscii("ip_version");
    } else if k == DATABASE_TYPE {
      PlainAscii("database_type");
    } else if k == LANGUAGES {
      PlainAscii("languages");
    } else if k == MAJOR_VERSION {
      PlainAscii("binary_format_major_version");
    } else if k == MINOR_VERSION {
      PlainAscii("binary_format_minor_version");
    } else if k == BUILD_EPOCH {
      PlainAscii("build_epoch");
    } else {
      PlainAscii("description");
    }
  }

  lemma PlainValue(r: Recipe, nodeCount: nat, k: bytes)
    requires IsRecordSize(r.recordSize) && (r.ipVersion == 4 || r.ipVersion == 6)
    requires nodeCount < TWO_32 && Plain(MinimalBytes(nodeCount)) && Plain(r.databaseType) && |r.databaseType| < 29
    requires k in MetadataFixture(r, nodeCount).m
    ensures var e := Encode(MetadataFixture(r, nodeCount).m[k]); e.Some? && Plain(e.value)
  {
    hide Ascii, Plain, MetadataFixture, EncodeUint, EncodeKey, MinimalBytes, EncodeItems, EncodePairs, Control;
    MetadataValue(r, nodeCount, k);
    var v := MetadataFixture(r, nodeCount).m[k];
    if k == DATABASE_TYPE {
      PlainString(r.databaseType);
    } else if v == LANGUAGE_LIST {
      PlainLanguages();
    } else if v == DESCRIPTIONS {
      PlainDescriptions();
    } else {
      PlainNumber(r, nodeCount, k);
      PlainUint(if v.FUint16? then TYPE_UINT16 else if v.FUint32? then TYPE_UINT32 else TYPE_UINT64, v.n);
    }
  }

  /** Every number in the metadata other than the node count is fixed or small. */
  lemma PlainNumber(r: Recipe, nodeCount: nat, k: bytes)
    requires IsRecordSize(r.recordSize) && (r.ipVersion == 4 || r.ipVersion == 6) && Plain(MinimalBytes(nodeCount))
    requires k in MetadataFixture(r, nodeCount).m
    requires var v := MetadataFixture(r, nodeCount).m[k]; v.FUint16? || v.FUint32? || v.FUint64?
    ensures Plain(MinimalBytes(MetadataFixture(r, nodeCount).m[k].n))
  {
    hide Ascii, Plain, MinimalBytes;
    PlainEpoch();
    OneByteNumber(r.recordSize);
    OneByteNumber(r.ipVersion);
    OneByteNumber(2);
    OneByteNumber(0);
  }

  lemma {:induction false} PlainPairs(v: Fixture, keys: seq<bytes>)
    requires v.FMap?
    requires forall k :: k in keys ==>
               k in v.m && |k| < 29 && Plain(k) && Encode(v.m[k]).Some? && Plain(Encode(v.m[k]).value)
    ensures EncodePairs(v, keys).Some? && Plain(EncodePairs(v, keys).value)
    decreases |keys|
  {
    hide Encode, EncodeKey;
    if keys != [] {
      PlainString(keys[0]);
      PlainPairs(v, keys[1..]);
    }
  }

  /** The metadata of a database with a short plain type and a plain node count holds no marker. */
  lemma PlainMetadata(r: Recipe, nodeCount: nat)
    requires IsRecordSize(r.recordSize) && (r.ipVersion == 4 || r.ipVersion == 6)
    requires nodeCount < TWO_32 && Plain(MinimalBytes(nodeCount)) && Plain(r.databaseType) && |r.databaseType| < 29
    ensures Encode(MetadataFixture(r, nodeCount)).Some? && Plain(Encode(MetadataFixture(r, nodeCount)).value)
  {
    hide Ascii, Plain, MetadataFixture, EncodePairs, MinimalBytes, Sorted;
    var v := MetadataFixture(r, nodeCount);
    var keys := Sorted(v.m.Keys);
    SortedMembers(v.m.Keys);
    MetadataDomain(r, nodeCount);
    forall k | k in keys
      ensures k in v.m && |k| < 29 && Plain(k) && Encode(v.m[k]).Some? && Plain(Encode(v.m[k]).value)
    {
      PlainKeys(k);
      PlainValue(r, nodeCount, k);
    }
    PlainPairs(v, keys);
    PlainControl(TYPE_MAP, |v.m|);
    PlainMap(v, keys);
  }

  lemma PlainMap(v: Fixture, keys: seq<bytes>)
    requires v.FMap? && keys == Sorted(v.m.Keys) && Control(TYPE_MAP, |v.m|).Some? &&
             Plain(Control(TYPE_MAP, |v.m|).value)
    requires EncodePairs(v, keys).Some? && Plain(EncodePairs(v, keys).value)
    ensures Encode(v).Some? && Plain(Encode(v).value)
  {
    hide Control, EncodePairs, Sorted;
  }

  // -------------------------------------------------------------------------
  // Sound databases
  // -------------------------------------------------------------------------

  /** Everything but the marker's absence, which a short plain type and a plain node count guarantee. */
  lemma PlainIsSound(r: Recipe)
    requires r.Valid() && r.Buildable() && EncodeItems(r.Records()).Some?
    requires Disjoint(r.Networks()) && Fits(r.Nodes(), r.recordSize)
    requires forall i :: 0 <= i < |r.entries| ==> Nesting(r.entries[i].data) <= MAX_DEPTH
    requires Plain(r.databaseType) && |r.databaseType| < 29 && Plain(MinimalBytes(|r.Nodes()|))
    ensures Sound(r)
  {
    hide Plain, MetadataFixture, Disjoint, OccursAt, Encode, EncodeItems, MinimalBytes, Recipe.Nodes, Nesting;
    PlainMetadata(r, |r.Nodes()|);
    forall i
      ensures !OccursAt(Encode(MetadataFixture(r, |r.Nodes()|)).value, METADATA_MARKER, i)
    {
      PlainHasNoMarker(Encode(MetadataFixture(r, |r.Nodes()|)).value, i);
    }
  }

  /** A database of one network of one bit. */
  function Half(recordSize: nat, addr: bytes, data: Fixture): Recipe
  {
    Recipe(recordSize, 4, Ascii("half"), [Entry(IPv4Net(addr, 1), data)])
  }

  lemma HalfNodes(recordSize: nat, addr: bytes, data: Fixture)
    requires |addr| == 4 && data.FMap? && WellTyped(data)
    ensures var r := Half(recordSize, addr, data);
            && r.Valid() && |r.Networks()| == 1 && r.Networks()[0] == Network([Bits(addr)[0]], 0)
            && r.Nodes() == [EMPTY_NODE.Set(Bits(addr)[0], Record.Data(0))]
  {
    hide Ascii, BitAt, WellTyped;
    var r := Half(recordSize, addr, data);
    assert r.Records()[..0] == [];
    assert Bits(addr)[..1] == [Bits(addr)[0]];
    var ns := r.Networks();
    assert ns[..0] == [];
    assert InsertAll(ns[..0]) == [EMPTY_NODE];
    assert InsertAll(ns) == Insert([EMPTY_NODE], 0, ns[0].bits, ns[0].offset);
  }

  /** One half of the IPv4 addresses has data: such a database is sound, whatever the data. */
  lemma HalfIsSound(recordSize: nat, addr: bytes, data: Fixture)
    requires IsRecordSize(recordSize) && |addr| == 4
    requires data.FMap? && WellTyped(data) && Encode(data).Some? && Nesting(data) <= MAX_DEPTH
    ensures Half(recordSize, addr, data).Valid() && Sound(Half(recordSize, addr, data))
  {
    hide Ascii, Bits, WellTyped, Encode, Nesting, MinimalBytes, Plain, Recipe.Nodes, Recipe.Networks;
    var r := Half(recordSize, addr, data);
    HalfNodes(recordSize, addr, data);
    assert r.Records()[0] == data && r.Records()[1..] == [];
    assert EncodeItems(r.Records()).Some?;
    var bit := Bits(addr)[0];
    assert r.Nodes()[0].Get(bit) == Record.Data(0) && r.Nodes()[0].Get(!bit) == Empty;
    assert Fits(r.Nodes(), recordSize);
    assert Disjoint(r.Networks());
    PlainAscii("half");
    OneByteNumber(1);
    PlainIsSound(r);
  }
}
