/** A whole database file from its writer, and the linear scan that lookups in it are measured against. */
module BuiltDatabase {
  import opened Bytes
  import opened DataSection
  import opened FixtureEncoder
  import opened SearchTrees
  import opened TreeBuilder
  import opened Networks
  import opened TreeFile
  import opened Readers
  import FixtureWriter

  datatype Cidr = IPv4Net(addr: bytes, ones: nat) | IPv6Net(addr: bytes, ones: nat)

  /** What parsing the text of a network gives: an address of its family and a prefix length within it. */
  predicate ValidCidr(c: Cidr)
  {
    match c
    case IPv4Net(addr, ones) => |addr| == 4 && ones <= 32
    case IPv6Net(addr, ones) => |addr| == 16 && ones <= 128
  }

  /**
   The address bytes and prefix length that are inserted; None where the builder stops the test. The mapped form
   of an IPv4 address is taken as that address with the prefix length of the IPv6 form, so a length past the end
   of the address is an index error.
   */
  function TreePrefix(c: Cidr, ipVersion: nat): (r: Option<(bytes, nat)>)
    requires ValidCidr(c)
    ensures r.Some? ==> r.value.1 <= |r.value.0| * 8 && |r.value.0| == if ipVersion == 6 then 16 else 4
  {
    var v4 := To4(c.addr);
    if v4.Some? then
      if ipVersion == 6 then
        if c.ones + 96 <= 128 then Some((ZeroBytes(12) + v4.value, c.ones + 96)) else None
      else
        if c.ones <= 32 then Some((v4.value, c.ones)) else None
    else if ipVersion == 6 then Some((c.addr, c.ones))
    else None
  }

  /** The bits of a network in the tree; none for a network that cannot be inserted. */
  function NetworkBits(c: Cidr, ipVersion: nat): seq<bool>
    requires ValidCidr(c)
  {
    var p := TreePrefix(c, ipVersion);
    if p.None? then [] else Bits(p.value.0)[..p.value.1]
  }

  datatype Entry = Entry(network: Cidr, data: Fixture)

  datatype Recipe = Recipe(recordSize: nat, ipVersion: nat, databaseType: bytes, entries: seq<Entry>) {
    /** What the types of the original and its callers guarantee. */
    predicate Valid()
    {
      && (ipVersion == 4 || ipVersion == 6)
      && forall i :: 0 <= i < |entries| ==>
           ValidCidr(entries[i].network) && entries[i].data.FMap? && WellTyped(entries[i].data)
    }

    /** The cases in which the builder does not stop the test before encoding anything. */
    predicate Buildable()
      requires Valid()
    {
      && IsRecordSize(recordSize)
      && forall i :: 0 <= i < |entries| ==> TreePrefix(entries[i].network, ipVersion).Some?
    }

    function Records(): seq<Fixture>
    {
      seq(|entries|, i requires 0 <= i < |entries| => entries[i].data)
    }

    function Offset(i: nat): nat
      requires i <= |entries|
    {
      var before := EncodeItems(Records()[..i]);
      if before.Some? then |before.value| else 0
    }

    function Networks(): (ns: seq<Network>)
      requires Valid()
      ensures |ns| == |entries|
    {
      seq(|entries|, i requires 0 <= i < |entries| => Network(NetworkBits(entries[i].network, ipVersion), Offset(i)))
    }

    ghost function Nodes(): seq<TreeNode>
      requires Valid()
    {
      InsertAll(Networks())
    }
  }

  const EN := Ascii("en")
  const LANGUAGE_LIST := FList([FString(EN)])
  const TEST_FIXTURE := Ascii("test fixture")
  const DESCRIPTIONS := FMap(map[EN := FString(TEST_FIXTURE)])

  function MetadataFixture(r: Recipe, nodeCount: nat): (v: Fixture)
    ensures v.FMap?
  {
    FMap(map[
      NODE_COUNT := FUint32(nodeCount),
      RECORD_SIZE := FUint16(r.recordSize),
      IP_VERSION := FUint16(r.ipVersion),
      DATABASE_TYPE := FString(r.databaseType),
      LANGUAGES := LANGUAGE_LIST,
      MAJOR_VERSION := FUint16(2),
      MINOR_VERSION := FUint16(0),
      BUILD_EPOCH := FUint64(1750000000),
      DESCRIPTION := DESCRIPTIONS
    ])
  }

  /** The file: tree, separator, data section, marker, metadata; None where the builder stops the test. */
  ghost function Build(r: Recipe): Option<bytes>
    requires r.Valid()
  {
    if !r.Buildable() then None
    else
      var data :- EncodeItems(r.Records());
      var meta :- Encode(MetadataFixture(r, |r.Nodes()|));
      Some(TreeBytes(r.Nodes(), r.recordSize, |r.Nodes()|) + ZeroBytes(16) + data + METADATA_MARKER + meta)
  }

  // -------------------------------------------------------------------------
  // Building, step by step
  // -------------------------------------------------------------------------

  lemma {:induction false} ItemsAppend(items: seq<Fixture>, last: Fixture)
    ensures EncodeItems(items + [last]) ==
            if EncodeItems(items).Some? && Encode(last).Some?
            then Some(EncodeItems(items).value + Encode(last).value) else None
  {
    hide Encode;
    var all := items + [last];
    if items == [] {
      assert all[0] == last && all[1..] == [];
      if Encode(last).Some? {
        assert Encode(last).value + [] == [] + Encode(last).value;
      }
    } else {
      assert all[0] == items[0] && all[1..] == items[1..] + [last];
      ItemsAppend(items[1..], last);
      if Encode(items[0]).Some? && EncodeItems(items[1..]).Some? && Encode(last).Some? {
        var a, b, c := Encode(items[0]).value, EncodeItems(items[1..]).value, Encode(last).value;
        assert a + (b + c) == a + b + c;
      }
    }
  }

  /** The whole builder; None where it stops the test with a fatal error. */
  method BuildMMDB(r: Recipe) returns (file: Option<bytes>)
    requires r.Valid() && |r.Nodes()| < TWO_32
    ensures file == Build(r)
  {
    hide Encode, EncodeItems, Insert, NetworkBits, TreeBytes, MetadataFixture, Bits;
    var data, offsets := EncodeRecords(r);
    if data.None? {
      return None;
    }
    var nodes := BuildTree(r, offsets);
    if nodes.None? || !IsRecordSize(r.recordSize) {
      return None;
    }
    var tree := WriteTree(nodes.value, r.recordSize);
    var out := new FixtureWriter.Buffer();
    out.Write(tree);
    assert out.data == tree;
    out.Write(ZeroBytes(16));
    out.Write(data.value);
    out.Write(METADATA_MARKER);
    MetadataIsTyped(r, |nodes.value|);
    var ok := FixtureWriter.EncodeValue(out, MetadataFixture(r, |nodes.value|));
    file := if ok then Some(out.data) else None;
  }

  lemma MetadataIsTyped(r: Recipe, nodeCount: nat)
    requires r.Valid() && IsRecordSize(r.recordSize) && nodeCount < TWO_32
    ensures WellTyped(MetadataFixture(r, nodeCount))
  {
  }

  /** Encodes the records one after another, remembering where each starts. */
  method EncodeRecords(r: Recipe) returns (data: Option<bytes>, offsets: seq<nat>)
    requires r.Valid()
    ensures data == EncodeItems(r.Records())
    ensures data.Some? ==> |offsets| == |r.entries| && forall i :: 0 <= i < |offsets| ==> offsets[i] == r.Offset(i)
  {
    hide Encode, EncodeItems, WellTyped;
    var buf := new FixtureWriter.Buffer();
    offsets := [];
    assert r.Records()[..0] == [];
    EncodeNothing();
    for i := 0 to |r.entries|
      invariant fresh(buf)
      invariant EncodeItems(r.Records()[..i]) == Some(buf.data)
      invariant |offsets| == i && forall j :: 0 <= j < i ==> offsets[j] == r.Offset(j)
    {
      offsets := offsets + [|buf.data|];
      var ok := FixtureWriter.EncodeValue(buf, r.entries[i].data);
      assert r.Records()[..i + 1] == r.Records()[..i] + [r.entries[i].data];
      ItemsAppend(r.Records()[..i], r.entries[i].data);
      if !ok {
        FailedPrefix(r.Records(), i + 1);
        return None, offsets;
      }
    }
    assert r.Records()[..|r.entries|] == r.Records();
    data := Some(buf.data);
  }

  lemma EncodeNothing()
    ensures EncodeItems([]) == Some([])
  {
  }

  lemma {:induction false} FailedPrefix(items: seq<Fixture>, n: nat)
    requires n <= |items| && EncodeItems(items[..n]).None?
    ensures EncodeItems(items).None?
    decreases n
  {
    hide Encode;
    if n > 0 {
      assert items[..n][0] == items[0] && items[..n][1..] == items[1..][..n - 1];
      if Encode(items[0]).Some? {
        FailedPrefix(items[1..], n - 1);
      }
    }
  }

  /** Inserts the networks in order; None when one cannot be inserted. */
  method BuildTree(r: Recipe, offsets: seq<nat>) returns (nodes: Option<seq<TreeNode>>)
    requires r.Valid() && |offsets| == |r.entries|
    requires forall i :: 0 <= i < |offsets| ==> offsets[i] == r.Offset(i)
    ensures nodes.None? <==> exists i :: 0 <= i < |r.entries| && TreePrefix(r.entries[i].network, r.ipVersion).None?
    ensures nodes.Some? ==> nodes.value == r.Nodes()
  {
    hide Insert, Bits, Recipe.Offset, WellTyped;
    var builder := new Builder();
    for i := 0 to |r.entries|
      invariant fresh(builder) && builder.Valid()
      invariant builder.nodes == InsertAll(r.Networks()[..i])
      invariant forall j :: 0 <= j < i ==> TreePrefix(r.entries[j].network, r.ipVersion).Some?
    {
      var p := TreePrefix(r.entries[i].network, r.ipVersion);
      if p.None? {
        return None;
      }
      assert r.Networks()[..i + 1][..i] == r.Networks()[..i];
      builder.InsertNetwork(p.value.0, p.value.1, offsets[i]);
    }
    assert r.Networks()[..|r.entries|] == r.Networks();
    nodes := Some(builder.nodes);
  }

  // -------------------------------------------------------------------------
  // The expected answer
  // -------------------------------------------------------------------------

  /** The bits an address is looked up by; None for an IPv6 address in an IPv4 database. */
  function AddressBits(ip: bytes, ipVersion: nat): Option<seq<bool>>
  {
    var v4 := To4(ip);
    if v4.Some? then Some(if ipVersion == 6 then Bits(ZeroBytes(12) + v4.value) else Bits(v4.value))
    else if ipVersion == 6 then Some(Bits(ip))
    else None
  }

  /** The data of the first entry whose network contains the address. */
  function ScanEntries(entries: seq<Entry>, ipVersion: nat, address: seq<bool>): Option<Value>
    requires forall i :: 0 <= i < |entries| ==>
               ValidCidr(entries[i].network) && TreePrefix(entries[i].network, ipVersion).Some?
  {
    if entries == [] then None
    else if NetworkBits(entries[0].network, ipVersion) <= address then Some(Normalised(entries[0].data))
    else ScanEntries(entries[1..], ipVersion, address)
  }

  function Expected(r: Recipe, ip: bytes): Option<Value>
    requires r.Valid() && r.Buildable()
  {
    var address := AddressBits(ip, r.ipVersion);
    if address.None? then None else ScanEntries(r.entries, r.ipVersion, address.value)
  }

  lemma {:induction false} ScanFindsEntry(entries: seq<Entry>, ipVersion: nat, ns: seq<Network>, address: seq<bool>)
    returns (i: nat)
    requires forall i :: 0 <= i < |entries| ==>
               ValidCidr(entries[i].network) && TreePrefix(entries[i].network, ipVersion).Some?
    requires |ns| == |entries|
    requires forall i :: 0 <= i < |entries| ==> ns[i].bits == NetworkBits(entries[i].network, ipVersion)
    ensures if Scan(ns, address).Hit?
            then i < |entries| && Scan(ns, address).offset == ns[i].offset &&
                 ScanEntries(entries, ipVersion, address) == Some(Normalised(entries[i].data))
            else Scan(ns, address) == Tries.Miss && ScanEntries(entries, ipVersion, address) == None
    decreases |entries|
  {
    hide NetworkBits, ValidCidr, TreePrefix, Normalised;
    i := 0;
    if entries != [] && !(ns[0].bits <= address) {
      var j := ScanFindsEntry(entries[1..], ipVersion, ns[1..], address);
      i := j + 1;
    }
  }
}
