/** Opening a database and looking addresses up in it. */
module Readers {
  import opened Bytes
  import opened Sources
  import opened DataSection
  import opened SearchTrees
  import Interchange

  // 0xAB 0xCD 0xEF "MaxMind.com"
  const METADATA_MARKER: bytes := [0xAB, 0xCD, 0xEF, 77, 97, 120, 77, 105, 110, 100, 46, 99, 111, 109]
  const METADATA_MAX_SIZE: nat := 131072
  const SEPARATOR_SIZE: nat := 16
  const RECORD_WINDOW: nat := 4096

  // -------------------------------------------------------------------------
  // The last occurrence of a byte string
  // -------------------------------------------------------------------------

  predicate OccursAt(haystack: bytes, needle: bytes, i: int)
  {
    0 <= i && i + |needle| <= |haystack| && haystack[i..i + |needle|] == needle
  }

  function LastFrom(haystack: bytes, needle: bytes, i: int): int
    decreases i + 1
  {
    if i < 0 then -1 else if OccursAt(haystack, needle, i) then i else LastFrom(haystack, needle, i - 1)
  }

  function LastIndexOf(haystack: bytes, needle: bytes): int
  {
    if needle == [] || |haystack| < |needle| then -1 else LastFrom(haystack, needle, |haystack| - |needle|)
  }

  lemma {:induction false} LastFromIsLast(haystack: bytes, needle: bytes, i: int)
    requires i + |needle| <= |haystack|
    ensures var r := LastFrom(haystack, needle, i);
            && (r == -1 || 0 <= r <= i)
            && (r >= 0 ==> OccursAt(haystack, needle, r))
            && forall j :: r < j <= i ==> !OccursAt(haystack, needle, j)
    decreases i + 1
  {
    if i >= 0 && !OccursAt(haystack, needle, i) {
      LastFromIsLast(haystack, needle, i - 1);
    }
  }

  method MatchesAt(haystack: bytes, needle: bytes, i: nat) returns (matching: bool)
    requires i + |needle| <= |haystack|
    ensures matching == OccursAt(haystack, needle, i)
  {
    for j := 0 to |needle|
      invariant forall k :: 0 <= k < j ==> haystack[i + k] == needle[k]
    {
      if haystack[i + j] != needle[j] {
        assert haystack[i..i + |needle|][j] != needle[j];
        return false;
      }
    }
    assert haystack[i..i + |needle|] == needle;
    matching := true;
  }

  /** The search returns an occurrence with none after it, or -1 when there is none. */
  method FindLast(haystack: bytes, needle: bytes) returns (r: int)
    ensures r == LastIndexOf(haystack, needle)
    ensures r == -1 || OccursAt(haystack, needle, r)
    ensures needle != [] ==> forall j :: r < j ==> !OccursAt(haystack, needle, j)
  {
    if needle == [] || |haystack| < |needle| {
      return -1;
    }
    var i := |haystack| - |needle|;
    while i >= 0
      invariant i + |needle| <= |haystack|
      invariant LastIndexOf(haystack, needle) == LastFrom(haystack, needle, i)
      invariant forall j :: i < j ==> !OccursAt(haystack, needle, j)
      decreases i + 1
    {
      var matching := MatchesAt(haystack, needle, i);
      if matching {
        return i;
      }
      i := i - 1;
    }
    r := -1;
  }

  // -------------------------------------------------------------------------
  // Metadata
  // -------------------------------------------------------------------------

  datatype Metadata = Metadata(
    databaseType: bytes,
    description: Option<map<bytes, bytes>>,
    languages: Option<seq<bytes>>,
    buildEpoch: int,
    ipVersion: int,
    nodeCount: nat,
    recordSize: nat,
    majorVersion: int,
    minorVersion: int)

  function Ascii(s: string): (b: bytes)
    requires forall i :: 0 <= i < |s| ==> s[i] < 128 as char
    ensures |b| == |s|
  {
    seq(|s|, i requires 0 <= i < |s| => s[i] as int)
  }

  const DATABASE_TYPE := Ascii("database_type")
  const DESCRIPTION := Ascii("description")
  const LANGUAGES := Ascii("languages")
  const BUILD_EPOCH := Ascii("build_epoch")
  const IP_VERSION := Ascii("ip_version")
  const NODE_COUNT := Ascii("node_count")
  const RECORD_SIZE := Ascii("record_size")
  const MAJOR_VERSION := Ascii("binary_format_major_version")
  const MINOR_VERSION := Ascii("binary_format_minor_version")

  function AsString(v: Value): bytes
  {
    if v.Str? then v.s else []
  }

  /** The strings in a map, any other value as an empty string; nothing for what is not a map. */
  function AsStringMap(v: Value): Option<map<bytes, bytes>>
  {
    if v.Map? then Some(map key | key in v.m :: AsString(v.m[key])) else None
  }

  /** The non-empty strings in a list; nothing for what is not a list. */
  function AsStringSlice(v: Value): Option<seq<bytes>>
  {
    if v.List? then Some(Strings(v.items)) else None
  }

  function Strings(items: seq<Value>): seq<bytes>
  {
    if items == [] then []
    else
      var s := AsString(items[0]);
      (if s == [] then [] else [s]) + Strings(items[1..])
  }

  // Converting a floating point number to an integer is Go's own; `floatToUint` stands for it.
  function AsUint(v: Value, floatToUint: Value -> nat): nat
  {
    match v
    case Uint(n) => n
    case Int(i) => if i < 0 then 0 else i
    case Double(_) => floatToUint(v)
    case Single(_) => floatToUint(v)
    case _ => 0
  }

  /** The value of a key, nil when it is missing. */
  function At(m: map<bytes, Value>, key: bytes): Value
  {
    if key in m then m[key] else Nil
  }

  /** A 64 bit unsigned number read as a signed one. */
  function ToInt64(n: nat): int
  {
    var low := n % 0x1_0000_0000_0000_0000;
    if low < 0x8000_0000_0000_0000 then low else low - 0x1_0000_0000_0000_0000
  }

  function ParseMetadata(m: map<bytes, Value>, floatToUint: Value -> nat): (r: Result<Metadata>)
    ensures r.Ok? ==> IsRecordSize(r.value.recordSize) && r.value.nodeCount > 0
    ensures r.Ok? ==> (r.value.ipVersion == 4 || r.value.ipVersion == 6) && r.value.majorVersion == 2
  {
    var meta := Metadata(
      AsString(At(m, DATABASE_TYPE)),
      AsStringMap(At(m, DESCRIPTION)),
      AsStringSlice(At(m, LANGUAGES)),
      ToInt64(AsUint(At(m, BUILD_EPOCH), floatToUint)),
      ToInt64(AsUint(At(m, IP_VERSION), floatToUint)),
      AsUint(At(m, NODE_COUNT), floatToUint) % 0x1_0000_0000,
      AsUint(At(m, RECORD_SIZE), floatToUint),
      ToInt64(AsUint(At(m, MAJOR_VERSION), floatToUint)),
      ToInt64(AsUint(At(m, MINOR_VERSION), floatToUint)));
    if !IsRecordSize(meta.recordSize) then Err(Unsupported)
    else if meta.nodeCount == 0 then Err(Unsupported)
    else if meta.ipVersion != 4 && meta.ipVersion != 6 then Err(Unsupported)
    else if meta.majorVersion != 2 then Err(Unsupported)
    else Ok(meta)
  }

  /** Where the metadata block starts, just past the last marker near the end of the file. */
  function MetadataStart(src: Source): Result<int>
  {
    if src.Size() < |METADATA_MARKER| then Err(NoMetadata)
    else
      var window := if src.Size() < METADATA_MAX_SIZE then src.Size() else METADATA_MAX_SIZE;
      var buf :- src.At(src.Size() - window, window);
      var idx := LastIndexOf(buf, METADATA_MARKER);
      if idx < 0 then Err(NoMetadata) else Ok(src.Size() - window + idx + |METADATA_MARKER|)
  }

  function ReadMetadata(src: Source, floatToUint: Value -> nat): (r: Result<Metadata>)
    ensures r.Ok? ==> IsRecordSize(r.value.recordSize) && r.value.nodeCount > 0
    ensures r.Ok? ==> (r.value.ipVersion == 4 || r.value.ipVersion == 6)
    ensures r.Ok? ==> DataBase(r.value) <= src.Size()
  {
    var start :- MetadataStart(src);
    var raw :- Decoder(src.Reads(), start).Decode(start, 0);
    if !raw.value.Map? then Err(NoMetadata)
    else
      var meta :- ParseMetadata(raw.value.m, floatToUint);
      if DataBase(meta) > src.Size() then Err(Unsupported) else Ok(meta)
  }

  /** The start of the data section. */
  function DataBase(meta: Metadata): nat
  {
    meta.nodeCount * (meta.recordSize * 2 / 8) + SEPARATOR_SIZE
  }

  // -------------------------------------------------------------------------
  // Addresses
  // -------------------------------------------------------------------------

  /** net.IP.To4: a 4 byte address, also when it is given in its 16 byte form. */
  function To4(ip: bytes): (r: Option<bytes>)
    ensures r.Some? ==> |r.value| == 4
  {
    if |ip| == 4 then Some(ip)
    else if |ip| == 16 && ip[..10] == ZeroBytes(10) && ip[10] == 255 && ip[11] == 255 then Some(ip[12..])
    else None
  }

  // -------------------------------------------------------------------------
  // An opened database
  // -------------------------------------------------------------------------

  datatype Db = Db(src: Source, meta: Metadata, ipv4Start: Option<nat>, inMemory: bool) {

    predicate Valid()
    {
      && IsRecordSize(meta.recordSize) && meta.nodeCount > 0
      && (meta.ipVersion == 4 || meta.ipVersion == 6)
    }

    function Tree(): SearchTree
    {
      SearchTree(src.Reads(), meta.recordSize, meta.nodeCount)
    }

    /** The outcome of a walk: a record's offset, no data, or a walk that ended inside the tree. */
    function Outcome(node: nat): Result<Option<int>>
    {
      if node == meta.nodeCount then Ok(None)
      else if node > meta.nodeCount then Ok(Some(DataBase(meta) + node - meta.nodeCount - SEPARATOR_SIZE))
      else Err(CorruptTree)
    }

    /** The offset of the record of an address; None is Go's nil address. */
    function LookupOffset(ip: Option<bytes>): Result<Option<int>>
      requires Valid()
    {
      if ip.None? then Err(BadAddress)
      else
        var v4 := To4(ip.value);
        if v4.Some? then
          if meta.ipVersion == 6 then
            if ipv4Start.None? then Err(BadAddress)
            else
              var node :- Tree().Walk(ipv4Start.value, Bits(v4.value));
              Outcome(node)
          else
            var node :- Tree().Walk(0, Bits(v4.value));
            Outcome(node)
        else if meta.ipVersion == 4 then Ok(None)
        else if |ip.value| != 16 then Err(BadAddress)
        else
          var node :- Tree().Walk(0, Bits(ip.value));
          Outcome(node)
    }

    method LookupOffsetLoop(ip: Option<bytes>) returns (r: Result<Option<int>>)
      requires Valid()
      ensures r == LookupOffset(ip)
    {
      if ip.None? {
        return Err(BadAddress);
      }
      var addr: bytes := ip.value;
      var node := 0;
      var v4 := To4(ip.value);
      if v4.Some? {
        addr := v4.value;
        if meta.ipVersion == 6 {
          if ipv4Start.None? {
            return Err(BadAddress);
          }
          node := ipv4Start.value;
        }
      } else {
        if meta.ipVersion == 4 {
          return Ok(None);
        }
        if |ip.value| != 16 {
          return Err(BadAddress);
        }
      }
      var end := Tree().WalkLoop(node, addr);
      if end.Err? {
        return Err(end.error);
      }
      r := Outcome(end.value);
    }

    /** The source to decode a record with: a window read up front unless the file is in memory. */
    function RecordSource(offset: int): Source
    {
      if inMemory then src
      else
        var remaining := src.Size() - offset;
        var size := if remaining < RECORD_WINDOW then remaining else RECORD_WINDOW;
        if size <= 0 then src
        else
          var buf := src.At(offset, size);
          if buf.Ok? then Window(offset, buf.value, src) else src
    }

    function RecordDecoder(offset: int): Decoder
    {
      Decoder(RecordSource(offset).Reads(), DataBase(meta))
    }

    /** The whole record at an offset. */
    function RecordAt(offset: int): Result<Value>
    {
      var d :- RecordDecoder(offset).Decode(offset, 0);
      Ok(d.value)
    }

    /** The value at a path of the record at an offset. */
    function ValueAt(offset: int, path: seq<bytes>): Result<Option<Value>>
    {
      RecordDecoder(offset).ValueAt(offset, path)
    }

    /** The whole record of an address. */
    function Lookup(ip: Option<bytes>): Result<Option<Value>>
      requires Valid()
    {
      var offset :- LookupOffset(ip);
      if offset.None? then Ok(None)
      else
        var v :- RecordAt(offset.value);
        Ok(Some(v))
    }
  }

  /** Opening: metadata, then the pinned search tree for a file, then the start of the IPv4 subtree. */
  function OpenDb(content: bytes, inMemory: bool, floatToUint: Value -> nat): (r: Result<Db>)
    ensures r.Ok? ==> r.value.Valid() && (r.value.meta.ipVersion == 6 ==> r.value.ipv4Start.Some?)
  {
    var first := if inMemory then Memory(content) else File(content, None, true);
    var meta :- ReadMetadata(first, floatToUint);
    var src := if inMemory then first else File(content, Some(content[..DataBase(meta)]), true);
    if meta.ipVersion == 6 then
      var start :- SearchTree(src.Reads(), meta.recordSize, meta.nodeCount).Walk(0, Zeros(96));
      Ok(Db(src, meta, Some(start), inMemory))
    else
      Ok(Db(src, meta, None, inMemory))
  }

  // -------------------------------------------------------------------------
  // Walks of an opened database
  // -------------------------------------------------------------------------

  /** In an opened database held in memory no walk meets a read error. */
  lemma OpenedWalksNeverFail(content: bytes, floatToUint: Value -> nat, node: nat, bits: seq<bool>)
    requires OpenDb(content, true, floatToUint).Ok?
    ensures OpenDb(content, true, floatToUint).value.Tree().Walk(node, bits).Ok?
  {
    hide SearchTree.Walk, MetadataStart, ParseMetadata, Decoder.Decode;
    var db := OpenDb(content, true, floatToUint).value;
    assert db.Tree().TreeSize() <= |content|;
    WalkNeverFails(db.Tree(), node, bits);
  }

  /**
   In every opened IPv6 database an IPv4 address, looked up through the precomputed start node, gets
   the outcome of walking all 128 bits of its zero-extended form from the root.
   */
  lemma IPv4LookupIsZeroExtended(content: bytes, inMemory: bool, floatToUint: Value -> nat, v4: bytes)
    requires OpenDb(content, inMemory, floatToUint).Ok? && |v4| == 4
    requires OpenDb(content, inMemory, floatToUint).value.meta.ipVersion == 6
    ensures var db := OpenDb(content, inMemory, floatToUint).value;
            var walk := db.Tree().Walk(0, Bits(ZeroBytes(12) + v4));
            db.LookupOffset(Some(v4)) == if walk.Ok? then db.Outcome(walk.value) else Err(walk.error)
  {
    hide SearchTree.Walk, BitAt, Bits;
    var db := OpenDb(content, inMemory, floatToUint).value;
    IPv4Shortcut(db.Tree(), v4);
  }

  // -------------------------------------------------------------------------
  // Reading from a file is reading from memory
  // -------------------------------------------------------------------------

  lemma {:induction false} SameWalk(t: SearchTree, u: SearchTree, node: nat, bits: seq<bool>)
    requires t.Valid() && t.recordSize == u.recordSize && t.nodeCount == u.nodeCount
    requires forall off, n :: t.at(off, n) == u.at(off, n)
    ensures t.Walk(node, bits) == u.Walk(node, bits)
    decreases |bits|
  {
    hide UnpackNode;
    if bits != [] && node < t.nodeCount {
      var records := t.ReadNode(node);
      assert records == u.ReadNode(node);
      if records.Ok? {
        SameWalk(t, u, if bits[0] then records.value.1 else records.value.0, bits[1..]);
      }
    }
  }

  /** Up-front windows change nothing about a source that backs the file. */
  lemma RecordSourceBacks(db: Db, content: bytes, offset: int)
    requires db.src.Backs(content)
    ensures db.RecordSource(offset).Backs(content)
  {
    hide Source.At, Source.Backs;
    if db.RecordSource(offset).Window? {
      var w := db.RecordSource(offset);
      if !db.inMemory && w != db.src {
        WindowBacksIff(offset, w.buf, db.src, content);
      }
    }
  }

  lemma SameMetadata(src: Source, content: bytes, floatToUint: Value -> nat)
    requires src.Backs(content)
    ensures ReadMetadata(src, floatToUint) == ReadMetadata(Memory(content), floatToUint)
  {
    hide Source.At, LastIndexOf, ParseMetadata, Decoder.Decode;
    assert MetadataStart(src) == MetadataStart(Memory(content));
    var start := MetadataStart(src);
    if start.Ok? {
      Interchange.DecodingIgnoresSource(src, content, start.value, start.value, [], 0);
    }
  }

  /**
   A database read from disk through a pinned search tree and record windows opens exactly when one
   held in memory does, with the same metadata, and answers every lookup alike.
   */
  lemma FileModeEqualsMemoryMode(content: bytes, floatToUint: Value -> nat)
    ensures OpenDb(content, true, floatToUint).Ok? <==> OpenDb(content, false, floatToUint).Ok?
    ensures OpenDb(content, true, floatToUint).Ok? ==>
              SameAnswers(OpenDb(content, true, floatToUint).value, OpenDb(content, false, floatToUint).value)
  {
    hide Source.At, SearchTree.Walk, ReadMetadata, Source.Backs, SameAnswers;
    FileBacks(content, None);
    MemoryBacks(content);
    SameMetadata(File(content, None, true), content, floatToUint);
    var meta := ReadMetadata(Memory(content), floatToUint);
    if meta.Ok? {
      var head := Some(content[..DataBase(meta.value)]);
      FileBacks(content, head);
      var a := Db(Memory(content), meta.value, None, true);
      var b := Db(File(content, head, true), meta.value, None, false);
      SameDbWalk(a, b, content, 0, Zeros(96));
      var x, y := OpenDb(content, true, floatToUint), OpenDb(content, false, floatToUint);
      if x.Ok? {
        DbsAgree(x.value, y.value, content);
      }
    }
  }

  lemma MemoryBacks(content: bytes)
    ensures Memory(content).Backs(content)
  {
  }

  /** The source of an opened database answers as the file it was opened from does. */
  lemma OpenedBacks(content: bytes, inMemory: bool, floatToUint: Value -> nat)
    requires OpenDb(content, inMemory, floatToUint).Ok?
    ensures OpenDb(content, inMemory, floatToUint).value.src.Backs(content)
  {
    hide Source.At, Source.Backs, SearchTree.Walk, MetadataStart, ParseMetadata, Decoder.Decode;
    MemoryBacks(content);
    var db := OpenDb(content, inMemory, floatToUint).value;
    if !inMemory {
      FileBacks(content, Some(content[..DataBase(db.meta)]));
    }
  }

  /** Two databases that answer every lookup alike. */
  ghost predicate SameAnswers(a: Db, b: Db)
  {
    && a.Valid() && b.Valid() && a.meta == b.meta && a.ipv4Start == b.ipv4Start
    && (forall ip :: a.LookupOffset(ip) == b.LookupOffset(ip))
    && (forall offset :: a.RecordAt(offset) == b.RecordAt(offset))
    && (forall offset, path :: a.ValueAt(offset, path) == b.ValueAt(offset, path))
  }

  lemma SameDbWalk(a: Db, b: Db, content: bytes, node: nat, bits: seq<bool>)
    requires a.src.Backs(content) && b.src.Backs(content) && a.meta == b.meta && IsRecordSize(a.meta.recordSize)
    ensures a.Tree().Walk(node, bits) == b.Tree().Walk(node, bits)
  {
    hide Source.At, SearchTree.Walk;
    SameWalk(a.Tree(), b.Tree(), node, bits);
  }

  lemma DbsAgree(a: Db, b: Db, content: bytes)
    requires a.src.Backs(content) && b.src.Backs(content) && a.meta == b.meta && a.ipv4Start == b.ipv4Start
    requires a.Valid() && b.Valid()
    ensures SameAnswers(a, b)
  {
    hide Source.At, SearchTree.Walk, Source.Backs, Db.RecordSource, Decoder.Decode, Decoder.ValueAt, Bits, To4;
    forall ip
      ensures a.LookupOffset(ip) == b.LookupOffset(ip)
    {
      if ip.Some? {
        var start := if a.ipv4Start.Some? then a.ipv4Start.value else 0;
        SameDbWalk(a, b, content, 0, Bits(ip.value));
        if To4(ip.value).Some? {
          SameDbWalk(a, b, content, start, Bits(To4(ip.value).value));
          SameDbWalk(a, b, content, 0, Bits(To4(ip.value).value));
        }
      }
    }
    forall offset, path
      ensures a.RecordAt(offset) == b.RecordAt(offset)
      ensures a.ValueAt(offset, path) == b.ValueAt(offset, path)
    {
      RecordSourceBacks(a, content, offset);
      RecordSourceBacks(b, content, offset);
      Interchange.DecodingIgnoresSource(a.RecordSource(offset), content, DataBase(a.meta), offset, path, 0);
      Interchange.DecodingIgnoresSource(b.RecordSource(offset), content, DataBase(b.meta), offset, path, 0);
    }
    forall offset
      ensures a.RecordAt(offset) == b.RecordAt(offset)
    {
      assert a.ValueAt(offset, []) == b.ValueAt(offset, []);
    }
  }

  // -------------------------------------------------------------------------
  // The reader object
  // -------------------------------------------------------------------------

  class Reader {
    const inMemory: bool
    const mem: MemSource
    const file: FileSource
    var meta: Metadata
    var nodeSize: nat
    var treeSize: nat
    var dataBase: nat
    var ipv4Start: Option<nat>

    /** A reader whose metadata has not been read yet. */
    constructor (inMemory: bool, mem: MemSource, file: FileSource)
      ensures this.inMemory == inMemory && this.mem == mem && this.file == file && ipv4Start == None
    {
      this.inMemory := inMemory;
      this.mem := mem;
      this.file := file;
      ipv4Start := None;
    }

    /** The source in use: the file's bytes in memory, or the open file. */
    function Src(): Source
      reads this, mem, file
    {
      if inMemory then mem.Snapshot() else file.Snapshot()
    }

    function View(): Db
      reads this, mem, file
    {
      Db(Src(), meta, ipv4Start, inMemory)
    }

    /** The derived fields follow from the metadata. */
    ghost predicate Consistent()
      reads this
    {
      nodeSize == meta.recordSize * 2 / 8 && treeSize == meta.nodeCount * nodeSize && dataBase == DataBase(meta)
    }

    method ReadMetadataFields(floatToUint: Value -> nat) returns (r: Result<()>)
      modifies this
      ensures ipv4Start == old(ipv4Start)
      ensures var want := ReadMetadata(Src(), floatToUint);
              if want.Ok? then r == Ok(()) && meta == want.value && Consistent() else r == Err(want.error)
    {
      hide Source.At, LastIndexOf, Decoder.Decode, ParseMetadata, OccursAt;
      var src := Src();
      if src.Size() < |METADATA_MARKER| {
        return Err(NoMetadata);
      }
      var window := if src.Size() < METADATA_MAX_SIZE then src.Size() else METADATA_MAX_SIZE;
      var start := src.Size() - window;
      var buf := src.At(start, window);
      if buf.Err? {
        return Err(buf.error);
      }
      var idx := FindLast(buf.value, METADATA_MARKER);
      if idx < 0 {
        return Err(NoMetadata);
      }
      var metaStart := start + idx + |METADATA_MARKER|;
      var raw := Decoder(src.Reads(), metaStart).DecodeValue(metaStart, 0);
      if raw.Err? {
        return Err(raw.error);
      }
      if !raw.value.value.Map? {
        return Err(NoMetadata);
      }
      var parsed := ParseMetadata(raw.value.value.m, floatToUint);
      if parsed.Err? {
        return Err(parsed.error);
      }
      if DataBase(parsed.value) > src.Size() {
        return Err(Unsupported);
      }
      meta := parsed.value;
      nodeSize := meta.recordSize * 2 / 8;
      treeSize := meta.nodeCount * nodeSize;
      dataBase := treeSize + SEPARATOR_SIZE;
      r := Ok(());
    }

    /** Nothing is left to read. */
    ghost predicate Released()
      reads this, mem, file
    {
      Src() == if inMemory then Memory([]) else File(file.disk, None, false)
    }

    /**
     Opens a database; a reader that is returned shows what `OpenDb` specifies, and any other has released its
     source.
     */
    static method Open(content: bytes, inMemory: bool, floatToUint: Value -> nat)
      returns (r: Result<Reader>, ghost made: Reader)
      ensures fresh({made as object, made.mem, made.file})
      ensures var want := OpenDb(content, inMemory, floatToUint);
              if want.Ok? then r == Ok(made) && made.View() == want.value && made.Consistent()
              else r == Err(want.error) && made.Released()
    {
      hide SearchTree.Walk, ReadMetadata, Source.At;
      var mem := new MemSource(content);
      var file := new FileSource(content);
      var reader := new Reader(inMemory, mem, file);
      made := reader;
      var read := reader.ReadMetadataFields(floatToUint);
      if read.Err? {
        reader.Close();
        r := Err(read.error);
        return;
      }
      if !inMemory {
        var loaded := file.LoadHead(reader.dataBase);
        assert loaded && file.head == Some(content[..DataBase(reader.meta)]);
      }
      assert reader.Src() ==
             if inMemory then Memory(content) else File(content, Some(content[..DataBase(reader.meta)]), true);
      if reader.meta.ipVersion == 6 {
        var start := SearchTree(reader.Src().Reads(), reader.meta.recordSize, reader.meta.nodeCount).FindIPv4Start();
        if start.Err? {
          reader.Close();
          r := Err(start.error);
          return;
        }
        reader.ipv4Start := Some(start.value);
      }
      r := Ok(reader);
    }

    /** Releases the bytes or the file handle; nothing inside the file can be read afterwards. */
    method Close()
      modifies if inMemory then {mem as object} else {file}
      ensures Released()
      ensures forall off, n :: n > 0 ==> Src().At(off, n).Err?
    {
      if inMemory {
        mem.Close();
      } else {
        file.Close();
      }
    }
  }
}
