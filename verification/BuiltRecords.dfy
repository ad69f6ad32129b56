/** The records of written databases meet the conditions of targeted access: no map in them repeats a key. */
module BuiltRecords {
  import opened Bytes
  import opened DataSection
  import opened Grammar
  import opened FixtureEncoder
  import opened RoundTrip
  import opened Readers
  import opened BuiltDatabase
  import opened EndToEnd
  import opened Fields
  import opened Provider
  import opened Seeking

  /** Looking for a key among encoded pairs finds the encoding of its value, if the key is there. */
  lemma {:induction false} FirstEntryOf(v: Fixture, keys: seq<bytes>, cur: int, key: bytes) returns (at: int)
    requires v.FMap? && EncodePairs(v, keys).Some?
    ensures FirstEntry(EntriesOf(v, keys, cur), key).Some? <==> key in keys
    ensures key in keys ==>
              key in v.m && Encode(v.m[key]).Some? &&
              FirstEntry(EntriesOf(v, keys, cur), key) == Some(TreeOf(v.m[key], at))
    decreases |keys|
  {
    hide Encode, EncodeKey, TreeOf;
    at := 0;
    if keys != [] {
      var valueAt := cur + |EncodeKey(keys[0]).value|;
      if keys[0] == key {
        at := valueAt;
      } else {
        at := FirstEntryOf(v, keys[1..], valueAt + |Encode(v.m[keys[0]]).value|, key);
      }
    }
  }

  lemma {:induction false} EncodedKeysUnique(v: Fixture, keys: seq<bytes>, cur: int)
    requires v.FMap? && EncodePairs(v, keys).Some?
    requires forall i, j :: 0 <= i < j < |keys| ==> keys[i] != keys[j]
    ensures KeysUnique(EntriesOf(v, keys, cur))
    decreases |keys|
  {
    hide Encode, EncodeKey, TreeOf;
    if keys != [] {
      var rest := keys[1..];
      var next := cur + |EncodeKey(keys[0]).value| + |Encode(v.m[keys[0]]).value|;
      assert forall i :: 0 <= i < |rest| ==> rest[i] == keys[i + 1];
      EncodedKeysUnique(v, rest, next);
      var at := FirstEntryOf(v, rest, next, keys[0]);
    }
  }

  /** No map on any path through an encoded value repeats a key. */
  lemma {:induction false} EncodedPathsUnique(v: Fixture, off: int, path: seq<bytes>)
    requires Encode(v).Some?
    ensures KeysUniqueOnPath(TreeOf(v, off), path)
    decreases |path|
  {
    hide Control, EncodePairs, EncodeItems, EncodeUint, Sorted, EntriesOf, ItemsOf, FirstEntry, KeysUnique;
    if path != [] && v.FMap? {
      var keys := Sorted(v.m.Keys);
      var cur := off + |Control(TYPE_MAP, |v.m|).value|;
      forall i, j | 0 <= i < j < |keys|
        ensures keys[i] != keys[j]
      {
        SortedOrder(v.m.Keys, i, j);
      }
      EncodedKeysUnique(v, keys, cur);
      var at := FirstEntryOf(v, keys, cur, path[0]);
      if path[0] in keys {
        EncodedPathsUnique(v.m[path[0]], at, path[1..]);
      }
    }
  }

  /** Every record of a written database, in memory or on disk, can be read at every path by either strategy alike. */
  lemma BuiltRecordReadable(r: Recipe, db: Db, i: nat, path: bytes)
    requires r.Valid() && Sound(r) && i < |r.entries| && IsBuilt(r, db)
    ensures ReadableAt(Place(db, BaseOf(r) + r.Offset(i)), path)
  {
    hide Recipe.Nodes, FileOf, CountOf, Sound, Encode, TreeOf, KeysUniqueOnPath, RepeatsAgree, Split, Decoder.Decode,
         Derives,
         Recipe.Offset, WellTyped, Holds, Db.RecordDecoder, IsBuilt;
    var off := BaseOf(r) + r.Offset(i);
    var v := r.entries[i].data;
    RecordRead(r, db, i);
    var d := db.RecordDecoder(off);
    SoundRecord(r, i);
    RecordHeldByDb(r, db, i);
    EncodingDerives(d, off, v);
    Unambiguous(d, TreeAt(d, off), TreeOf(v, off));
    EncodedPathsUnique(v, off, Split(path, DOT));
    UniqueIsReadable(Place(db, off), path);
  }

  /** A written file opens, in memory or from disk, and leads every address with a record to one that can be read. */
  lemma BuiltLookupReadable(r: Recipe, inMemory: bool, floatToUint: Value -> nat, ip: bytes)
    requires r.Valid() && Sound(r) && (|ip| == 4 || |ip| == 16)
    ensures OpenDb(FileOf(r), inMemory, floatToUint).Ok?
    ensures var db := OpenDb(FileOf(r), inMemory, floatToUint).value; var offset := db.LookupOffset(Some(ip));
            && offset.Ok?
            && (offset.value.Some? ==> forall path :: ReadableAt(Place(db, offset.value.value), path))
  {
    hide *;
    OpensBuilt(r, inMemory, floatToUint);
    var db := OpenDb(FileOf(r), inMemory, floatToUint).value;
    var i := LookupOffsetBuilt(r, inMemory, floatToUint, ip);
    var offset := db.LookupOffset(Some(ip));
    if offset.Ok? && offset.value.Some? {
      forall path
        ensures ReadableAt(Place(db, offset.value.value), path)
      {
        BuiltRecordReadable(r, db, i, path);
      }
    }
  }

  // -------------------------------------------------------------------------
  // Layered written databases
  // -------------------------------------------------------------------------

  /** Each database was opened from a written file, held in memory or read from disk. */
  ghost predicate AllWritten(rs: seq<Recipe>, modes: seq<bool>, dbs: seq<Db>, floatToUint: Value -> nat)
  {
    && |rs| == |modes| == |dbs|
    && forall i :: 0 <= i < |rs| ==>
         rs[i].Valid() && Sound(rs[i]) && OpenDb(FileOf(rs[i]), modes[i], floatToUint) == Ok(dbs[i]) && dbs[i].Valid()
  }

  /** No walk fails, and every record found can be read. */
  lemma {:induction false} WrittenPlaces(rs: seq<Recipe>, modes: seq<bool>, dbs: seq<Db>, floatToUint: Value -> nat,
                                         ip: bytes)
    requires AllWritten(rs, modes, dbs, floatToUint) && (|ip| == 4 || |ip| == 16)
    ensures FirstError(dbs, Some(ip)).None?
    ensures forall i, path :: 0 <= i < |Places(dbs, Some(ip))| ==> ReadableAt(Places(dbs, Some(ip))[i], path)
    decreases |dbs|
  {
    hide Sound, FileOf, OpenDb, Db.LookupOffset, Db.Valid, ReadableAt;
    if dbs != [] {
      BuiltLookupReadable(rs[0], modes[0], floatToUint, ip);
      var rest := dbs[1..];
      assert AllWritten(rs[1..], modes[1..], rest, floatToUint) by {
        assert forall i :: 0 <= i < |rest| ==>
                 rest[i] == dbs[i + 1] && rs[1..][i] == rs[i + 1] && modes[1..][i] == modes[i + 1];
      }
      WrittenPlaces(rs[1..], modes[1..], rest, floatToUint, ip);
    }
  }

  lemma WrittenReadable(rs: seq<Recipe>, modes: seq<bool>, dbs: seq<Db>, floatToUint: Value -> nat, ip: bytes,
                        def: FieldDef)
    requires AllWritten(rs, modes, dbs, floatToUint) && (|ip| == 4 || |ip| == 16)
    ensures (forall i :: 0 <= i < |dbs| ==> dbs[i].Valid()) && Readable(Places(dbs, Some(ip)), def)
  {
    hide Sound, FileOf, OpenDb, Places, FirstError, Db.Valid, ReadableAt, PathsOf;
    WrittenPlaces(rs, modes, dbs, floatToUint, ip);
  }

  /** Over written databases a lookup gives the same answer whichever strategy was picked, and never fails. */
  lemma WrittenStrategiesAgree(rs: seq<Recipe>, modes: seq<bool>, dbs: seq<Db>, floatToUint: Value -> nat, f: Formatter,
                               ip: bytes, fields: seq<FieldDef>)
    requires AllWritten(rs, modes, dbs, floatToUint) && (|ip| == 4 || |ip| == 16)
    ensures forall i :: 0 <= i < |dbs| ==> dbs[i].Valid()
    ensures Lookup(dbs, true, f, Some(ip), fields) == Lookup(dbs, false, f, Some(ip), fields)
    ensures Lookup(dbs, true, f, Some(ip), fields).error.None?
  {
    hide Sound, FileOf, OpenDb, Places, FirstError, Db.Valid, Readable, ExtractFields;
    WrittenPlaces(rs, modes, dbs, floatToUint, ip);
    forall i | 0 <= i < |fields|
      ensures Readable(Places(dbs, Some(ip)), fields[i])
    {
      WrittenReadable(rs, modes, dbs, floatToUint, ip, fields[i]);
    }
    StrategiesAgree(dbs, f, Some(ip), fields);
  }
}
