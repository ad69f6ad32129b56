/** Which metadata blocks open a database, and what their entries come to. */
module MetadataForms {
  import opened Bytes
  import opened Sources
  import opened DataSection
  import opened Readers

  /** `v` is taken as the unsigned number `n`: negative numbers and what is no number count as zero. */
  predicate CountsAs(v: Value, n: nat)
  {
    match v
    case Uint(m) => n == m
    case Int(i) => (i <= 0 && n == 0) || i == n
    case Double(_) => true
    case Single(_) => true
    case _ => n == 0
  }

  lemma AsUintCounts(v: Value, floatToUint: Value -> nat)
    ensures CountsAs(v, AsUint(v, floatToUint))
    ensures v.Double? || v.Single? ==> AsUint(v, floatToUint) == floatToUint(v)
  {
  }

  /** The signed reading of 64 bits is the one number in range that agrees with the unsigned one. */
  lemma SignedIs(n: nat, i: int)
    ensures ToInt64(n) == i <==>
            -0x8000_0000_0000_0000 <= i < 0x8000_0000_0000_0000 && (n - i) % 0x1_0000_0000_0000_0000 == 0
  {
    var m := 0x1_0000_0000_0000_0000;
    assert n == m * (n / m) + n % m;
    if -0x8000_0000_0000_0000 <= i < 0x8000_0000_0000_0000 && (n - i) % m == 0 {
      var low := if i < 0 then i + m else i;
      var q := (n - i) / m + if i < 0 then -1 else 0;
      assert n == q * m + low;
      ModUnique(n, q, m, low);
    }
  }

  /** A string, and nothing for what is no string. */
  function TextOf(v: Value): bytes
  {
    match v
    case Str(s) => s
    case _ => []
  }

  /** The text of each item, nothing for what is no string. */
  function TextsOf(items: seq<Value>): (texts: seq<bytes>)
    ensures |texts| == |items|
    ensures forall i :: 0 <= i < |items| ==> texts[i] == if items[i].Str? then items[i].s else []
  {
    seq(|items|, i requires 0 <= i < |items| => if items[i].Str? then items[i].s else [])
  }

  /** The strings of a list, without the empty ones and what is no string. */
  lemma {:induction false} StringsAreKept(items: seq<Value>) returns (chosen: seq<nat>)
    ensures Kept(TextsOf(items), chosen, Strings(items))
    decreases |items|
  {
    hide Kept;
    if items == [] {
      NoneKept();
      chosen := [];
    } else {
      var rest := items[1..];
      var own := TextsOf(items)[0];
      chosen := StringsAreKept(rest);
      assert TextsOf(items) == [own] + TextsOf(rest);
      if own == [] {
        KeptWithout(TextsOf(rest), chosen, Strings(rest));
        assert Strings(items) == Strings(rest);
        chosen := Shifted(chosen);
      } else {
        KeptWith(own, TextsOf(rest), chosen, Strings(rest));
        chosen := [0] + Shifted(chosen);
      }
    }
  }

  /** The value of an entry, nil when it is missing. */
  function EntryOf(m: map<bytes, Value>, key: bytes): Value
  {
    if key in m then m[key] else Nil
  }

  /**
   A block is accepted exactly when its record size is 24, 28 or 32 bits, the low 32 bits of its node count are
   not zero, and its versions, as signed numbers, are 4 or 6 and 2.
   */
  lemma AcceptedIff(m: map<bytes, Value>, floatToUint: Value -> nat)
    ensures ParseMetadata(m, floatToUint).Ok? <==>
            && AsUint(EntryOf(m, RECORD_SIZE), floatToUint) in {24, 28, 32}
            && AsUint(EntryOf(m, NODE_COUNT), floatToUint) % 0x1_0000_0000 > 0
            && ToInt64(AsUint(EntryOf(m, IP_VERSION), floatToUint)) in {4, 6}
            && ToInt64(AsUint(EntryOf(m, MAJOR_VERSION), floatToUint)) == 2
  {
    hide Ascii, AsUint, ToInt64, AsStringMap, AsStringSlice, AsString;
  }

  /** What an accepted block says, entry by entry. */
  lemma AcceptedMeans(m: map<bytes, Value>, floatToUint: Value -> nat)
    requires ParseMetadata(m, floatToUint).Ok?
    ensures var meta := ParseMetadata(m, floatToUint).value;
            && meta.recordSize == AsUint(EntryOf(m, RECORD_SIZE), floatToUint)
            && meta.nodeCount == AsUint(EntryOf(m, NODE_COUNT), floatToUint) % 0x1_0000_0000
            && meta.ipVersion == ToInt64(AsUint(EntryOf(m, IP_VERSION), floatToUint))
            && meta.majorVersion == ToInt64(AsUint(EntryOf(m, MAJOR_VERSION), floatToUint))
            && meta.minorVersion == ToInt64(AsUint(EntryOf(m, MINOR_VERSION), floatToUint))
            && meta.buildEpoch == ToInt64(AsUint(EntryOf(m, BUILD_EPOCH), floatToUint))
            && meta.databaseType == TextOf(EntryOf(m, DATABASE_TYPE))
            && (if EntryOf(m, LANGUAGES).List? then meta.languages == Some(Strings(EntryOf(m, LANGUAGES).items))
                else meta.languages == None)
            && (if EntryOf(m, DESCRIPTION).Map? then
                  var d := EntryOf(m, DESCRIPTION).m;
                  && meta.description.Some? && meta.description.value.Keys == d.Keys
                  && forall key :: key in d ==> meta.description.value[key] == TextOf(d[key])
                else meta.description == None)
  {
    hide Ascii, AsUint, ToInt64, Strings;
  }

  /**
   A file in memory opens exactly when its last marker, within its last 128 KiB, is followed by an accepted map
   whose search tree and separator fit in the file.
   */
  lemma MetadataReadIff(file: bytes, floatToUint: Value -> nat, start: int)
    requires 14 <= start <= |file| && start - 14 >= |file| - 131072
    requires OccursAt(file, [0xAB, 0xCD, 0xEF] + Ascii("MaxMind.com"), start - 14)
    requires forall i :: start - 14 < i ==> !OccursAt(file, [0xAB, 0xCD, 0xEF] + Ascii("MaxMind.com"), i)
    ensures var block := Decoder(Memory(file).Reads(), start).Decode(start, 0);
            ReadMetadata(Memory(file), floatToUint).Ok? <==>
            && block.Ok? && block.value.value.Map? && ParseMetadata(block.value.value.m, floatToUint).Ok?
            && var meta := ParseMetadata(block.value.value.m, floatToUint).value;
               meta.nodeCount * (meta.recordSize / 4) + 16 <= |file|
    ensures var block := Decoder(Memory(file).Reads(), start).Decode(start, 0);
            ReadMetadata(Memory(file), floatToUint).Ok? ==>
              ReadMetadata(Memory(file), floatToUint) == ParseMetadata(block.value.value.m, floatToUint)
  {
    hide Decoder.Decode, ParseMetadata, OccursAt;
    MarkerSpelled();
    MarkerIsStart(file, start);
  }

  lemma MarkerSpelled()
    ensures METADATA_MARKER == [0xAB, 0xCD, 0xEF] + Ascii("MaxMind.com")
  {
  }

  lemma MarkerIsStart(file: bytes, start: int)
    requires 14 <= start <= |file| && start - 14 >= |file| - 131072
    requires OccursAt(file, METADATA_MARKER, start - 14)
    requires forall i :: start - 14 < i ==> !OccursAt(file, METADATA_MARKER, i)
    ensures MetadataStart(Memory(file)) == Ok(start)
  {
    hide OccursAt;
    var from := if |file| < METADATA_MAX_SIZE then 0 else |file| - METADATA_MAX_SIZE;
    var buf := file[from..];
    var n, at := |METADATA_MARKER|, start - 14 - from;
    assert file[from..|file|] == buf;
    LastFromIsLast(buf, METADATA_MARKER, |buf| - n);
    OccursInTail(file, from, at);
    var idx := LastFrom(buf, METADATA_MARKER, |buf| - n);
    assert idx >= at;
    OccursInTail(file, from, idx);
  }

  lemma OccursInTail(file: bytes, from: nat, i: nat)
    requires from <= |file|
    ensures OccursAt(file[from..], METADATA_MARKER, i) <==> OccursAt(file, METADATA_MARKER, from + i)
    ensures OccursAt(file, METADATA_MARKER, from + i) ==> i + |METADATA_MARKER| <= |file| - from
  {
    var n := |METADATA_MARKER|;
    if from + i + n <= |file| {
      SliceOfSlice(file, from, |file|, i, i + n);
      assert file[from..] == file[from..|file|];
    }
  }
}
