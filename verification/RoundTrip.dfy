/** Decoding an encoded fixture gives the value back and ends exactly where its encoding ends. */
module RoundTrip {
  import opened Bytes
  import opened DataSection
  import opened FixtureEncoder
  import opened Grammar

  predicate Within(bs: bytes, i: int, n: int)
  {
    0 <= i && 0 <= n && i + n <= |bs|
  }

  /** The decoder reads `bs` at `off`. */
  ghost predicate Holds(d: Decoder, off: int, bs: bytes)
  {
    forall i, n {:trigger Within(bs, i, n)} :: Within(bs, i, n) ==> d.at(off + i, n) == Ok(bs[i..i + n])
  }

  lemma HoldsPart(d: Decoder, off: int, bs: bytes, i: int, n: int)
    requires Holds(d, off, bs) && 0 <= i && 0 <= n && i + n <= |bs|
    ensures d.at(off + i, n) == Ok(bs[i..i + n])
  {
    assert Within(bs, i, n);
  }

  lemma HoldsParts(d: Decoder, off: int, a: bytes, b: bytes)
    requires Holds(d, off, a + b)
    ensures Holds(d, off, a) && Holds(d, off + |a|, b)
  {
    forall i, n | Within(a, i, n)
      ensures d.at(off + i, n) == Ok(a[i..i + n])
    {
      HoldsPart(d, off, a + b, i, n);
      assert (a + b)[i..i + n] == a[i..i + n];
    }
    forall i, n | Within(b, i, n)
      ensures d.at(off + |a| + i, n) == Ok(b[i..i + n])
    {
      HoldsPart(d, off, a + b, |a| + i, n);
      assert (a + b)[|a| + i..|a| + i + n] == b[i..i + n];
    }
  }

  lemma HoldsAll(d: Decoder, off: int, bs: bytes)
    requires Holds(d, off, bs)
    ensures d.at(off, |bs|) == Ok(bs)
  {
    HoldsPart(d, off, bs, 0, |bs|);
    assert bs[0..|bs|] == bs;
  }

  lemma SizeExtraExact(size: nat)
    requires size < 65821
    ensures 285 <= size ==> BigEndian(SizeExtra(size)) == size - 285 && |SizeExtra(size)| == 2
    ensures 29 <= size < 285 ==> BigEndian(SizeExtra(size)) == size - 29 && |SizeExtra(size)| == 1
  {
    Pow256Values();
    if size >= 285 {
      FixedBytesExact(size - 285, 2);
    } else if size >= 29 {
      FixedBytesExact(size - 29, 1);
    }
  }

  lemma SizeRoundTrip(d: Decoder, off: int, size: nat)
    requires size < 65821 && d.at(off, |SizeExtra(size)|) == Ok(SizeExtra(size))
    ensures d.DecodeSize(SizeBits(size), off) == Ok((size, off + |SizeExtra(size)|))
  {
    SizeExtraExact(size);
  }

  lemma HeadFromBytes(d: Decoder, off: int, kind: nat, sizeBits: byte)
    requires 1 < kind < 16 && sizeBits < 32
    requires d.at(off, 1) == Ok(KindBytes(kind, sizeBits)[0..1])
    requires kind > 7 ==> d.at(off + 1, 1) == Ok(KindBytes(kind, sizeBits)[1..2])
    ensures var sized := d.DecodeSize(sizeBits, off + |KindBytes(kind, sizeBits)|);
            d.ReadHead(off) == if sized.Ok? then Ok(Data(kind, sized.value.0, sized.value.1)) else Err(sized.error)
  {
    var c := KindBytes(kind, sizeBits)[0];
    if kind <= 7 {
      assert c / 32 == kind && c % 32 == sizeBits;
    } else {
      assert c / 32 == 0 && c % 32 == sizeBits;
    }
  }

  lemma ControlRoundTrip(d: Decoder, off: int, kind: nat, size: nat)
    requires 1 < kind < 16 && Control(kind, size).Some?
    requires Holds(d, off, Control(kind, size).value)
    ensures d.ReadHead(off) == Ok(Data(kind, size, off + |Control(kind, size).value|))
  {
    var start := KindBytes(kind, SizeBits(size));
    HoldsParts(d, off, start, SizeExtra(size));
    HoldsAll(d, off + |start|, SizeExtra(size));
    SizeRoundTrip(d, off + |start|, size);
    HoldsPart(d, off, start, 0, 1);
    if kind > 7 {
      HoldsPart(d, off, start, 1, 1);
    }
    HeadFromBytes(d, off, kind, SizeBits(size));
  }

  // -------------------------------------------------------------------------
  // Values that hold no other value
  // -------------------------------------------------------------------------

  lemma PayloadReadable(d: Decoder, off: int, kind: nat, body: bytes)
    requires 1 < kind < 16 && Control(kind, |body|).Some?
    requires Holds(d, off, Control(kind, |body|).value + body)
    ensures var start := off + |Control(kind, |body|).value|;
            d.ReadHead(off) == Ok(Data(kind, |body|, start)) && d.at(start, |body|) == Ok(body)
  {
    var head := Control(kind, |body|).value;
    HoldsParts(d, off, head, body);
    ControlRoundTrip(d, off, kind, |body|);
    HoldsAll(d, off + |head|, body);
  }

  /** The derivation of a value without children, from its head and its content. */
  lemma LeafDerives(d: Decoder, off: int, h: Head, r: Decoded)
    requires d.ReadHead(off) == Ok(h) && h.Data? && h.kind != TYPE_MAP && h.kind != TYPE_ARRAY
    requires d.DecodeScalar(h.kind, h.size, h.body) == Ok(r)
    ensures Derives(d, Leaf(off, r.next, r.value))
  {
  }

  lemma StringDerives(d: Decoder, off: int, s: bytes)
    requires EncodeKey(s).Some? && Holds(d, off, EncodeKey(s).value)
    ensures Derives(d, Leaf(off, off + |EncodeKey(s).value|, Str(s)))
  {
    hide Decoder.ReadHead, Decoder.DecodePointer, SizeBits, SizeExtra, KindBytes;
    PayloadReadable(d, off, TYPE_STRING, s);
    var h := d.ReadHead(off).value;
    LeafDerives(d, off, h, Decoded(Str(s), h.body + |s|));
  }

  lemma BoolDerives(d: Decoder, off: int, b: bool)
    requires Holds(d, off, Encode(FBool(b)).value)
    ensures Derives(d, Leaf(off, off + |Encode(FBool(b)).value|, Bool(b)))
  {
    hide Decoder.ReadHead, Decoder.DecodePointer, SizeBits, SizeExtra, KindBytes;
    ControlRoundTrip(d, off, TYPE_BOOL, if b then 1 else 0);
    var h := d.ReadHead(off).value;
    LeafDerives(d, off, h, Decoded(Bool(b), h.body));
  }

  lemma ReadUintBack(d: Decoder, off: int, v: nat)
    requires v < TWO_64 && d.at(off, |MinimalBytes(v)|) == Ok(MinimalBytes(v))
    ensures d.ReadUint(off, |MinimalBytes(v)|) == Ok(v)
  {
    Pow256Values();
    MinimalBytesLength(v, 8);
  }

  lemma UintDerives(d: Decoder, off: int, kind: nat, v: nat)
    requires kind == TYPE_UINT16 || kind == TYPE_UINT32 || kind == TYPE_UINT64
    requires v < TWO_64 && EncodeUint(kind, v).Some? && Holds(d, off, EncodeUint(kind, v).value)
    ensures Derives(d, Leaf(off, off + |EncodeUint(kind, v).value|, Uint(v)))
  {
    hide Decoder.ReadHead, Decoder.ReadUint, Decoder.DecodePointer, Control, MinimalBytes;
    PayloadReadable(d, off, kind, MinimalBytes(v));
    var h := d.ReadHead(off).value;
    ReadUintBack(d, h.body, v);
    LeafDerives(d, off, h, Decoded(Uint(v), h.body + h.size));
  }

  /** The value of a fixed width number from its bytes. */
  function FixedValue(kind: nat, v: nat): Value
  {
    if kind == TYPE_DOUBLE then Double(v) else if kind == TYPE_FLOAT then Single(v) else Int(SignExtend32(v))
  }

  lemma FixedDerives(d: Decoder, off: int, kind: nat, v: nat, n: nat)
    requires (kind == TYPE_DOUBLE && n == 8) || (kind == TYPE_FLOAT && n == 4) || (kind == TYPE_INT32 && n == 4)
    requires v < (if n == 8 then TWO_64 else TWO_32) && Control(kind, n).Some?
    requires Holds(d, off, Control(kind, n).value + FixedBytes(v, n))
    ensures Derives(d, Leaf(off, off + |Control(kind, n).value| + n, FixedValue(kind, v)))
  {
    hide Decoder.ReadHead, Decoder.DecodePointer, Control, FixedBytes;
    Pow256Values();
    PayloadReadable(d, off, kind, FixedBytes(v, n));
    FixedBytesExact(v, n);
    var h := d.ReadHead(off).value;
    LeafDerives(d, off, h, Decoded(FixedValue(kind, v), h.body + n));
  }

  lemma Int32Derives(d: Decoder, off: int, i: int)
    requires -0x8000_0000 <= i < 0x8000_0000 && Holds(d, off, Encode(FInt32(i)).value)
    ensures Derives(d, Leaf(off, off + |Encode(FInt32(i)).value|, Int(i)))
  {
    hide KindBytes, SizeExtra, FixedBytes, Holds, Derives;
    var low: nat := if i < 0 then i + TWO_32 else i;
    assert i % TWO_32 == low && SignExtend32(low) == i;
    FixedDerives(d, off, TYPE_INT32, low, 4);
  }

  lemma ScalarDerives(d: Decoder, off: int, v: Fixture)
    requires !v.FList? && !v.FMap? && WellTyped(v)
    requires Encode(v).Some? && Holds(d, off, Encode(v).value)
    ensures Derives(d, Leaf(off, off + |Encode(v).value|, Normalised(v)))
  {
    hide Decoder.ReadHead, Decoder.DecodePointer, Decoder.DecodeScalar, Holds, Height, Control, FixedBytes,
         MinimalBytes, Nesting;
    match v
    case FString(s) => StringDerives(d, off, s);
    case FBool(b) => BoolDerives(d, off, b);
    case FFloat64(bits) => FixedDerives(d, off, TYPE_DOUBLE, bits, 8);
    case FFloat32(bits) => FixedDerives(d, off, TYPE_FLOAT, bits, 4);
    case FUint16(n) => UintDerives(d, off, TYPE_UINT16, n);
    case FUint32(n) => UintDerives(d, off, TYPE_UINT32, n);
    case FUint64(n) => UintDerives(d, off, TYPE_UINT64, n);
    case FInt(i) => UintDerives(d, off, TYPE_UINT32, i % TWO_64);
    case FInt32(i) => Int32Derives(d, off, i);
  }

  // -------------------------------------------------------------------------
  // The derivation that an encoding is
  // -------------------------------------------------------------------------

  function TreeOf(v: Fixture, off: int): (t: Tree)
    requires Encode(v).Some?
    ensures t.start == off && t.next == off + |Encode(v).value|
    decreases v, 1
  {
    var next := off + |Encode(v).value|;
    match v
    case FList(items) => Array(off, next, ItemsOf(items, off + |Control(TYPE_ARRAY, |items|).value|))
    case FMap(m) => Dict(off, next, EntriesOf(v, Sorted(m.Keys), off + |Control(TYPE_MAP, |m|).value|))
    case _ => Leaf(off, next, Normalised(v))
  }

  function ItemsOf(items: seq<Fixture>, cur: int): (r: Items)
    requires EncodeItems(items).Some?
    ensures Length(r) == |items|
    decreases items, 0
  {
    if items == [] then NoItems
    else Item(TreeOf(items[0], cur), ItemsOf(items[1..], cur + |Encode(items[0]).value|))
  }

  function EntriesOf(v: Fixture, keys: seq<bytes>, cur: int): (r: Entries)
    requires v.FMap? && EncodePairs(v, keys).Some?
    ensures Count(r) == |keys|
    decreases v, 0, |keys|
  {
    if keys == [] then NoEntries
    else
      var valueAt := cur + |EncodeKey(keys[0]).value|;
      Entry(Leaf(cur, valueAt, Str(keys[0])), TreeOf(v.m[keys[0]], valueAt),
            EntriesOf(v, keys[1..], valueAt + |Encode(v.m[keys[0]]).value|))
  }

  lemma {:induction false} EncodingDerives(d: Decoder, off: int, v: Fixture)
    requires WellTyped(v) && Encode(v).Some? && Holds(d, off, Encode(v).value)
    ensures Derives(d, TreeOf(v, off))
    decreases v, 2
  {
    hide Decoder.ReadHead, Control, Sorted, Encode, Holds, Derives;
    if v.FList? {
      ListDerives(d, off, v);
    } else if v.FMap? {
      MapDerives(d, off, v);
    } else {
      ScalarDerives(d, off, v);
    }
  }

  lemma {:induction false} ListDerives(d: Decoder, off: int, v: Fixture)
    requires v.FList? && WellTyped(v) && Encode(v).Some? && Holds(d, off, Encode(v).value)
    ensures Derives(d, TreeOf(v, off))
    decreases v, 1
  {
    hide Decoder.ReadHead, Decoder.DecodePointer, Decoder.DecodeScalar, Control, Normalised, Height, Denotes, Holds;
    var head, body := Control(TYPE_ARRAY, |v.items|).value, EncodeItems(v.items).value;
    assert Encode(v).value == head + body;
    HoldsParts(d, off, head, body);
    ControlRoundTrip(d, off, TYPE_ARRAY, |v.items|);
    ItemsDerive(d, off + |head|, v.items);
  }

  lemma {:induction false} ItemsDerive(d: Decoder, cur: int, items: seq<Fixture>)
    requires forall i :: 0 <= i < |items| ==> WellTyped(items[i])
    requires EncodeItems(items).Some? && Holds(d, cur, EncodeItems(items).value)
    ensures DeriveItems(d, ItemsOf(items, cur), cur, cur + |EncodeItems(items).value|)
    decreases items, 0
  {
    hide Decoder.ReadHead, Decoder.DecodePointer, Decoder.DecodeScalar, Control, Normalised, Height, Denotes, Holds;
    if items != [] {
      var head, rest := Encode(items[0]).value, EncodeItems(items[1..]).value;
      HoldsParts(d, cur, head, rest);
      EncodingDerives(d, cur, items[0]);
      ItemsDerive(d, cur + |head|, items[1..]);
      assert ItemsOf(items, cur) == Item(TreeOf(items[0], cur), ItemsOf(items[1..], cur + |head|));
    }
  }

  lemma {:induction false} MapDerives(d: Decoder, off: int, v: Fixture)
    requires v.FMap? && WellTyped(v) && Encode(v).Some? && Holds(d, off, Encode(v).value)
    ensures Derives(d, TreeOf(v, off))
    decreases v, 1
  {
    hide Decoder.ReadHead, Decoder.DecodePointer, Decoder.DecodeScalar, Control, Normalised, Sorted, EncodeKey,
         Height, Denotes, Holds;
    var head, body := Control(TYPE_MAP, |v.m|).value, EncodePairs(v, Sorted(v.m.Keys)).value;
    assert |v.m| == |v.m.Keys|;
    assert Encode(v).value == head + body;
    HoldsParts(d, off, head, body);
    ControlRoundTrip(d, off, TYPE_MAP, |v.m|);
    PairsDerive(d, off + |head|, v, Sorted(v.m.Keys));
  }

  lemma {:induction false} PairsDerive(d: Decoder, cur: int, v: Fixture, keys: seq<bytes>)
    requires v.FMap? && WellTyped(v)
    requires EncodePairs(v, keys).Some? && Holds(d, cur, EncodePairs(v, keys).value)
    ensures DeriveEntries(d, EntriesOf(v, keys, cur), cur, cur + |EncodePairs(v, keys).value|)
    decreases v, 0, |keys|
  {
    hide Decoder.ReadHead, Decoder.DecodePointer, Decoder.DecodeScalar, Control, Encode, EncodeKey, TreeOf,
         Normalised, Sorted, Height, Holds;
    if keys != [] {
      var k := keys[0];
      var key, value, rest := EncodeKey(k).value, Encode(v.m[k]).value, EncodePairs(v, keys[1..]).value;
      HoldsParts(d, cur, key + value, rest);
      HoldsParts(d, cur, key, value);
      StringDerives(d, cur, k);
      EncodingDerives(d, cur + |key|, v.m[k]);
      PairsDerive(d, cur + |key| + |value|, v, keys[1..]);
      assert EntriesOf(v, keys, cur) == Entry(Leaf(cur, cur + |key|, Str(k)), TreeOf(v.m[k], cur + |key|),
                                              EntriesOf(v, keys[1..], cur + |key| + |value|));
    }
  }

  // -------------------------------------------------------------------------
  // What the derivation denotes
  // -------------------------------------------------------------------------

  function NormalisedAll(items: seq<Fixture>): seq<Value>
  {
    seq(|items|, i requires 0 <= i < |items| => Normalised(items[i]))
  }

  /** Adding the pairs of a map one key after another. */
  function AddAll(acc: map<bytes, Value>, v: Fixture, keys: seq<bytes>): map<bytes, Value>
    requires v.FMap? && forall k :: k in keys ==> k in v.m
    decreases |keys|
  {
    if keys == [] then acc else AddAll(acc[keys[0] := Normalised(v.m[keys[0]])], v, keys[1..])
  }

  lemma {:induction false} AddAllContents(acc: map<bytes, Value>, v: Fixture, keys: seq<bytes>, k: bytes)
    requires v.FMap? && forall k :: k in keys ==> k in v.m
    ensures k in AddAll(acc, v, keys) <==> k in acc || k in keys
    ensures k in keys ==> AddAll(acc, v, keys)[k] == Normalised(v.m[k])
    ensures k !in keys && k in acc ==> AddAll(acc, v, keys)[k] == acc[k]
    decreases |keys|
  {
    hide Normalised;
    if keys != [] {
      AddAllContents(acc[keys[0] := Normalised(v.m[keys[0]])], v, keys[1..], k);
    }
  }

  lemma AddAllSorted(v: Fixture)
    requires v.FMap?
    ensures forall k :: k in Sorted(v.m.Keys) ==> k in v.m
    ensures Map(AddAll(map[], v, Sorted(v.m.Keys))) == Normalised(v)
  {
    hide Sorted, AddAll;
    var keys := Sorted(v.m.Keys);
    SortedMembers(v.m.Keys);
    var all := AddAll(map[], v, keys);
    var want := map k | k in v.m :: Normalised(v.m[k]);
    forall k
      ensures k in all <==> k in want
      ensures k in all ==> all[k] == want[k]
    {
      AddAllContents(map[], v, keys, k);
    }
    assert all == want;
  }

  lemma {:induction false} TreeDenotes(v: Fixture, off: int)
    requires Encode(v).Some?
    ensures Denotes(TreeOf(v, off)) == Normalised(v)
    ensures Height(TreeOf(v, off)) == Nesting(v)
    decreases v, 2
  {
    hide Sorted, Control, EncodeUint, EncodeKey;
    if v.FList? {
      ListDenotes(v, off);
    } else if v.FMap? {
      MapDenotes(v, off);
    }
  }

  lemma {:induction false} ListDenotes(v: Fixture, off: int)
    requires v.FList? && Encode(v).Some?
    ensures Denotes(TreeOf(v, off)) == Normalised(v)
    ensures Height(TreeOf(v, off)) == Nesting(v)
    decreases v, 1
  {
    hide Sorted, Control, EncodeUint, EncodeKey;
    ItemsDenote(v.items, off + |Control(TYPE_ARRAY, |v.items|).value|);
    assert Normalised(v) == List(NormalisedAll(v.items));
  }

  lemma {:induction false} MapDenotes(v: Fixture, off: int)
    requires v.FMap? && Encode(v).Some?
    ensures Denotes(TreeOf(v, off)) == Normalised(v)
    ensures Height(TreeOf(v, off)) == Nesting(v)
    decreases v, 1
  {
    hide Sorted, Control, EncodeUint, EncodeKey, EncodePairs, EntriesOf, AddAll, Normalised, Collect, PairsNesting;
    var keys, body := Sorted(v.m.Keys), off + |Control(TYPE_MAP, |v.m|).value|;
    assert TreeOf(v, off).entries == EntriesOf(v, keys, body);
    AddAllSorted(v);
    PairsDenote(v, keys, body, map[]);
  }

  lemma {:induction false} ItemsDenote(items: seq<Fixture>, cur: int)
    requires EncodeItems(items).Some?
    ensures Denoted(ItemsOf(items, cur)) == NormalisedAll(items)
    ensures ItemsHeight(ItemsOf(items, cur)) == ItemsNesting(items)
    decreases items, 0
  {
    hide Control, Normalised;
    if items != [] {
      TreeDenotes(items[0], cur);
      ItemsDenote(items[1..], cur + |Encode(items[0]).value|);
      assert NormalisedAll(items) == [Normalised(items[0])] + NormalisedAll(items[1..]);
    }
  }

  lemma {:induction false} PairsDenote(v: Fixture, keys: seq<bytes>, cur: int, acc: map<bytes, Value>)
    requires v.FMap? && EncodePairs(v, keys).Some? && forall k :: k in keys ==> k in v.m
    ensures Collect(EntriesOf(v, keys, cur), acc) == AddAll(acc, v, keys)
    ensures EntriesHeight(EntriesOf(v, keys, cur)) == PairsNesting(v, keys)
    decreases v, 0, |keys|
  {
    hide Control, Normalised, EncodeKey;
    if keys != [] {
      var valueAt := cur + |EncodeKey(keys[0]).value|;
      var value := v.m[keys[0]];
      TreeDenotes(value, valueAt);
      PairsDenote(v, keys[1..], valueAt + |Encode(value).value|, acc[keys[0] := Normalised(value)]);
    }
  }

  // -------------------------------------------------------------------------
  // Main result
  // -------------------------------------------------------------------------

  /**
   Every fixture the encoder accepts decodes back, at any offset, to its normalised value and to the
   offset just past its encoding, if and only if its nesting fits below the depth.
   */
  lemma DecodeInvertsEncode(d: Decoder, off: int, v: Fixture, depth: nat)
    requires WellTyped(v) && Encode(v).Some? && Holds(d, off, Encode(v).value)
    ensures depth + Nesting(v) <= MAX_DEPTH ==>
              d.Decode(off, depth) == Ok(Decoded(Normalised(v), off + |Encode(v).value|))
    ensures d.Decode(off, depth).Ok? ==> depth + Nesting(v) <= MAX_DEPTH
  {
    hide Encode, Normalised, Nesting, TreeOf, Decoder.Decode, Holds, Height, Denotes, Derives;
    var t := TreeOf(v, off);
    EncodingDerives(d, off, v);
    TreeDenotes(v, off);
    if depth + Nesting(v) <= MAX_DEPTH {
      DecodeComplete(d, t, depth);
    }
    if d.Decode(off, depth).Ok? {
      var u := DecodeSound(d, off, depth);
      Unambiguous(d, t, u);
    }
  }
}
