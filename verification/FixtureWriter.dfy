/** The encoder as it runs: values written one after another into a growing buffer. */
module FixtureWriter {
  import opened Bytes
  import opened DataSection
  import opened FixtureEncoder

  class Buffer {
    var data: bytes

    constructor ()
      ensures data == []
    {
      data := [];
    }

    method Write(b: bytes)
      modifies this
      ensures data == old(data) + b
    {
      data := data + b;
    }
  }

  function Prepend(done: bytes, rest: Option<bytes>): Option<bytes>
  {
    if rest.Some? then Some(done + rest.value) else None
  }

  lemma PrependNothing(rest: Option<bytes>)
    ensures Prepend([], rest) == rest
  {
    if rest.Some? {
      assert [] + rest.value == rest.value;
    }
  }

  lemma PrependTwice(a: bytes, b: bytes, rest: Option<bytes>)
    ensures Prepend(a, Prepend(b, rest)) == Prepend(a + b, rest)
  {
    if rest.Some? {
      assert a + (b + rest.value) == a + b + rest.value;
    }
  }

  method WriteControl(buf: Buffer, kind: nat, size: nat) returns (ok: bool)
    requires 0 < kind < 16
    modifies buf
    ensures ok <==> Control(kind, size).Some?
    ensures ok ==> buf.data == old(buf.data) + Control(kind, size).value
  {
    if size >= 65821 {
      return false;
    }
    buf.Write(KindBytes(kind, SizeBits(size)));
    buf.Write(SizeExtra(size));
    ok := true;
  }

  lemma Regroup(p: nat, q: nat, t: nat, s: nat)
    requires t < 256 && s < p
    ensures p * (256 * q + t) + s == q * (p * 256) + (p * t + s)
    ensures 0 <= p * t + s < p * 256
  {
    assert p * (256 * q) == q * (p * 256);
    assert p * t <= p * 255;
  }

  lemma DivideTwice(v: nat, p: nat)
    requires p > 0
    ensures p * 256 > 0 && v / p / 256 == v / (p * 256)
  {
    var a, s := v / p, v % p;
    var q, t := a / 256, a % 256;
    assert a == 256 * q + t && v == p * a + s;
    Regroup(p, q, t, s);
    ModUnique(v, q, p * 256, p * t + s);
  }

  lemma ShiftStep(v: nat, i: nat)
    ensures v / Pow256(i) / 256 == v / Pow256(i + 1)
  {
    DivideTwice(v, Pow256(i));
  }

  /** The bytes of an unsigned integer from the highest down, leaving out leading zeros. */
  method MinimalBytesLoop(v: nat) returns (raw: bytes)
    requires v < TWO_64
    ensures raw == MinimalBytes(v)
  {
    raw := [];
    assert Pow256(8) == TWO_64;
    for i := 8 downto 0
      invariant raw == MinimalBytes(v / Pow256(i))
    {
      ShiftStep(v, i);
      var b: byte := v / Pow256(i) % 256;
      if raw != [] || b != 0 {
        raw := raw + [b];
      }
    }
    assert v / Pow256(0) == v;
  }

  method WriteUint(buf: Buffer, kind: nat, v: nat) returns (ok: bool)
    requires 0 < kind < 16 && v < TWO_64
    modifies buf
    ensures ok <==> EncodeUint(kind, v).Some?
    ensures ok ==> buf.data == old(buf.data) + EncodeUint(kind, v).value
  {
    hide Control, MinimalBytes;
    var raw := MinimalBytesLoop(v);
    ok := WriteControl(buf, kind, |raw|);
    if ok {
      ghost var head := Control(kind, |raw|).value;
      assert old(buf.data) + head + raw == old(buf.data) + (head + raw);
      buf.Write(raw);
    }
  }

  method WriteSized(buf: Buffer, kind: nat, body: bytes) returns (ok: bool)
    requires 0 < kind < 16
    modifies buf
    ensures ok <==> Control(kind, |body|).Some?
    ensures ok ==> buf.data == old(buf.data) + (Control(kind, |body|).value + body)
  {
    hide Control;
    ok := WriteControl(buf, kind, |body|);
    if ok {
      ghost var head := Control(kind, |body|).value;
      assert old(buf.data) + head + body == old(buf.data) + (head + body);
      buf.Write(body);
    }
  }

  /** Writes a value; false where the encoder stops the test with a fatal error. */
  method EncodeValue(buf: Buffer, v: Fixture) returns (ok: bool)
    requires WellTyped(v)
    modifies buf
    ensures ok <==> Encode(v).Some?
    ensures ok ==> buf.data == old(buf.data) + Encode(v).value
    decreases v, 2
  {
    hide Control, MinimalBytes, FixedBytes, EncodePairs, EncodeItems, EncodeUint, Sorted;
    match v
    case FString(s) => ok := WriteSized(buf, TYPE_STRING, s);
    case FBool(b) => ok := WriteControl(buf, TYPE_BOOL, if b then 1 else 0);
    case FFloat64(bits) => ok := WriteSized(buf, TYPE_DOUBLE, FixedBytes(bits, 8));
    case FFloat32(bits) => ok := WriteSized(buf, TYPE_FLOAT, FixedBytes(bits, 4));
    case FUint16(n) => ok := WriteUint(buf, TYPE_UINT16, n);
    case FUint32(n) => ok := WriteUint(buf, TYPE_UINT32, n);
    case FUint64(n) => ok := WriteUint(buf, TYPE_UINT64, n);
    case FInt(i) => ok := WriteUint(buf, TYPE_UINT32, i % TWO_64);
    case FInt32(i) => ok := WriteSized(buf, TYPE_INT32, FixedBytes(i % TWO_32, 4));
    case FList(items) => ok := EncodeListLoop(buf, v);
    case FMap(m) => ok := EncodeMapLoop(buf, v);
  }

  method EncodeListLoop(buf: Buffer, v: Fixture) returns (ok: bool)
    requires v.FList? && WellTyped(v)
    modifies buf
    ensures ok <==> Encode(v).Some?
    ensures ok ==> buf.data == old(buf.data) + Encode(v).value
    decreases v, 1
  {
    hide Control, EncodePairs, EncodeUint, Sorted, FixedBytes;
    ok := WriteControl(buf, TYPE_ARRAY, |v.items|);
    if !ok {
      return;
    }
    ghost var start, done: bytes := buf.data, [];
    assert v.items[0..] == v.items;
    PrependNothing(EncodeItems(v.items));
    for i := 0 to |v.items|
      invariant EncodeItems(v.items) == Prepend(done, EncodeItems(v.items[i..]))
      invariant buf.data == start + done
    {
      assert v.items[i..][0] == v.items[i] && v.items[i..][1..] == v.items[i + 1..];
      ok := EncodeValue(buf, v.items[i]);
      if !ok {
        return;
      }
      PrependTwice(done, Encode(v.items[i]).value, EncodeItems(v.items[i + 1..]));
      done := done + Encode(v.items[i]).value;
    }
    assert v.items[|v.items|..] == [];
    ghost var head := Control(TYPE_ARRAY, |v.items|).value;
    assert old(buf.data) + head + done == old(buf.data) + (head + done);
  }

  lemma EncodeMapParts(v: Fixture)
    requires v.FMap?
    ensures var head := Control(TYPE_MAP, |v.m|);
            Encode(v) == if head.Some? then Prepend(head.value, EncodePairs(v, Sorted(v.m.Keys))) else None
  {
  }

  /** One more pair, as the loop takes them. */
  lemma PairsStep(v: Fixture, keys: seq<bytes>, i: nat)
    requires v.FMap? && i < |keys| && keys[i] in v.m
    ensures EncodePairs(v, keys[i..]) ==
            if EncodeKey(keys[i]).Some? && Encode(v.m[keys[i]]).Some?
            then Prepend(EncodeKey(keys[i]).value + Encode(v.m[keys[i]]).value, EncodePairs(v, keys[i + 1..]))
            else None
  {
    hide Encode, EncodeKey;
    assert keys[i..][0] == keys[i] && keys[i..][1..] == keys[i + 1..];
  }

  lemma NoPairs(v: Fixture, keys: seq<bytes>)
    requires v.FMap?
    ensures EncodePairs(v, keys[|keys|..]) == Some([])
  {
    assert keys[|keys|..] == [];
  }

  method EncodeMapLoop(buf: Buffer, v: Fixture) returns (ok: bool)
    requires v.FMap? && WellTyped(v)
    modifies buf
    ensures ok <==> Encode(v).Some?
    ensures ok ==> buf.data == old(buf.data) + Encode(v).value
    decreases v, 1
  {
    hide Control, Encode, EncodeKey, EncodePairs, Sorted;
    EncodeMapParts(v);
    ok := WriteControl(buf, TYPE_MAP, |v.m|);
    if !ok {
      return;
    }
    var keys := Sorted(v.m.Keys);
    SortedMembers(v.m.Keys);
    ghost var start, done: bytes := buf.data, [];
    assert keys[0..] == keys;
    PrependNothing(EncodePairs(v, keys));
    for i := 0 to |keys|
      invariant EncodePairs(v, keys) == Prepend(done, EncodePairs(v, keys[i..]))
      invariant buf.data == start + done
    {
      assert keys[i] in keys;
      PairsStep(v, keys, i);
      ok := EncodePair(buf, keys[i], v.m[keys[i]], v);
      if !ok {
        return;
      }
      ghost var pair := EncodeKey(keys[i]).value + Encode(v.m[keys[i]]).value;
      PrependTwice(done, pair, EncodePairs(v, keys[i + 1..]));
      Regrouped(start, done, pair);
      done := done + pair;
    }
    NoPairs(v, keys);
    Regrouped(old(buf.data), Control(TYPE_MAP, |v.m|).value, done);
  }

  lemma Regrouped(a: bytes, b: bytes, c: bytes)
    ensures (a + b) + c == a + (b + c)
  {
  }

  method EncodePair(buf: Buffer, key: bytes, value: Fixture, ghost v: Fixture) returns (ok: bool)
    requires WellTyped(value) && v.FMap? && key in v.m && v.m[key] == value
    modifies buf
    ensures ok <==> EncodeKey(key).Some? && Encode(value).Some?
    ensures ok ==> buf.data == old(buf.data) + (EncodeKey(key).value + Encode(value).value)
    decreases v, 0
  {
    hide Control, Encode;
    ok := WriteSized(buf, TYPE_STRING, key);
    if ok {
      ok := EncodeValue(buf, value);
      if ok {
        ghost var k, e := EncodeKey(key).value, Encode(value).value;
        Regrouped(old(buf.data), k, e);
      }
    }
  }
}
