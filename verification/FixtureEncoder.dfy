/** The value encoder that writes databases, as functions. */
module FixtureEncoder {
  import opened Bytes
  import opened DataSection

  // The Go values the encoder accepts. Floating point values are given by their bits.
  datatype Fixture =
    | FString(s: bytes)
    | FBool(b: bool)
    | FFloat64(bits: nat)
    | FFloat32(bits: nat)
    | FUint16(n: nat)
    | FUint32(n: nat)
    | FUint64(n: nat)
    | FInt(i: int)
    | FInt32(i: int)
    | FList(items: seq<Fixture>)
    | FMap(m: map<bytes, Fixture>)

  const TWO_32: nat := 0x1_0000_0000
  const TWO_64: nat := 0x1_0000_0000_0000_0000

  /** The ranges of the Go types. */
  predicate WellTyped(v: Fixture)
  {
    match v
    case FFloat64(bits) => bits < TWO_64
    case FFloat32(bits) => bits < TWO_32
    case FUint16(n) => n < 0x1_0000
    case FUint32(n) => n < TWO_32
    case FUint64(n) => n < TWO_64
    case FInt(i) => -0x8000_0000_0000_0000 <= i < 0x8000_0000_0000_0000
    case FInt32(i) => -0x8000_0000 <= i < 0x8000_0000
    case FList(items) => forall i :: 0 <= i < |items| ==> WellTyped(items[i])
    case FMap(m) => forall k :: k in m ==> WellTyped(m[k])
    case _ => true
  }

  /** The decoded form: every unsigned width becomes one type, and so does a plain int. */
  function Normalised(v: Fixture): Value
  {
    match v
    case FString(s) => Str(s)
    case FBool(b) => Bool(b)
    case FFloat64(bits) => Double(bits)
    case FFloat32(bits) => Single(bits)
    case FUint16(n) => Uint(n)
    case FUint32(n) => Uint(n)
    case FUint64(n) => Uint(n)
    case FInt(i) => Uint(i % TWO_64)
    case FInt32(i) => Int(i)
    case FList(items) => List(seq(|items|, i requires 0 <= i < |items| => Normalised(items[i])))
    case FMap(m) => Map(map k | k in m :: Normalised(m[k]))
  }

  /** Levels of containers below the value. */
  function Nesting(v: Fixture): nat
    decreases v, 1
  {
    match v
    case FList(items) => ItemsNesting(items)
    case FMap(m) => PairsNesting(v, Sorted(m.Keys))
    case _ => 0
  }

  function ItemsNesting(items: seq<Fixture>): nat
    decreases items, 0
  {
    if items == [] then 0 else Max(1 + Nesting(items[0]), ItemsNesting(items[1..]))
  }

  function PairsNesting(v: Fixture, keys: seq<bytes>): nat
    requires v.FMap?
    decreases v, 0, |keys|
  {
    if keys == [] then 0
    else if keys[0] !in v.m then 0
    else Max(1 + Nesting(v.m[keys[0]]), PairsNesting(v, keys[1..]))
  }

  // -------------------------------------------------------------------------
  // Encoding; None where the encoder stops the test with a fatal error
  // -------------------------------------------------------------------------

  /** The five size bits of the control byte. */
  function SizeBits(size: nat): byte
    requires size < 65821
  {
    if size < 29 then size else if size < 285 then 29 else 30
  }

  /** The bytes that complete the size. */
  function SizeExtra(size: nat): bytes
    requires size < 65821
  {
    if size < 29 then [] else if size < 285 then FixedBytes(size - 29, 1) else FixedBytes(size - 285, 2)
  }

  /** The type and size bits: one byte, or two for an extended type. */
  function KindBytes(kind: nat, sizeBits: byte): bytes
    requires 0 < kind < 16 && sizeBits < 32
  {
    if kind <= 7 then [kind * 32 + sizeBits] else [sizeBits, kind - 7]
  }

  /** The start of a value of a given type and size. */
  function Control(kind: nat, size: nat): Option<bytes>
    requires 0 < kind < 16
  {
    if size >= 65821 then None else Some(KindBytes(kind, SizeBits(size)) + SizeExtra(size))
  }

  function EncodeUint(kind: nat, v: nat): Option<bytes>
    requires 0 < kind < 16
  {
    var raw := MinimalBytes(v);
    var head :- Control(kind, |raw|);
    Some(head + raw)
  }

  function Encode(v: Fixture): Option<bytes>
    decreases v, 1
  {
    match v
    case FString(s) =>
      var head :- Control(TYPE_STRING, |s|);
      Some(head + s)
    case FBool(b) => Control(TYPE_BOOL, if b then 1 else 0)
    case FFloat64(bits) =>
      var head :- Control(TYPE_DOUBLE, 8);
      Some(head + FixedBytes(bits, 8))
    case FFloat32(bits) =>
      var head :- Control(TYPE_FLOAT, 4);
      Some(head + FixedBytes(bits, 4))
    case FUint16(n) => EncodeUint(TYPE_UINT16, n)
    case FUint32(n) => EncodeUint(TYPE_UINT32, n)
    case FUint64(n) => EncodeUint(TYPE_UINT64, n)
    case FInt(i) => EncodeUint(TYPE_UINT32, i % TWO_64)
    case FInt32(i) =>
      var head :- Control(TYPE_INT32, 4);
      Some(head + FixedBytes(i % TWO_32, 4))
    case FList(items) =>
      var head :- Control(TYPE_ARRAY, |items|);
      var body :- EncodeItems(items);
      Some(head + body)
    case FMap(m) =>
      var head :- Control(TYPE_MAP, |m|);
      var body :- EncodePairs(v, Sorted(m.Keys));
      Some(head + body)
  }

  function EncodeItems(items: seq<Fixture>): Option<bytes>
    decreases items, 0
  {
    if items == [] then Some([])
    else
      var head :- Encode(items[0]);
      var rest :- EncodeItems(items[1..]);
      Some(head + rest)
  }

  function EncodeKey(key: bytes): Option<bytes>
  {
    var head :- Control(TYPE_STRING, |key|);
    Some(head + key)
  }

  function EncodePairs(v: Fixture, keys: seq<bytes>): Option<bytes>
    requires v.FMap?
    decreases v, 0, |keys|
  {
    if keys == [] then Some([])
    else if keys[0] !in v.m then None
    else
      var key :- EncodeKey(keys[0]);
      var value :- Encode(v.m[keys[0]]);
      var rest :- EncodePairs(v, keys[1..]);
      Some(key + value + rest)
  }
}
