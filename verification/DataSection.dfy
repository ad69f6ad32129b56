/** The data section decoder: whole values, targeted access by path, and skipping. */
module DataSection {
  import opened Bytes
  import opened Sources

  const TYPE_POINTER := 1
  const TYPE_STRING := 2
  const TYPE_DOUBLE := 3
  const TYPE_BYTES := 4
  const TYPE_UINT16 := 5
  const TYPE_UINT32 := 6
  const TYPE_MAP := 7
  const TYPE_INT32 := 8
  const TYPE_UINT64 := 9
  const TYPE_UINT128 := 10
  const TYPE_ARRAY := 11
  const TYPE_CONTAINER := 12
  const TYPE_END_MARKER := 13
  const TYPE_BOOL := 14
  const TYPE_FLOAT := 15

  const MAX_DEPTH: nat := 64
  const MAX_VALUE_SIZE: nat := 33554432

  // A decoded value. Floating point numbers are kept as their bits: `Single` is the float64
  // that widening the 32 given bits yields, `Double` the float64 with the 64 given bits.
  datatype Value =
    | Nil
    | Bool(b: bool)
    | Uint(n: nat)
    | Int(i: int)
    | Double(bits: nat)
    | Single(bits: nat)
    | Str(s: bytes)
    | Blob(s: bytes)
    | List(items: seq<Value>)
    | Map(m: map<bytes, Value>)

  datatype Decoded = Decoded(value: Value, next: int)

  // The start of an encoded value: a pointer's control byte, or the type and size of a value
  // whose content starts at `body`.
  datatype Head = Pointer(ctrl: byte, body: int) | Data(kind: nat, size: nat, body: int)

  /** The two's complement reading of the low 32 bits. */
  function SignExtend32(v: nat): int
  {
    var low := v % 0x1_0000_0000;
    if low < 0x8000_0000 then low else low - 0x1_0000_0000
  }

  /** The size that five size bits and their extra bytes stand for. */
  function SizeOf(sizeBits: nat, extra: bytes): nat
  {
    if sizeBits < 29 then sizeBits
    else if sizeBits == 29 then 29 + BigEndian(extra)
    else if sizeBits == 30 then 285 + BigEndian(extra)
    else 65821 + BigEndian(extra)
  }

  /** What a pointer of `width` bytes with a three bit prefix adds to the base. */
  function PointerOf(width: nat, prefix: nat, b: bytes): nat
  {
    if width == 1 then prefix * 0x100 + BigEndian(b)
    else if width == 2 then prefix * 0x1_0000 + BigEndian(b) + 2048
    else if width == 3 then prefix * 0x100_0000 + BigEndian(b) + 526336
    else BigEndian(b)
  }

  datatype Decoder = Decoder(at: Reading, base: int) {

    // -----------------------------------------------------------------------
    // Specification
    // -----------------------------------------------------------------------

    function DecodeSize(size: nat, off: int): Result<(nat, int)>
    {
      if size < 29 then Ok((SizeOf(size, []), off))
      else if size == 29 then
        var b :- at(off, 1);
        Ok((SizeOf(size, b), off + 1))
      else if size == 30 then
        var b :- at(off, 2);
        Ok((SizeOf(size, b), off + 2))
      else
        var b :- at(off, 3);
        Ok((SizeOf(size, b), off + 3))
    }

    /** The offset a pointer refers to and the offset just past the pointer. */
    function DecodePointer(ctrl: byte, off: int): Result<(int, int)>
    {
      var width := ctrl / 8 % 4 + 1;
      var b :- at(off, width);
      Ok((base + PointerOf(width, ctrl % 8, b), off + width))
    }

    function ReadHead(off: int): Result<Head>
    {
      var c :- at(off, 1);
      var ctrl := c[0];
      if ctrl / 32 == TYPE_POINTER then Ok(Pointer(ctrl, off + 1))
      else if ctrl / 32 == 0 then
        var ext :- at(off + 1, 1);
        var sized :- DecodeSize(ctrl % 32, off + 2);
        Ok(Data(7 + ext[0] as nat, sized.0, sized.1))
      else
        var sized :- DecodeSize(ctrl % 32, off + 1);
        Ok(Data(ctrl / 32, sized.0, sized.1))
    }

    function ReadUint(off: int, size: nat): Result<nat>
    {
      if size > 8 then Err(BadSize)
      else if size == 0 then Ok(0)
      else
        var b :- at(off, size);
        Ok(BigEndian(b))
    }

    /** A value that holds no other value. */
    function DecodeScalar(kind: nat, size: nat, off: int): Result<Decoded>
      requires kind != TYPE_MAP && kind != TYPE_ARRAY
    {
      if kind == TYPE_STRING || kind == TYPE_BYTES then
        if size > MAX_VALUE_SIZE then Err(BadSize)
        else
          var b :- at(off, size);
          Ok(Decoded(if kind == TYPE_STRING then Str(b) else Blob(b), off + size))
      else if kind == TYPE_DOUBLE then
        if size != 8 then Err(BadSize)
        else
          var b :- at(off, 8);
          Ok(Decoded(Double(BigEndian(b)), off + 8))
      else if kind == TYPE_FLOAT then
        if size != 4 then Err(BadSize)
        else
          var b :- at(off, 4);
          Ok(Decoded(Single(BigEndian(b)), off + 4))
      else if kind == TYPE_UINT16 || kind == TYPE_UINT32 || kind == TYPE_UINT64 then
        var v :- ReadUint(off, size);
        Ok(Decoded(Uint(v), off + size))
      else if kind == TYPE_INT32 then
        var v :- ReadUint(off, size);
        Ok(Decoded(Int(SignExtend32(v)), off + size))
      else if kind == TYPE_UINT128 then
        var b :- at(off, size);
        Ok(Decoded(Blob(b), off + size))
      else if kind == TYPE_BOOL then
        Ok(Decoded(Bool(size != 0), off))
      else if kind == TYPE_CONTAINER || kind == TYPE_END_MARKER then
        Ok(Decoded(Nil, off))
      else
        Err(UnknownType)
    }

    /** The value at `off` and the offset of the value after it. */
    function Decode(off: int, depth: nat): Result<Decoded>
      decreases MAX_DEPTH + 1 - depth, 0, 0
    {
      if depth > MAX_DEPTH then Err(TooDeep)
      else
        var head :- ReadHead(off);
        match head
        case Pointer(ctrl, body) =>
          var target :- DecodePointer(ctrl, body);
          var d :- Decode(target.0, depth + 1);
          Ok(Decoded(d.value, target.1))
        case Data(kind, size, body) =>
          if kind == TYPE_MAP then
            var d :- DecodeEntries(body, size, depth + 1, map[]);
            Ok(Decoded(Map(d.0), d.1))
          else if kind == TYPE_ARRAY then
            var d :- DecodeItems(body, size, depth + 1, []);
            Ok(Decoded(List(d.0), d.1))
          else
            DecodeScalar(kind, size, body)
    }

    /** Adds `n` key and value pairs to `acc`, a later pair replacing an earlier one with its key. */
    function DecodeEntries(cur: int, n: nat, depth: nat, acc: map<bytes, Value>): Result<(map<bytes, Value>, int)>
      decreases MAX_DEPTH + 1 - depth, 3, n
    {
      if n == 0 then Ok((acc, cur))
      else
        var e :- DecodeEntry(cur, depth);
        DecodeEntries(e.2, n - 1, depth, acc[e.0 := e.1])
    }

    /** One key, its value, and the offset of the next key. */
    function DecodeEntry(cur: int, depth: nat): Result<(bytes, Value, int)>
      decreases MAX_DEPTH + 1 - depth, 2, 0
    {
      var k :- DecodeKey(cur, depth);
      var v :- Decode(k.1, depth);
      Ok((k.0, v.value, v.next))
    }

    function DecodeKey(cur: int, depth: nat): Result<(bytes, int)>
      decreases MAX_DEPTH + 1 - depth, 1, 0
    {
      var k :- Decode(cur, depth);
      if k.value.Str? then Ok((k.value.s, k.next)) else Err(KeyNotString)
    }

    function DecodeItems(cur: int, n: nat, depth: nat, acc: seq<Value>): Result<(seq<Value>, int)>
      decreases MAX_DEPTH + 1 - depth, 3, n
    {
      if n == 0 then Ok((acc, cur))
      else
        var d :- Decode(cur, depth);
        DecodeItems(d.next, n - 1, depth, acc + [d.value])
    }

    /** The offset just past the value at `off`, without decoding it and without following pointers. */
    function Skip(off: int, depth: nat): Result<int>
      decreases MAX_DEPTH + 1 - depth, 0, 0
    {
      if depth > MAX_DEPTH then Err(TooDeep)
      else
        var head :- ReadHead(off);
        match head
        case Pointer(ctrl, body) => Ok(body + ctrl / 8 % 4 + 1)
        case Data(kind, size, body) =>
          if kind == TYPE_MAP then SkipMany(body, 2 * size, depth + 1)
          else if kind == TYPE_ARRAY then SkipMany(body, size, depth + 1)
          else if kind == TYPE_BOOL || kind == TYPE_CONTAINER || kind == TYPE_END_MARKER then Ok(body)
          else Ok(body + size)
    }

    function SkipMany(cur: int, n: nat, depth: nat): Result<int>
      decreases MAX_DEPTH + 1 - depth, 3, n
    {
      if n == 0 then Ok(cur)
      else
        var next :- Skip(cur, depth);
        SkipMany(next, n - 1, depth)
    }

    /** The offset of the value at `path` inside the value at `off`, or None when there is none. */
    function Seek(off: int, path: seq<bytes>, depth: nat): Result<Option<int>>
      decreases MAX_DEPTH + 1 - depth, 0, 0
    {
      if depth > MAX_DEPTH then Err(TooDeep)
      else if path == [] then Ok(Some(off))
      else
        var head :- ReadHead(off);
        match head
        case Pointer(ctrl, body) =>
          var target :- DecodePointer(ctrl, body);
          Seek(target.0, path, depth + 1)
        case Data(kind, size, body) =>
          if kind == TYPE_MAP then
            var value :- FindKey(body, size, path[0], depth + 1);
            if value.None? then Ok(None) else Seek(value.value, path[1..], depth + 1)
          else
            Ok(None)
    }

    /** The offset of the value of the first of `n` entries whose key is `key`. */
    function FindKey(cur: int, n: nat, key: bytes, depth: nat): Result<Option<int>>
      decreases n
    {
      if n == 0 then Ok(None)
      else
        var k :- DecodeKey(cur, depth);
        if k.0 == key then Ok(Some(k.1))
        else
          var next :- Skip(k.1, depth);
          FindKey(next, n - 1, key, depth)
    }

    /** Reader.Value: seek to the path, then decode only what is there. */
    function ValueAt(off: int, path: seq<bytes>): Result<Option<Value>>
    {
      var target :- Seek(off, path, 0);
      if target.None? then Ok(None)
      else
        var d :- Decode(target.value, 0);
        Ok(Some(d.value))
    }

    // -----------------------------------------------------------------------
    // The loops, each proved to compute its specification
    // -----------------------------------------------------------------------

    method ReadUintLoop(off: int, size: nat) returns (r: Result<nat>)
      ensures r == ReadUint(off, size)
      ensures r.Ok? ==> r.value < Pow256(size)
    {
      if size > 8 {
        return Err(BadSize);
      }
      if size == 0 {
        return Ok(0);
      }
      var b :- at(off, size);
      var v := 0;
      for i := 0 to size
        invariant v == BigEndian(b[..i])
      {
        assert b[..i + 1][..i] == b[..i];
        v := v * 256 + b[i] as nat;
      }
      assert b[..size] == b;
      BigEndianBound(b);
      r := Ok(v);
    }

    method DecodeValue(off: int, depth: nat) returns (r: Result<Decoded>)
      ensures r == Decode(off, depth)
      decreases MAX_DEPTH + 1 - depth, 0
    {
      if depth > MAX_DEPTH {
        return Err(TooDeep);
      }
      var head :- ReadHead(off);
      match head
      case Pointer(ctrl, body) =>
        var target :- DecodePointer(ctrl, body);
        var d := DecodeValue(target.0, depth + 1);
        if d.Err? {
          return d;
        }
        r := Ok(Decoded(d.value.value, target.1));
      case Data(kind, size, body) =>
        if kind == TYPE_MAP {
          var e := DecodeMapLoop(size, body, depth);
          r := if e.Ok? then Ok(Decoded(Map(e.value.0), e.value.1)) else Err(e.error);
        } else if kind == TYPE_ARRAY {
          var e := DecodeArrayLoop(size, body, depth);
          r := if e.Ok? then Ok(Decoded(List(e.value.0), e.value.1)) else Err(e.error);
        } else if kind == TYPE_UINT16 || kind == TYPE_UINT32 || kind == TYPE_UINT64 {
          var v := ReadUintLoop(body, size);
          r := if v.Ok? then Ok(Decoded(Uint(v.value), body + size)) else Err(v.error);
        } else if kind == TYPE_INT32 {
          var v := ReadUintLoop(body, size);
          r := if v.Ok? then Ok(Decoded(Int(SignExtend32(v.value)), body + size)) else Err(v.error);
        } else {
          r := DecodeScalar(kind, size, body);
        }
    }

    method DecodeMapKey(cur: int, depth: nat) returns (r: Result<(bytes, int)>)
      ensures r == DecodeKey(cur, depth)
      decreases MAX_DEPTH + 1 - depth, 1
    {
      var rawKey := DecodeValue(cur, depth);
      if rawKey.Err? {
        return Err(rawKey.error);
      }
      if !rawKey.value.value.Str? {
        return Err(KeyNotString);
      }
      r := Ok((rawKey.value.value.s, rawKey.value.next));
    }

    method DecodeMapEntry(cur: int, depth: nat) returns (r: Result<(bytes, Value, int)>)
      ensures r == DecodeEntry(cur, depth)
      decreases MAX_DEPTH + 1 - depth, 2
    {
      var key := DecodeMapKey(cur, depth);
      if key.Err? {
        return Err(key.error);
      }
      var value := DecodeValue(key.value.1, depth);
      if value.Err? {
        return Err(value.error);
      }
      r := Ok((key.value.0, value.value.value, value.value.next));
    }

    method DecodeMapLoop(size: nat, body: int, depth: nat) returns (r: Result<(map<bytes, Value>, int)>)
      requires depth <= MAX_DEPTH
      ensures r == DecodeEntries(body, size, depth + 1, map[])
      decreases MAX_DEPTH - depth, 3
    {
      hide ReadHead, DecodePointer, DecodeScalar;
      var out: map<bytes, Value> := map[];
      var cur := body;
      for i := 0 to size
        invariant DecodeEntries(body, size, depth + 1, map[]) == DecodeEntries(cur, size - i, depth + 1, out)
      {
        var entry := DecodeMapEntry(cur, depth + 1);
        if entry.Err? {
          return Err(entry.error);
        }
        out := out[entry.value.0 := entry.value.1];
        cur := entry.value.2;
      }
      r := Ok((out, cur));
    }

    method DecodeArrayLoop(size: nat, body: int, depth: nat) returns (r: Result<(seq<Value>, int)>)
      requires depth <= MAX_DEPTH
      ensures r == DecodeItems(body, size, depth + 1, [])
      decreases MAX_DEPTH - depth, 3
    {
      hide ReadHead, DecodePointer, DecodeScalar;
      var out: seq<Value> := [];
      var cur := body;
      for i := 0 to size
        invariant DecodeItems(body, size, depth + 1, []) == DecodeItems(cur, size - i, depth + 1, out)
      {
        var value := DecodeValue(cur, depth + 1);
        if value.Err? {
          return Err(value.error);
        }
        out := out + [value.value.value];
        cur := value.value.next;
      }
      r := Ok((out, cur));
    }

    method SkipLoop(count: nat, body: int, depth: nat) returns (r: Result<int>)
      requires depth <= MAX_DEPTH
      ensures r == SkipMany(body, count, depth + 1)
      decreases MAX_DEPTH - depth, 3
    {
      hide ReadHead, DecodePointer, DecodeScalar;
      var cur := body;
      for i := 0 to count
        invariant SkipMany(body, count, depth + 1) == SkipMany(cur, count - i, depth + 1)
      {
        cur :- SkipValue(cur, depth + 1);
      }
      r := Ok(cur);
    }

    method SkipValue(off: int, depth: nat) returns (r: Result<int>)
      ensures r == Skip(off, depth)
      decreases MAX_DEPTH + 1 - depth, 0
    {
      if depth > MAX_DEPTH {
        return Err(TooDeep);
      }
      var head :- ReadHead(off);
      match head
      case Pointer(ctrl, body) =>
        r := Ok(body + ctrl / 8 % 4 + 1);
      case Data(kind, size, body) =>
        if kind == TYPE_MAP {
          r := SkipLoop(2 * size, body, depth);
        } else if kind == TYPE_ARRAY {
          r := SkipLoop(size, body, depth);
        } else if kind == TYPE_BOOL || kind == TYPE_CONTAINER || kind == TYPE_END_MARKER {
          r := Ok(body);
        } else {
          r := Ok(body + size);
        }
    }

    method SeekPath(off: int, path: seq<bytes>, depth: nat) returns (r: Result<Option<int>>)
      ensures r == Seek(off, path, depth)
      decreases MAX_DEPTH + 1 - depth, 0
    {
      if depth > MAX_DEPTH {
        return Err(TooDeep);
      }
      if path == [] {
        return Ok(Some(off));
      }
      var head :- ReadHead(off);
      match head
      case Pointer(ctrl, body) =>
        var target :- DecodePointer(ctrl, body);
        r := SeekPath(target.0, path, depth + 1);
      case Data(kind, size, body) =>
        if kind != TYPE_MAP {
          return Ok(None);
        }
        var value :- FindKeyLoop(size, body, path[0], depth + 1);
        if value.None? {
          return Ok(None);
        }
        r := SeekPath(value.value, path[1..], depth + 1);
    }

    method FindKeyLoop(size: nat, body: int, key: bytes, depth: nat) returns (r: Result<Option<int>>)
      ensures r == FindKey(body, size, key, depth)
    {
      hide ReadHead, DecodePointer, DecodeScalar;
      var cur := body;
      for i := 0 to size
        invariant FindKey(body, size, key, depth) == FindKey(cur, size - i, key, depth)
      {
        var k := DecodeMapKey(cur, depth);
        if k.Err? {
          return Err(k.error);
        }
        if k.value.0 == key {
          return Ok(Some(k.value.1));
        }
        cur :- SkipValue(k.value.1, depth);
      }
      r := Ok(None);
    }
  }
}
