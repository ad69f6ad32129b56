/** Sources that answer every read alike are indistinguishable to the decoder. */
module Interchange {
  import opened Bytes
  import opened Sources
  import opened DataSection

  ghost predicate SameReads(d: Decoder, e: Decoder)
  {
    d.base == e.base && forall off, n :: d.at(off, n) == e.at(off, n)
  }

  lemma SameHead(d: Decoder, e: Decoder, off: int)
    requires SameReads(d, e)
    ensures d.ReadHead(off) == e.ReadHead(off)
  {
  }

  lemma SamePointer(d: Decoder, e: Decoder, ctrl: byte, off: int)
    requires SameReads(d, e)
    ensures d.DecodePointer(ctrl, off) == e.DecodePointer(ctrl, off)
  {
  }

  lemma SameScalar(d: Decoder, e: Decoder, kind: nat, size: nat, off: int)
    requires SameReads(d, e) && kind != TYPE_MAP && kind != TYPE_ARRAY
    ensures d.DecodeScalar(kind, size, off) == e.DecodeScalar(kind, size, off)
  {
  }

  lemma {:induction false} SameDecode(d: Decoder, e: Decoder, off: int, depth: nat)
    requires SameReads(d, e)
    ensures d.Decode(off, depth) == e.Decode(off, depth)
    decreases MAX_DEPTH + 1 - depth, 0, 0
  {
    hide Decoder.ReadHead, Decoder.DecodePointer, Decoder.DecodeScalar;
    SameHead(d, e, off);
    if depth <= MAX_DEPTH && d.ReadHead(off).Ok? {
      match d.ReadHead(off).value
      case Pointer(ctrl, body) =>
        SamePointer(d, e, ctrl, body);
        var target := d.DecodePointer(ctrl, body);
        if target.Ok? {
          SameDecode(d, e, target.value.0, depth + 1);
        }
      case Data(kind, size, body) =>
        if kind == TYPE_MAP {
          SameEntries(d, e, body, size, depth + 1, map[]);
        } else if kind == TYPE_ARRAY {
          SameItems(d, e, body, size, depth + 1, []);
        } else {
          SameScalar(d, e, kind, size, body);
        }
    }
  }

  lemma {:induction false} SameEntry(d: Decoder, e: Decoder, cur: int, depth: nat)
    requires SameReads(d, e)
    ensures d.DecodeKey(cur, depth) == e.DecodeKey(cur, depth)
    ensures d.DecodeEntry(cur, depth) == e.DecodeEntry(cur, depth)
    decreases MAX_DEPTH + 1 - depth, 1, 0
  {
    hide Decoder.ReadHead, Decoder.DecodePointer, Decoder.DecodeScalar;
    SameDecode(d, e, cur, depth);
    var k := d.DecodeKey(cur, depth);
    if k.Ok? {
      SameDecode(d, e, k.value.1, depth);
    }
  }

  lemma {:induction false} SameEntries(d: Decoder, e: Decoder, cur: int, n: nat, depth: nat, acc: map<bytes, Value>)
    requires SameReads(d, e)
    ensures d.DecodeEntries(cur, n, depth, acc) == e.DecodeEntries(cur, n, depth, acc)
    decreases MAX_DEPTH + 1 - depth, 2, n
  {
    hide Decoder.ReadHead, Decoder.DecodePointer, Decoder.DecodeScalar;
    if n > 0 {
      SameEntry(d, e, cur, depth);
      var r := d.DecodeEntry(cur, depth);
      if r.Ok? {
        SameEntries(d, e, r.value.2, n - 1, depth, acc[r.value.0 := r.value.1]);
      }
    }
  }

  lemma {:induction false} SameItems(d: Decoder, e: Decoder, cur: int, n: nat, depth: nat, acc: seq<Value>)
    requires SameReads(d, e)
    ensures d.DecodeItems(cur, n, depth, acc) == e.DecodeItems(cur, n, depth, acc)
    decreases MAX_DEPTH + 1 - depth, 2, n
  {
    hide Decoder.ReadHead, Decoder.DecodePointer, Decoder.DecodeScalar;
    if n > 0 {
      SameDecode(d, e, cur, depth);
      var r := d.Decode(cur, depth);
      if r.Ok? {
        SameItems(d, e, r.value.next, n - 1, depth, acc + [r.value.value]);
      }
    }
  }

  lemma {:induction false} SameSkip(d: Decoder, e: Decoder, off: int, depth: nat)
    requires SameReads(d, e)
    ensures d.Skip(off, depth) == e.Skip(off, depth)
    decreases MAX_DEPTH + 1 - depth, 0, 0
  {
    hide Decoder.ReadHead, Decoder.DecodePointer, Decoder.DecodeScalar;
    if depth <= MAX_DEPTH && d.ReadHead(off).Ok? {
      SameHead(d, e, off);
      var h := d.ReadHead(off).value;
      if h.Data? && h.kind == TYPE_MAP {
        SameSkipMany(d, e, h.body, 2 * h.size, depth + 1);
      } else if h.Data? && h.kind == TYPE_ARRAY {
        SameSkipMany(d, e, h.body, h.size, depth + 1);
      }
    } else if depth <= MAX_DEPTH {
      SameHead(d, e, off);
    }
  }

  lemma {:induction false} SameSkipMany(d: Decoder, e: Decoder, cur: int, n: nat, depth: nat)
    requires SameReads(d, e)
    ensures d.SkipMany(cur, n, depth) == e.SkipMany(cur, n, depth)
    decreases MAX_DEPTH + 1 - depth, 1, n
  {
    hide Decoder.ReadHead, Decoder.DecodePointer, Decoder.DecodeScalar;
    if n > 0 {
      SameSkip(d, e, cur, depth);
      var next := d.Skip(cur, depth);
      if next.Ok? {
        SameSkipMany(d, e, next.value, n - 1, depth);
      }
    }
  }

  lemma {:induction false} SameFindKey(d: Decoder, e: Decoder, cur: int, n: nat, key: bytes, depth: nat)
    requires SameReads(d, e)
    ensures d.FindKey(cur, n, key, depth) == e.FindKey(cur, n, key, depth)
    decreases n
  {
    hide Decoder.ReadHead, Decoder.DecodePointer, Decoder.DecodeScalar;
    if n > 0 {
      SameEntry(d, e, cur, depth);
      var k := d.DecodeKey(cur, depth);
      if k.Ok? && k.value.0 != key {
        SameSkip(d, e, k.value.1, depth);
        var next := d.Skip(k.value.1, depth);
        if next.Ok? {
          SameFindKey(d, e, next.value, n - 1, key, depth);
        }
      }
    }
  }

  lemma {:induction false} SameSeek(d: Decoder, e: Decoder, off: int, path: seq<bytes>, depth: nat)
    requires SameReads(d, e)
    ensures d.Seek(off, path, depth) == e.Seek(off, path, depth)
    decreases MAX_DEPTH + 1 - depth, 1
  {
    hide Decoder.ReadHead, Decoder.DecodePointer, Decoder.DecodeScalar;
    if depth <= MAX_DEPTH && path != [] {
      SameHead(d, e, off);
      var head := d.ReadHead(off);
      if head.Ok? && head.value.Data? && head.value.kind == TYPE_MAP {
        SameSeekInMap(d, e, off, path, depth);
      } else if head.Ok? && head.value.Pointer? {
        SamePointer(d, e, head.value.ctrl, head.value.body);
        var target := d.DecodePointer(head.value.ctrl, head.value.body);
        if target.Ok? {
          SameSeek(d, e, target.value.0, path, depth + 1);
        }
      }
    }
  }

  lemma {:induction false} SameSeekInMap(d: Decoder, e: Decoder, off: int, path: seq<bytes>, depth: nat)
    requires SameReads(d, e) && depth <= MAX_DEPTH && path != []
    requires d.ReadHead(off) == e.ReadHead(off)
    requires d.ReadHead(off).Ok? && d.ReadHead(off).value.Data? && d.ReadHead(off).value.kind == TYPE_MAP
    ensures d.Seek(off, path, depth) == e.Seek(off, path, depth)
    decreases MAX_DEPTH + 1 - depth, 0
  {
    hide Decoder.ReadHead, Decoder.DecodePointer, Decoder.DecodeScalar;
    var h := d.ReadHead(off).value;
    SameFindKey(d, e, h.body, h.size, path[0], depth + 1);
    var v := d.FindKey(h.body, h.size, path[0], depth + 1);
    if v.Ok? && v.value.Some? {
      SameSeek(d, e, v.value.value, path[1..], depth + 1);
    }
  }

  /** Whole decoding and targeted access through any source that backs the file equal those in memory. */
  lemma DecodingIgnoresSource(src: Source, file: bytes, base: int, off: int, path: seq<bytes>, depth: nat)
    requires src.Backs(file)
    ensures Decoder(src.Reads(), base).Decode(off, depth) == Decoder(Memory(file).Reads(), base).Decode(off, depth)
    ensures Decoder(src.Reads(), base).Seek(off, path, depth) ==
            Decoder(Memory(file).Reads(), base).Seek(off, path, depth)
    ensures Decoder(src.Reads(), base).Skip(off, depth) == Decoder(Memory(file).Reads(), base).Skip(off, depth)
    ensures Decoder(src.Reads(), base).ValueAt(off, path) == Decoder(Memory(file).Reads(), base).ValueAt(off, path)
  {
    var d, e := Decoder(src.Reads(), base), Decoder(Memory(file).Reads(), base);
    assert SameReads(d, e);
    SameDecode(d, e, off, depth);
    SameSkip(d, e, off, depth);
    SameSeek(d, e, off, path, depth);
    SameSeek(d, e, off, path, 0);
    var target := d.Seek(off, path, 0);
    if target.Ok? && target.value.Some? {
      SameDecode(d, e, target.value.value, 0);
    }
  }
}
