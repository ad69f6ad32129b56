/**
 What the bytes of an encoded value mean, stated from the bytes read: where a pointer leads, which number names
 which type, and which value each type's content is.
 */
module ByteForms {
  import opened Bytes
  import opened DataSection
  import SizesAndPointers

  // -------------------------------------------------------------------------
  // Pointers
  // -------------------------------------------------------------------------

  /** A pointer stands at `off`: three bits of its control byte and `width` bytes of content lead to `target`. */
  ghost predicate PointerAt(d: Decoder, off: int, width: nat, target: int)
  {
    exists c: byte, b: bytes ::
      && d.at(off, 1) == Ok([c]) && d.at(off + 1, width) == Ok(b)
      && 32 + (width - 1) * 8 <= c < 32 + width * 8 && 1 <= width <= 4
      && target == d.base + if width == 4 then BigEndian(b) else BigEndian([c % 8] + b) + FormStart(width)
  }

  /** The first number that the pointers of some content width stand for. */
  function FormStart(width: nat): nat
  {
    if width == 2 then 2048 else if width == 3 then 526336 else 0
  }

  lemma {:induction false} LeadingByte(c: byte, b: bytes)
    ensures BigEndian([c] + b) == c * Pow256(|b|) + BigEndian(b)
    decreases |b|
  {
    if b == [] {
      assert ([c] + b)[..0] == [];
    } else {
      var n := |b| - 1;
      assert ([c] + b)[..n + 1] == [c] + b[..n];
      LeadingByte(c, b[..n]);
    }
  }

  lemma PointerHead(d: Decoder, off: int, width: nat, target: int)
    requires PointerAt(d, off, width, target)
    ensures var h := d.ReadHead(off);
            && h.Ok? && h.value.Pointer? && h.value.body == off + 1
            && d.DecodePointer(h.value.ctrl, off + 1) == Ok((target, off + 1 + width))
            && h.value.ctrl / 8 % 4 + 1 == width
  {
    hide BigEndian;
    var c: byte, b: bytes :|
      && d.at(off, 1) == Ok([c]) && d.at(off + 1, width) == Ok(b)
      && 32 + (width - 1) * 8 <= c < 32 + width * 8 && 1 <= width <= 4
      && target == d.base + if width == 4 then BigEndian(b) else BigEndian([c % 8] + b) + FormStart(width);
    LeadingByte(c % 8, b);
    Pow256Values();
  }

  /**
   At every depth, decoding a pointer decodes its target one level deeper and goes on after the pointer, seeking
   in it seeks in its target, and skipping steps over it.
   */
  lemma PointerLeadsToTarget(d: Decoder, off: int, width: nat, target: int, depth: nat, path: seq<bytes>)
    requires PointerAt(d, off, width, target) && depth <= 64
    ensures var there := d.Decode(target, depth + 1);
            d.Decode(off, depth) ==
            if there.Ok? then Ok(Decoded(there.value.value, off + 1 + width)) else Err(there.error)
    ensures path != [] ==> d.Seek(off, path, depth) == d.Seek(target, path, depth + 1)
    ensures d.Skip(off, depth) == Ok(off + 1 + width)
  {
    hide Decoder.ReadHead, Decoder.DecodePointer;
    PointerHead(d, off, width, target);
  }

  // -------------------------------------------------------------------------
  // Types and contents
  // -------------------------------------------------------------------------

  /** A value of type `kind` stands at `off`, and its content of `size` bytes or parts starts at `body`. */
  ghost predicate Announced(d: Decoder, off: int, kind: nat, size: nat, body: int)
  {
    exists c: byte, e: byte ::
      && d.at(off, 1) == Ok([c])
      && if c < 32 then d.at(off + 1, 1) == Ok([e]) && kind == e + 7 && SizedAt(d, c, off + 2, size, body)
         else kind == c / 32 && kind != 1 && SizedAt(d, c - 32 * kind, off + 1, size, body)
  }

  /** The low five bits of a control byte, with up to three bytes after it, give the size. */
  ghost predicate SizedAt(d: Decoder, bits: nat, after: int, size: nat, body: int)
  {
    if bits < 29 then size == bits && body == after
    else
      exists b: bytes ::
        && d.at(after, bits - 28) == Ok(b) && body == after + bits - 28
        && size == BigEndian(b) + if bits == 29 then 29 else if bits == 30 then 285 else 65821
  }

  lemma SizeRead(d: Decoder, bits: nat, after: int, size: nat, body: int)
    requires bits < 32 && SizedAt(d, bits, after, size, body)
    ensures d.DecodeSize(bits, after) == Ok((size, body))
  {
  }

  lemma AnnouncedHead(d: Decoder, off: int, kind: nat, size: nat, body: int)
    requires Announced(d, off, kind, size, body)
    ensures d.ReadHead(off) == Ok(Data(kind, size, body))
  {
    hide SizedAt, Decoder.DecodeSize;
    var c: byte, e: byte :|
      && d.at(off, 1) == Ok([c])
      && if c < 32 then d.at(off + 1, 1) == Ok([e]) && kind == e + 7 && SizedAt(d, c, off + 2, size, body)
         else kind == c / 32 && kind != 1 && SizedAt(d, c - 32 * kind, off + 1, size, body);
    if c < 32 {
      SizeRead(d, c, off + 2, size, body);
    } else {
      SizeRead(d, c - 32 * kind, off + 1, size, body);
    }
  }

  /** `v` is what a content of some type and bytes is read as; no type has a content that none is listed for. */
  predicate Reads(kind: nat, b: bytes, v: Value)
  {
    match v
    case Str(s) => kind == 2 && s == b
    case Double(bits) => kind == 3 && |b| == 8 && bits == BigEndian(b)
    case Blob(s) => (kind == 4 || kind == 10) && s == b
    case Uint(n) => (kind == 5 || kind == 6 || kind == 9) && |b| <= 8 && n == BigEndian(b)
    case Int(i) =>
      kind == 8 && |b| <= 8 && -0x8000_0000 <= i < 0x8000_0000 && (BigEndian(b) - i) % 0x1_0000_0000 == 0
    case Single(bits) => kind == 15 && |b| == 4 && bits == BigEndian(b)
    case _ => false
  }

  /** The signed reading is the one number of 32 bits with sign that agrees with the unsigned one. */
  lemma SignedIs(v: nat, i: int)
    ensures SignExtend32(v) == i <==> -0x8000_0000 <= i < 0x8000_0000 && (v - i) % 0x1_0000_0000 == 0
  {
    var m := 0x1_0000_0000;
    assert v == m * (v / m) + v % m;
    if -0x8000_0000 <= i < 0x8000_0000 && (v - i) % m == 0 {
      var low := if i < 0 then i + m else i;
      var q := (v - i) / m + if i < 0 then -1 else 0;
      assert v == q * m + low;
      ModUnique(v, q, m, low);
    }
  }

  /** A content read from the source decodes to a value exactly when that is what its type reads the bytes as. */
  lemma ContentDecodes(d: Decoder, off: int, kind: nat, b: bytes, body: int, depth: nat, v: Value)
    requires Announced(d, off, kind, |b|, body) && d.at(body, |b|) == Ok(b) && depth <= 64
    requires kind !in {7, 11, 12, 13, 14}
    ensures d.Decode(off, depth) == Ok(Decoded(v, body + |b|)) <==> Reads(kind, b, v)
    ensures d.Decode(off, depth).Ok? ==> d.Decode(off, depth).value.next == body + |b|
  {
    hide Announced, Decoder.ReadHead, SignExtend32, BigEndian;
    AnnouncedHead(d, off, kind, |b|, body);
    SizesAndPointers.SizeGuardNeverFires(d, off);
    NoBytes();
    if v.Int? {
      SignedIs(BigEndian(b), v.i);
    }
    assert d.Decode(off, depth) == d.DecodeScalar(kind, |b|, body);
    hide Decoder.Decode;
  }

  lemma NoBytes()
    ensures BigEndian([]) == 0
  {
  }

  /** Values without content: a bool is its size, the two markers are nil, and types past 15 do not exist. */
  lemma SizeDecodes(d: Decoder, off: int, kind: nat, size: nat, body: int, depth: nat)
    requires Announced(d, off, kind, size, body) && depth <= 64
    ensures kind == 14 ==> d.Decode(off, depth) == Ok(Decoded(Bool(size > 0), body))
    ensures kind == 12 || kind == 13 ==> d.Decode(off, depth) == Ok(Decoded(Nil, body))
    ensures kind > 15 ==> d.Decode(off, depth) == Err(UnknownType)
  {
    hide Announced, Decoder.ReadHead;
    AnnouncedHead(d, off, kind, size, body);
  }

  /** Content that cannot be read is an error. */
  lemma UnreadableContent(d: Decoder, off: int, kind: nat, size: nat, body: int, depth: nat)
    requires Announced(d, off, kind, size, body) && d.at(body, size).Err? && size > 0
    requires kind !in {7, 11, 12, 13, 14}
    ensures d.Decode(off, depth).Err?
  {
    hide Announced, Decoder.ReadHead;
    AnnouncedHead(d, off, kind, size, body);
  }

  /** Types 7 and 11 hold as many entries or items as the size says, one level deeper. */
  lemma ContainerDecodes(d: Decoder, off: int, kind: nat, size: nat, body: int, depth: nat)
    requires Announced(d, off, kind, size, body) && depth <= 64
    ensures kind == 7 ==>
              var r := d.DecodeEntries(body, size, depth + 1, map[]);
              d.Decode(off, depth) == if r.Ok? then Ok(Decoded(Map(r.value.0), r.value.1)) else Err(r.error)
    ensures kind == 11 ==>
              var r := d.DecodeItems(body, size, depth + 1, []);
              d.Decode(off, depth) == if r.Ok? then Ok(Decoded(List(r.value.0), r.value.1)) else Err(r.error)
  {
    hide Announced, Decoder.ReadHead;
    AnnouncedHead(d, off, kind, size, body);
  }

  /** Past the depth limit of 64 nothing decodes or is found. */
  lemma TooDeepFails(d: Decoder, off: int, path: seq<bytes>, depth: nat)
    requires depth > 64
    ensures d.Decode(off, depth) == Err(TooDeep) && d.Seek(off, path, depth) == Err(TooDeep)
    ensures d.Skip(off, depth) == Err(TooDeep)
  {
  }
}
