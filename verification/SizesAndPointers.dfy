/** The size and pointer encodings cover their ranges exactly, each number in one way. */
module SizesAndPointers {
  import opened Bytes
  import opened DataSection

  const MAX_SIZE: nat := 16843036
  const MAX_SHORT_POINTER: nat := 134744063

  // -------------------------------------------------------------------------
  // Sizes
  // -------------------------------------------------------------------------

  function ExtraLength(sizeBits: nat): nat
  {
    if sizeBits < 29 then 0 else if sizeBits == 29 then 1 else if sizeBits == 30 then 2 else 3
  }

  /** The one form of a size. */
  function SizeForm(n: nat): (nat, bytes)
  {
    if n < 29 then (n, [])
    else if n < 285 then (29, FixedBytes(n - 29, 1))
    else if n < 65821 then (30, FixedBytes(n - 285, 2))
    else (31, FixedBytes(n - 65821, 3))
  }

  lemma DecodeSizeReads(d: Decoder, sizeBits: nat, off: int, extra: bytes)
    requires sizeBits < 32 && |extra| == ExtraLength(sizeBits)
    requires sizeBits >= 29 ==> d.at(off, |extra|) == Ok(extra)
    ensures d.DecodeSize(sizeBits, off) == Ok((SizeOf(sizeBits, extra), off + |extra|))
  {
  }

  /** Every size up to the largest has a form. */
  lemma SizesCovered(n: nat)
    requires n <= MAX_SIZE
    ensures var f := SizeForm(n); f.0 < 32 && |f.1| == ExtraLength(f.0) && SizeOf(f.0, f.1) == n
  {
    Pow256Values();
    if 29 <= n < 285 {
      FixedBytesExact(n - 29, 1);
    } else if 285 <= n < 65821 {
      FixedBytesExact(n - 285, 2);
    } else if 65821 <= n {
      FixedBytesExact(n - 65821, 3);
    }
  }

  /** Every form stands for a size in range, and no other form stands for it. */
  lemma SizesDistinct(sizeBits: nat, extra: bytes)
    requires sizeBits < 32 && |extra| == ExtraLength(sizeBits)
    ensures SizeOf(sizeBits, extra) <= MAX_SIZE
    ensures SizeForm(SizeOf(sizeBits, extra)) == (sizeBits, extra)
  {
    Pow256Values();
    BigEndianBound(extra);
    FixedBytesOfBigEndian(extra);
  }

  /** The limit on a single string or byte field can never be exceeded by an encoded size. */
  lemma SizeGuardNeverFires(d: Decoder, off: int)
    requires d.ReadHead(off).Ok? && d.ReadHead(off).value.Data?
    ensures d.ReadHead(off).value.size <= MAX_SIZE < MAX_VALUE_SIZE
  {
    var c := d.at(off, 1).value[0];
    var body := if c / 32 == 0 then off + 2 else off + 1;
    assert d.DecodeSize(c % 32, body).Ok?;
    DecodedSizeInRange(d, c % 32, body);
  }

  lemma DecodedSizeInRange(d: Decoder, sizeBits: nat, off: int)
    requires sizeBits < 32 && d.DecodeSize(sizeBits, off).Ok?
    ensures d.DecodeSize(sizeBits, off).value.0 <= MAX_SIZE
  {
    var extra := if sizeBits < 29 then [] else d.at(off, ExtraLength(sizeBits)).value;
    DecodeSizeReads(d, sizeBits, off, extra);
    SizesDistinct(sizeBits, extra);
  }

  // -------------------------------------------------------------------------
  // Pointers
  // -------------------------------------------------------------------------

  /** The one form of at most three bytes. */
  function PointerForm(v: nat): (nat, nat, bytes)
  {
    if v < 2048 then (1, v / 0x100, FixedBytes(v % 0x100, 1))
    else if v < 526336 then (2, (v - 2048) / 0x1_0000, FixedBytes((v - 2048) % 0x1_0000, 2))
    else (3, (v - 526336) / 0x100_0000, FixedBytes((v - 526336) % 0x100_0000, 3))
  }

  lemma DecodePointerReads(d: Decoder, ctrl: byte, off: int, b: bytes)
    requires d.at(off, ctrl / 8 % 4 + 1) == Ok(b)
    ensures d.DecodePointer(ctrl, off) == Ok((d.base + PointerOf(ctrl / 8 % 4 + 1, ctrl % 8, b), off + |b|))
  {
  }

  lemma ShortPointersCovered(v: nat)
    requires v <= MAX_SHORT_POINTER
    ensures var f := PointerForm(v);
            1 <= f.0 <= 3 && f.1 < 8 && |f.2| == f.0 && PointerOf(f.0, f.1, f.2) == v
  {
    Pow256Values();
    if v < 2048 {
      FixedBytesExact(v % 0x100, 1);
    } else if v < 526336 {
      FixedBytesExact((v - 2048) % 0x1_0000, 2);
    } else {
      FixedBytesExact((v - 526336) % 0x100_0000, 3);
    }
  }

  lemma ShortPointersDistinct(width: nat, prefix: nat, b: bytes)
    requires 1 <= width <= 3 && prefix < 8 && |b| == width
    ensures PointerOf(width, prefix, b) <= MAX_SHORT_POINTER
    ensures PointerForm(PointerOf(width, prefix, b)) == (width, prefix, b)
  {
    hide BigEndian, FixedBytes, Pow256;
    Pow256Values();
    BigEndianBound(b);
    FixedBytesOfBigEndian(b);
    var w := BigEndian(b);
    if width == 1 {
      ModUnique(prefix * 0x100 + w, prefix, 0x100, w);
    } else if width == 2 {
      ModUnique(prefix * 0x1_0000 + w, prefix, 0x1_0000, w);
    } else {
      ModUnique(prefix * 0x100_0000 + w, prefix, 0x100_0000, w);
    }
  }

  /** The four byte form covers every 32 bit number once, whatever the prefix. */
  lemma LongPointers(prefix: nat, b: bytes, v: nat)
    requires |b| == 4 && v < 0x1_0000_0000
    ensures PointerOf(4, prefix, b) == v <==> b == FixedBytes(v, 4)
  {
    Pow256Values();
    FixedBytesExact(v, 4);
    FixedBytesOfBigEndian(b);
  }
}
