/** The depth limit, skipping, and progress through the file, in terms of derivations. */
module Progress {
  import opened Bytes
  import opened Sources
  import opened DataSection
  import opened Grammar

  ghost predicate HeightAtMost(v: Value, h: int)
  {
    && 0 <= h
    && (v.List? ==> forall i :: 0 <= i < |v.items| ==> HeightAtMost(v.items[i], h - 1))
    && (v.Map? ==> forall k :: k in v.m ==> HeightAtMost(v.m[k], h - 1))
  }

  lemma {:induction false} HeightMonotone(v: Value, h: int, h': int)
    requires HeightAtMost(v, h) && h <= h'
    ensures HeightAtMost(v, h')
  {
    if v.List? {
      forall i | 0 <= i < |v.items| { HeightMonotone(v.items[i], h - 1, h' - 1); }
    } else if v.Map? {
      forall k | k in v.m { HeightMonotone(v.m[k], h - 1, h' - 1); }
    }
  }

  lemma {:induction false} DenotedHeight(d: Decoder, t: Tree)
    requires Derives(d, t)
    ensures HeightAtMost(Denotes(t), Height(t))
    decreases t
  {
    hide Decoder.ReadHead, Decoder.DecodePointer;
    match t
    case Leaf(_, _, _) =>
    case Link(_, _, target) =>
      DenotedHeight(d, target);
      HeightMonotone(Denotes(target), Height(target), Height(t));
    case Dict(start, next, entries) =>
      CollectedHeight(d, entries, d.ReadHead(start).value.body, next, map[], Height(t));
    case Array(start, next, items) =>
      ItemsDenotedHeight(d, items, d.ReadHead(start).value.body, next, Height(t));
  }

  lemma {:induction false} CollectedHeight(d: Decoder, es: Entries, cur: int, next: int, acc: map<bytes, Value>, h: nat)
    requires DeriveEntries(d, es, cur, next) && EntriesHeight(es) <= h
    requires forall k :: k in acc ==> HeightAtMost(acc[k], h - 1)
    ensures forall k :: k in Collect(es, acc) ==> HeightAtMost(Collect(es, acc)[k], h - 1)
    decreases es
  {
    hide Decoder.ReadHead, Decoder.DecodePointer, Decoder.DecodeScalar;
    if es.Entry? {
      DenotedHeight(d, es.val);
      HeightMonotone(Denotes(es.val), Height(es.val), h - 1);
      CollectedHeight(d, es.rest, es.val.next, next, acc[Text(Denotes(es.key)) := Denotes(es.val)], h);
    }
  }

  lemma {:induction false} ItemsDenotedHeight(d: Decoder, items: Items, cur: int, next: int, h: nat)
    requires DeriveItems(d, items, cur, next) && ItemsHeight(items) <= h
    ensures forall i :: 0 <= i < |Denoted(items)| ==> HeightAtMost(Denoted(items)[i], h - 1)
    decreases items
  {
    hide Decoder.ReadHead, Decoder.DecodePointer, Decoder.DecodeScalar;
    if items.Item? {
      DenotedHeight(d, items.head);
      HeightMonotone(Denotes(items.head), Height(items.head), h - 1);
      ItemsDenotedHeight(d, items.rest, items.head.next, next, h);
    }
  }

  /** Success at a depth is success with the same result at every smaller depth, of bounded height. */
  lemma DepthIsCutOff(d: Decoder, off: int, depth: nat, smaller: nat)
    requires d.Decode(off, depth).Ok? && smaller <= depth
    ensures d.Decode(off, smaller) == d.Decode(off, depth)
    ensures HeightAtMost(d.Decode(off, depth).value.value, MAX_DEPTH - depth)
  {
    var t := DecodeSound(d, off, depth);
    DecodeComplete(d, t, smaller);
    DenotedHeight(d, t);
    HeightMonotone(Denotes(t), Height(t), MAX_DEPTH - depth);
  }

  // -------------------------------------------------------------------------
  // Skipping agrees with decoding, and both advance inside the file
  // -------------------------------------------------------------------------

  lemma {:induction false} SkipComplete(d: Decoder, t: Tree, depth: nat)
    requires Derives(d, t) && depth + Height(t) <= MAX_DEPTH
    ensures d.Skip(t.start, depth) == Ok(t.next)
    decreases t
  {
    hide Decoder.ReadHead;
    match t
    case Leaf(_, _, _) =>
    case Link(_, _, _) =>
    case Dict(start, next, entries) =>
      SkipEntriesComplete(d, entries, d.ReadHead(start).value.body, next, depth + 1);
    case Array(start, next, items) =>
      SkipItemsComplete(d, items, d.ReadHead(start).value.body, next, depth + 1);
  }

  lemma {:induction false} SkipEntriesComplete(d: Decoder, es: Entries, cur: int, next: int, depth: nat)
    requires DeriveEntries(d, es, cur, next) && depth + EntriesHeight(es) <= MAX_DEPTH + 1
    ensures d.SkipMany(cur, 2 * Count(es), depth) == Ok(next)
    decreases es
  {
    hide Decoder.ReadHead, Decoder.DecodePointer, Decoder.DecodeScalar;
    if es.Entry? {
      SkipComplete(d, es.key, depth);
      SkipComplete(d, es.val, depth);
      SkipEntriesComplete(d, es.rest, es.val.next, next, depth);
      assert d.SkipMany(es.key.next, 2 * Count(es) - 1, depth) == Ok(next);
    }
  }

  lemma {:induction false} SkipItemsComplete(d: Decoder, items: Items, cur: int, next: int, depth: nat)
    requires DeriveItems(d, items, cur, next) && depth + ItemsHeight(items) <= MAX_DEPTH + 1
    ensures d.SkipMany(cur, Length(items), depth) == Ok(next)
    decreases items
  {
    hide Decoder.ReadHead, Decoder.DecodePointer, Decoder.DecodeScalar;
    if items.Item? {
      SkipComplete(d, items.head, depth);
      SkipItemsComplete(d, items.rest, items.head.next, next, depth);
    }
  }

  /** Every successful read stays inside a file of `size` bytes. */
  ghost predicate Confined(d: Decoder, size: int)
  {
    forall off, n :: d.at(off, n).Ok? ==> 0 <= off && off + n <= size
  }

  /** Every source that answers as a file does keeps its decoder inside that file. */
  lemma BackedIsConfined(src: Source, file: bytes, base: int)
    requires src.Backs(file)
    ensures Confined(Decoder(src.Reads(), base), |file|)
  {
    hide Source.At;
    forall off, n | src.At(off, n).Ok?
      ensures 0 <= off && off + n <= |file|
    {
      MemoryIsConfined(file, off, n);
    }
  }

  lemma MemoryIsConfined(file: bytes, off: int, n: int)
    requires Memory(file).At(off, n).Ok?
    ensures 0 <= off && off + n <= |file|
  {
  }

  lemma HeadAdvances(d: Decoder, size: int, off: int)
    requires Confined(d, size) && d.ReadHead(off).Ok?
    ensures 0 <= off < d.ReadHead(off).value.body <= size
  {
    var c := d.at(off, 1).value;
    assert off + 1 <= size;
    if c[0] / 32 == 0 {
      assert off + 2 <= size;
    }
  }

  /** A decoded value takes at least one byte, lies inside the file, and holds fewer elements than bytes. */
  lemma {:induction false} DerivationAdvances(d: Decoder, size: int, t: Tree)
    requires Confined(d, size) && Derives(d, t)
    ensures 0 <= t.start < t.next <= size
    ensures t.Dict? ==> 2 * Count(t.entries) < t.next - t.start
    ensures t.Array? ==> Length(t.items) < t.next - t.start
    decreases t
  {
    HeadAdvances(d, size, t.start);
    match t
    case Leaf(start, _, _) => ScalarAdvances(d, size, d.ReadHead(start).value);
    case Link(_, _, _) =>
    case Dict(start, next, entries) => EntriesAdvance(d, size, entries, d.ReadHead(start).value.body, next);
    case Array(start, next, items) => ItemsAdvance(d, size, items, d.ReadHead(start).value.body, next);
  }

  lemma ScalarAdvances(d: Decoder, size: int, h: Head)
    requires Confined(d, size) && h.Data? && h.kind != TYPE_MAP && h.kind != TYPE_ARRAY && h.body <= size
    requires d.DecodeScalar(h.kind, h.size, h.body).Ok?
    ensures h.body <= d.DecodeScalar(h.kind, h.size, h.body).value.next <= size
  {
  }

  lemma {:induction false} EntriesAdvance(d: Decoder, size: int, es: Entries, cur: int, next: int)
    requires Confined(d, size) && DeriveEntries(d, es, cur, next) && cur <= size
    ensures cur + 2 * Count(es) <= next <= size
    decreases es
  {
    hide Decoder.ReadHead, Decoder.DecodePointer, Decoder.DecodeScalar;
    if es.Entry? {
      DerivationAdvances(d, size, es.key);
      DerivationAdvances(d, size, es.val);
      EntriesAdvance(d, size, es.rest, es.val.next, next);
    }
  }

  lemma {:induction false} ItemsAdvance(d: Decoder, size: int, items: Items, cur: int, next: int)
    requires Confined(d, size) && DeriveItems(d, items, cur, next) && cur <= size
    ensures cur + Length(items) <= next <= size
    decreases items
  {
    hide Decoder.ReadHead, Decoder.DecodePointer, Decoder.DecodeScalar;
    if items.Item? {
      DerivationAdvances(d, size, items.head);
      ItemsAdvance(d, size, items.rest, items.head.next, next);
    }
  }

  /** Whenever decoding succeeds, skipping ends at the same offset, strictly further on in the file. */
  lemma SkipAgreesWithDecode(d: Decoder, size: int, off: int, depth: nat)
    requires Confined(d, size) && d.Decode(off, depth).Ok?
    ensures d.Skip(off, depth) == Ok(d.Decode(off, depth).value.next)
    ensures 0 <= off < d.Decode(off, depth).value.next <= size
  {
    var t := DecodeSound(d, off, depth);
    SkipComplete(d, t, depth);
    DerivationAdvances(d, size, t);
  }

  /** So it is for memory, an open file and a window over either, with the length of the file as the bound. */
  lemma BackedSkipAgrees(src: Source, file: bytes, base: int, off: int, depth: nat)
    requires src.Backs(file) && Decoder(src.Reads(), base).Decode(off, depth).Ok?
    ensures var d := Decoder(src.Reads(), base); var next := d.Decode(off, depth).value.next;
            d.Skip(off, depth) == Ok(next) && 0 <= off < next <= |file|
  {
    hide Source.Backs, Decoder.Decode, Decoder.Skip, Confined;
    var d := Decoder(src.Reads(), base);
    BackedIsConfined(src, file, base);
    SkipAgreesWithDecode(d, |file|, off, depth);
  }

  /** The number of elements a container declares is bounded by the bytes its decoding consumed. */
  lemma CountBoundedByBytes(d: Decoder, size: int, off: int, depth: nat)
    requires Confined(d, size) && d.Decode(off, depth).Ok?
    ensures var h := d.ReadHead(off).value; var consumed := d.Decode(off, depth).value.next - off;
            h.Data? ==> (h.kind == TYPE_MAP ==> 2 * h.size < consumed) && (h.kind == TYPE_ARRAY ==> h.size < consumed)
  {
    var t := DecodeSound(d, off, depth);
    DerivationAdvances(d, size, t);
  }
}
