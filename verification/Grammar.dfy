/**
 A reference definition of the encoding, independent of depth limits and of any reading order: a
 derivation tree says which bytes make up a value. Whole decoding, skipping and the depth limit
 are each characterised by the derivations of an offset.
 */
module Grammar {
  import opened Bytes
  import opened DataSection

  datatype Tree =
    | Leaf(start: int, next: int, value: Value)
    | Link(start: int, next: int, target: Tree)
    | Dict(start: int, next: int, entries: Entries)
    | Array(start: int, next: int, items: Items)

  datatype Entries = NoEntries | Entry(key: Tree, val: Tree, rest: Entries)

  datatype Items = NoItems | Item(head: Tree, rest: Items)

  /** The value a derivation denotes. The last of several equal keys in a map counts. */
  function Denotes(t: Tree): Value
  {
    match t
    case Leaf(_, _, value) => value
    case Link(_, _, target) => Denotes(target)
    case Dict(_, _, entries) => Map(Collect(entries, map[]))
    case Array(_, _, items) => List(Denoted(items))
  }

  function Collect(es: Entries, acc: map<bytes, Value>): map<bytes, Value>
    decreases es
  {
    match es
    case NoEntries => acc
    case Entry(key, val, rest) => Collect(rest, acc[Text(Denotes(key)) := Denotes(val)])
  }

  function Denoted(items: Items): seq<Value>
  {
    match items
    case NoItems => []
    case Item(head, rest) => [Denotes(head)] + Denoted(rest)
  }

  /** The string a map key denotes; derivations admit no other keys. */
  function Text(v: Value): bytes
  {
    if v.Str? then v.s else []
  }

  function Count(es: Entries): nat
  {
    if es.NoEntries? then 0 else 1 + Count(es.rest)
  }

  function Length(items: Items): nat
  {
    if items.NoItems? then 0 else 1 + Length(items.rest)
  }

  /** Levels of containers and pointers below the value. */
  function Height(t: Tree): nat
  {
    match t
    case Leaf(_, _, _) => 0
    case Link(_, _, target) => 1 + Height(target)
    case Dict(_, _, entries) => EntriesHeight(entries)
    case Array(_, _, items) => ItemsHeight(items)
  }

  // One more than the greatest height among the children, and 0 without children.
  function EntriesHeight(es: Entries): nat
  {
    match es
    case NoEntries => 0
    case Entry(key, val, rest) => Max(1 + Height(key), Max(1 + Height(val), EntriesHeight(rest)))
  }

  function ItemsHeight(items: Items): nat
  {
    match items
    case NoItems => 0
    case Item(head, rest) => Max(1 + Height(head), ItemsHeight(rest))
  }

  ghost predicate Derives(d: Decoder, t: Tree)
  {
    match t
    case Leaf(start, next, value) =>
      var h := d.ReadHead(start);
      h.Ok? && h.value.Data? && h.value.kind != TYPE_MAP && h.value.kind != TYPE_ARRAY &&
      d.DecodeScalar(h.value.kind, h.value.size, h.value.body) == Ok(Decoded(value, next))
    case Link(start, next, target) =>
      var h := d.ReadHead(start);
      h.Ok? && h.value.Pointer? &&
      d.DecodePointer(h.value.ctrl, h.value.body) == Ok((target.start, next)) &&
      Derives(d, target)
    case Dict(start, next, entries) =>
      var h := d.ReadHead(start);
      h.Ok? && h.value.Data? && h.value.kind == TYPE_MAP && h.value.size == Count(entries) &&
      DeriveEntries(d, entries, h.value.body, next)
    case Array(start, next, items) =>
      var h := d.ReadHead(start);
      h.Ok? && h.value.Data? && h.value.kind == TYPE_ARRAY && h.value.size == Length(items) &&
      DeriveItems(d, items, h.value.body, next)
  }

  ghost predicate DeriveEntries(d: Decoder, es: Entries, cur: int, next: int)
  {
    match es
    case NoEntries => cur == next
    case Entry(key, val, rest) =>
      key.start == cur && Derives(d, key) && Denotes(key).Str? &&
      val.start == key.next && Derives(d, val) &&
      DeriveEntries(d, rest, val.next, next)
  }

  ghost predicate DeriveItems(d: Decoder, items: Items, cur: int, next: int)
  {
    match items
    case NoItems => cur == next
    case Item(head, rest) =>
      head.start == cur && Derives(d, head) && DeriveItems(d, rest, head.next, next)
  }

  // -------------------------------------------------------------------------
  // Decoding finds the derivation, and nothing else
  // -------------------------------------------------------------------------

  lemma {:induction false} DecodeComplete(d: Decoder, t: Tree, depth: nat)
    requires Derives(d, t) && depth + Height(t) <= MAX_DEPTH
    ensures d.Decode(t.start, depth) == Ok(Decoded(Denotes(t), t.next))
    decreases t
  {
    hide Decoder.ReadHead, Decoder.DecodePointer, Decoder.DecodeScalar, BigEndian;
    match t
    case Leaf(_, _, _) =>
    case Link(_, _, target) =>
      DecodeComplete(d, target, depth + 1);
    case Dict(start, next, entries) =>
      DecodeEntriesComplete(d, entries, d.ReadHead(start).value.body, next, depth + 1, map[]);
    case Array(start, next, items) =>
      DecodeItemsComplete(d, items, d.ReadHead(start).value.body, next, depth + 1, []);
      assert [] + Denoted(items) == Denoted(items);
  }

  lemma {:induction false} DecodeEntriesComplete(d: Decoder, es: Entries, cur: int, next: int, depth: nat,
                                                 acc: map<bytes, Value>)
    requires DeriveEntries(d, es, cur, next) && depth + EntriesHeight(es) <= MAX_DEPTH + 1
    ensures d.DecodeEntries(cur, Count(es), depth, acc) == Ok((Collect(es, acc), next))
    decreases es
  {
    hide Decoder.ReadHead, Decoder.DecodePointer, Decoder.DecodeScalar;
    if es.Entry? {
      DecodeComplete(d, es.key, depth);
      DecodeComplete(d, es.val, depth);
      assert d.DecodeEntry(cur, depth) == Ok((Text(Denotes(es.key)), Denotes(es.val), es.val.next));
      DecodeEntriesComplete(d, es.rest, es.val.next, next, depth, acc[Text(Denotes(es.key)) := Denotes(es.val)]);
    }
  }

  lemma {:induction false} DecodeItemsComplete(d: Decoder, items: Items, cur: int, next: int, depth: nat,
                                               acc: seq<Value>)
    requires DeriveItems(d, items, cur, next) && depth + ItemsHeight(items) <= MAX_DEPTH + 1
    ensures d.DecodeItems(cur, Length(items), depth, acc) == Ok((acc + Denoted(items), next))
    decreases items
  {
    hide Decoder.ReadHead, Decoder.DecodePointer, Decoder.DecodeScalar;
    if items.NoItems? {
      assert acc + [] == acc;
    } else {
      DecodeComplete(d, items.head, depth);
      DecodeItemsComplete(d, items.rest, items.head.next, next, depth, acc + [Denotes(items.head)]);
      assert Denoted(items) == [Denotes(items.head)] + Denoted(items.rest);
      assert acc + [Denotes(items.head)] + Denoted(items.rest) == acc + Denoted(items);
      assert d.Decode(cur, depth) == Ok(Decoded(Denotes(items.head), items.head.next));
    }
  }

  lemma {:induction false} DecodeSound(d: Decoder, off: int, depth: nat) returns (t: Tree)
    requires d.Decode(off, depth).Ok?
    ensures Derives(d, t) && t.start == off && depth + Height(t) <= MAX_DEPTH
    ensures d.Decode(off, depth) == Ok(Decoded(Denotes(t), t.next))
    decreases MAX_DEPTH + 1 - depth, 0, 0
  {
    var r := d.Decode(off, depth).value;
    var h := d.ReadHead(off).value;
    if h.Pointer? {
      var p := d.DecodePointer(h.ctrl, h.body).value;
      var target := DecodeSound(d, p.0, depth + 1);
      t := Link(off, r.next, target);
    } else if h.kind == TYPE_MAP {
      var es := DecodeEntriesSound(d, h.body, h.size, depth + 1, map[]);
      t := Dict(off, r.next, es);
    } else if h.kind == TYPE_ARRAY {
      var items := DecodeItemsSound(d, h.body, h.size, depth + 1, []);
      t := Array(off, r.next, items);
      assert [] + Denoted(items) == Denoted(items);
    } else {
      t := Leaf(off, r.next, r.value);
    }
  }

  lemma EntryParts(d: Decoder, cur: int, depth: nat)
    requires d.DecodeEntry(cur, depth).Ok?
    ensures var k := d.Decode(cur, depth);
            k.Ok? && k.value.value.Str? &&
            var v := d.Decode(k.value.next, depth);
            v.Ok? && d.DecodeEntry(cur, depth) == Ok((k.value.value.s, v.value.value, v.value.next))
  {
    assert d.DecodeKey(cur, depth).Ok?;
  }

  lemma {:induction false} DecodeEntriesSound(d: Decoder, cur: int, n: nat, depth: nat, acc: map<bytes, Value>)
    returns (es: Entries)
    requires d.DecodeEntries(cur, n, depth, acc).Ok? && depth > 0
    ensures Count(es) == n && DeriveEntries(d, es, cur, d.DecodeEntries(cur, n, depth, acc).value.1)
    ensures n > 0 ==> depth + EntriesHeight(es) <= MAX_DEPTH + 1
    ensures n == 0 ==> es == NoEntries
    ensures d.DecodeEntries(cur, n, depth, acc).value.0 == Collect(es, acc)
    decreases MAX_DEPTH + 1 - depth, 1, n
  {
    hide Decoder.ReadHead, Decoder.DecodePointer, Decoder.DecodeScalar;
    if n == 0 {
      es := NoEntries;
    } else {
      var e := d.DecodeEntry(cur, depth).value;
      EntryParts(d, cur, depth);
      var key := DecodeSound(d, cur, depth);
      var val := DecodeSound(d, key.next, depth);
      var rest := DecodeEntriesSound(d, e.2, n - 1, depth, acc[e.0 := e.1]);
      es := Entry(key, val, rest);
    }
  }

  lemma {:induction false} DecodeItemsSound(d: Decoder, cur: int, n: nat, depth: nat, acc: seq<Value>)
    returns (items: Items)
    requires d.DecodeItems(cur, n, depth, acc).Ok? && depth > 0
    ensures Length(items) == n && DeriveItems(d, items, cur, d.DecodeItems(cur, n, depth, acc).value.1)
    ensures n > 0 ==> depth + ItemsHeight(items) <= MAX_DEPTH + 1
    ensures n == 0 ==> items == NoItems
    ensures d.DecodeItems(cur, n, depth, acc).value.0 == acc + Denoted(items)
    decreases MAX_DEPTH + 1 - depth, 1, n
  {
    hide Decoder.ReadHead, Decoder.DecodePointer, Decoder.DecodeScalar;
    if n == 0 {
      items := NoItems;
    } else {
      var e := d.Decode(cur, depth).value;
      var head := DecodeSound(d, cur, depth);
      var rest := DecodeItemsSound(d, e.next, n - 1, depth, acc + [e.value]);
      items := Item(head, rest);
      assert acc + [e.value] + Denoted(rest) == acc + Denoted(items);
    }
  }

  /** Decoding succeeds with a result exactly when a derivation low enough for the depth denotes it. */
  lemma DecodeIffDerives(d: Decoder, off: int, depth: nat, r: Decoded)
    ensures d.Decode(off, depth) == Ok(r) <==>
            exists t :: Derives(d, t) && t.start == off && depth + Height(t) <= MAX_DEPTH &&
              r == Decoded(Denotes(t), t.next)
  {
    if d.Decode(off, depth) == Ok(r) {
      var t := DecodeSound(d, off, depth);
    }
    if t :| Derives(d, t) && t.start == off && depth + Height(t) <= MAX_DEPTH && r == Decoded(Denotes(t), t.next) {
      DecodeComplete(d, t, depth);
    }
  }

  /** An offset has at most one derivation. */
  lemma {:induction false} Unambiguous(d: Decoder, t: Tree, u: Tree)
    requires Derives(d, t) && Derives(d, u) && t.start == u.start
    ensures t == u
    decreases t
  {
    hide Decoder.ReadHead, Decoder.DecodePointer, Decoder.DecodeScalar, Denotes;
    match t
    case Leaf(_, _, _) =>
    case Link(_, _, target) => Unambiguous(d, target, u.target);
    case Dict(start, _, entries) =>
      UnambiguousEntries(d, entries, u.entries, d.ReadHead(start).value.body, t.next, u.next);
    case Array(start, _, items) =>
      UnambiguousItems(d, items, u.items, d.ReadHead(start).value.body, t.next, u.next);
  }

  lemma {:induction false} UnambiguousEntries(d: Decoder, es: Entries, fs: Entries, cur: int, next: int, next': int)
    requires DeriveEntries(d, es, cur, next) && DeriveEntries(d, fs, cur, next') && Count(es) == Count(fs)
    ensures es == fs && next == next'
    decreases es
  {
    hide Decoder.ReadHead, Decoder.DecodePointer, Decoder.DecodeScalar, Denotes;
    if es.Entry? {
      Unambiguous(d, es.key, fs.key);
      Unambiguous(d, es.val, fs.val);
      UnambiguousEntries(d, es.rest, fs.rest, es.val.next, next, next');
    }
  }

  lemma {:induction false} UnambiguousItems(d: Decoder, items: Items, others: Items, cur: int, next: int, next': int)
    requires DeriveItems(d, items, cur, next) && DeriveItems(d, others, cur, next') && Length(items) == Length(others)
    ensures items == others && next == next'
    decreases items
  {
    hide Decoder.ReadHead, Decoder.DecodePointer, Decoder.DecodeScalar, Denotes;
    if items.Item? {
      Unambiguous(d, items.head, others.head);
      UnambiguousItems(d, items.rest, others.rest, items.head.next, next, next');
    }
  }
}
