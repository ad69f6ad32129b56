/** Pointers and containers that lead back to where they started are errors, never loops. */
module Cycles {
  import opened Bytes
  import opened DataSection
  import opened Grammar

  /** The start of the `i`-th of the values encoded one after another from `cur`. */
  function Position(d: Decoder, cur: int, i: nat): Option<int>
    decreases i
  {
    if i == 0 then Some(cur)
    else
      var r := d.Decode(cur, 0);
      if r.Ok? then Position(d, r.value.next, i - 1) else None
  }

  /** Decoding at `off` has to decode at `c`: a pointer's target, or a key, value or item of a container. */
  ghost predicate Child(d: Decoder, off: int, c: int)
  {
    var h := d.ReadHead(off);
    && h.Ok?
    && match h.value
       case Pointer(ctrl, body) =>
         var p := d.DecodePointer(ctrl, body);
         p.Ok? && p.value.0 == c
       case Data(kind, size, body) =>
         || (kind == TYPE_MAP && exists i: nat :: i < 2 * size && Position(d, body, i) == Some(c))
         || (kind == TYPE_ARRAY && exists i: nat :: i < size && Position(d, body, i) == Some(c))
  }

  /** Each offset of the trail has to be decoded to decode the one before it. */
  ghost predicate Trail(d: Decoder, trail: seq<int>)
  {
    forall i :: 0 <= i < |trail| - 1 ==> Child(d, trail[i], trail[i + 1])
  }

  lemma DecodedAtZero(d: Decoder, t: Tree)
    requires Derives(d, t) && d.Decode(t.start, 0).Ok?
    ensures d.Decode(t.start, 0).value.next == t.next
  {
    var u := DecodeSound(d, t.start, 0);
    Unambiguous(d, t, u);
  }

  lemma {:induction false} ChildOfEntries(d: Decoder, es: Entries, cur: int, next: int, i: nat, c: int)
    returns (u: Tree)
    requires DeriveEntries(d, es, cur, next) && i < 2 * Count(es) && Position(d, cur, i) == Some(c)
    ensures Derives(d, u) && u.start == c && Height(u) < EntriesHeight(es)
    decreases es
  {
    hide Decoder.ReadHead, Decoder.DecodePointer, Decoder.DecodeScalar;
    if i == 0 {
      u := es.key;
    } else {
      DecodedAtZero(d, es.key);
      if i == 1 {
        assert Position(d, es.key.next, 0) == Some(c);
        u := es.val;
      } else {
        assert Position(d, es.key.next, i - 1) == Some(c);
        DecodedAtZero(d, es.val);
        u := ChildOfEntries(d, es.rest, es.val.next, next, i - 2, c);
      }
    }
  }

  lemma {:induction false} ChildOfItems(d: Decoder, items: Items, cur: int, next: int, i: nat, c: int) returns (u: Tree)
    requires DeriveItems(d, items, cur, next) && i < Length(items) && Position(d, cur, i) == Some(c)
    ensures Derives(d, u) && u.start == c && Height(u) < ItemsHeight(items)
    decreases items
  {
    hide Decoder.ReadHead, Decoder.DecodePointer, Decoder.DecodeScalar;
    if i == 0 {
      u := items.head;
    } else {
      DecodedAtZero(d, items.head);
      u := ChildOfItems(d, items.rest, items.head.next, next, i - 1, c);
    }
  }

  lemma ChildDerives(d: Decoder, t: Tree, c: int) returns (u: Tree)
    requires Derives(d, t) && Child(d, t.start, c)
    ensures Derives(d, u) && u.start == c && Height(u) < Height(t)
  {
    hide Decoder.ReadHead, Decoder.DecodePointer, Decoder.DecodeScalar;
    var h := d.ReadHead(t.start).value;
    match t
    case Link(_, _, target) => u := target;
    case Dict(start, next, entries) =>
      var i: nat :| i < 2 * h.size && Position(d, h.body, i) == Some(c);
      u := ChildOfEntries(d, entries, h.body, next, i, c);
    case Array(start, next, items) =>
      var i: nat :| i < h.size && Position(d, h.body, i) == Some(c);
      u := ChildOfItems(d, items, h.body, next, i, c);
  }

  lemma {:induction false} TrailDerives(d: Decoder, t: Tree, trail: seq<int>) returns (u: Tree)
    requires trail != [] && trail[0] == t.start && Derives(d, t) && Trail(d, trail)
    ensures Derives(d, u) && u.start == trail[|trail| - 1] && Height(u) + |trail| - 1 <= Height(t)
    decreases |trail|
  {
    hide Decoder.ReadHead, Decoder.DecodePointer, Decoder.DecodeScalar;
    if |trail| == 1 {
      u := t;
    } else {
      var child := ChildDerives(d, t, trail[1]);
      var rest := trail[1..];
      assert forall i :: 0 <= i < |rest| ==> rest[i] == trail[i + 1];
      u := TrailDerives(d, child, rest);
    }
  }

  /** An offset that reaches itself through pointers or containers never decodes. */
  lemma CycleNeverDecodes(d: Decoder, trail: seq<int>, depth: nat)
    requires |trail| > 1 && trail[0] == trail[|trail| - 1] && Trail(d, trail)
    ensures d.Decode(trail[0], depth).Err?
  {
    if d.Decode(trail[0], depth).Ok? {
      var t := DecodeSound(d, trail[0], depth);
      var u := TrailDerives(d, t, trail);
      Unambiguous(d, t, u);
      assert false;
    }
  }

  ghost predicate PointsTo(d: Decoder, off: int, c: int)
  {
    var h := d.ReadHead(off);
    && h.Ok? && h.value.Pointer?
    && d.DecodePointer(h.value.ctrl, h.value.body).Ok?
    && d.DecodePointer(h.value.ctrl, h.value.body).value.0 == c
  }

  ghost predicate PointerTrail(d: Decoder, trail: seq<int>)
  {
    forall i :: 0 <= i < |trail| - 1 ==> PointsTo(d, trail[i], trail[i + 1])
  }

  lemma {:induction false} SeekFollowsTrail(d: Decoder, trail: seq<int>, path: seq<bytes>, depth: nat)
    requires trail != [] && PointerTrail(d, trail) && path != [] && d.Seek(trail[0], path, depth).Ok?
    ensures d.Seek(trail[|trail| - 1], path, depth + |trail| - 1).Ok?
    decreases |trail|
  {
    hide Decoder.ReadHead, Decoder.DecodePointer, Decoder.DecodeScalar;
    if |trail| > 1 {
      var rest := trail[1..];
      assert PointsTo(d, trail[0], trail[1]);
      assert forall i :: 0 <= i < |rest| ==> rest[i] == trail[i + 1];
      SeekFollowsTrail(d, rest, path, depth + 1);
    }
  }

  /** Seeking into a cycle of pointers is an error at every depth. */
  lemma {:induction false} PointerCycleNeverSeeks(d: Decoder, trail: seq<int>, path: seq<bytes>, depth: nat)
    requires |trail| > 1 && trail[0] == trail[|trail| - 1] && PointerTrail(d, trail) && path != []
    ensures d.Seek(trail[0], path, depth).Err?
    decreases MAX_DEPTH + 1 - depth
  {
    hide Decoder.ReadHead, Decoder.DecodePointer, Decoder.DecodeScalar;
    if depth <= MAX_DEPTH && d.Seek(trail[0], path, depth).Ok? {
      SeekFollowsTrail(d, trail, path, depth);
      PointerCycleNeverSeeks(d, trail, path, depth + |trail| - 1);
      assert false;
    }
  }
}
