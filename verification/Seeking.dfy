/**
 Targeted access agrees with whole decoding. `FirstAt` is what walking the encoded bytes finds, the
 first entry with each key; `Resolve` is what walking the decoded maps finds, the last one.
 */
module Seeking {
  import opened Bytes
  import opened Sources
  import opened DataSection
  import opened Grammar
  import Progress

  /** The walk through nested decoded maps, before the nil test at its end. */
  function Resolve(v: Value, path: seq<bytes>): Option<Value>
  {
    if path == [] then Some(v)
    else if !v.Map? || path[0] !in v.m then None
    else Resolve(v.m[path[0]], path[1..])
  }

  /** resolvePath: a nil at the end of the path counts as absent. */
  function ResolvePath(v: Value, path: seq<bytes>): Option<Value>
  {
    var r := Resolve(v, path);
    if r == Some(Nil) then None else r
  }

  /** The loop over the path's parts. */
  method ResolvePathLoop(record: Value, path: seq<bytes>) returns (r: Option<Value>)
    ensures r == ResolvePath(record, path)
  {
    var current := record;
    for i := 0 to |path|
      invariant Resolve(record, path) == Resolve(current, path[i..])
    {
      if !current.Map? || path[i] !in current.m {
        return None;
      }
      assert path[i..][1..] == path[i + 1..];
      current := current.m[path[i]];
    }
    r := if current == Nil then None else Some(current);
  }

  /** The derivation of the value that following `path` from entry to first matching entry reaches. */
  function FirstAt(t: Tree, path: seq<bytes>): Option<Tree>
    decreases t, |path|
  {
    if path == [] then Some(t)
    else
      match t
      case Link(_, _, target) => FirstAt(target, path)
      case Dict(_, _, entries) => FirstEntryAt(entries, path)
      case _ => None
  }

  function FirstEntryAt(es: Entries, path: seq<bytes>): Option<Tree>
    requires path != []
    decreases es, |path|
  {
    match es
    case NoEntries => None
    case Entry(key, val, rest) =>
      if Text(Denotes(key)) == path[0] then FirstAt(val, path[1..]) else FirstEntryAt(rest, path)
  }

  /** The first entry with the key, if any. */
  function FirstEntry(es: Entries, key: bytes): Option<Tree>
  {
    match es
    case NoEntries => None
    case Entry(k, val, rest) => if Text(Denotes(k)) == key then Some(val) else FirstEntry(rest, key)
  }

  function DenotedOption(t: Option<Tree>): Option<Value>
  {
    if t.Some? then Some(Denotes(t.value)) else None
  }

  // -------------------------------------------------------------------------
  // Seeking finds the first entry
  // -------------------------------------------------------------------------

  lemma {:induction false} SeekFinds(d: Decoder, t: Tree, path: seq<bytes>, depth: nat)
    requires Derives(d, t) && depth + Height(t) <= MAX_DEPTH
    ensures var u := FirstAt(t, path);
            d.Seek(t.start, path, depth) == Ok(if u.Some? then Some(u.value.start) else None)
    decreases t, 1
  {
    hide Decoder.ReadHead, Decoder.DecodePointer, Decoder.DecodeScalar;
    if path != [] {
      match t
      case Leaf(_, _, _) =>
      case Link(_, _, target) => SeekFinds(d, target, path, depth + 1);
      case Array(_, _, _) =>
      case Dict(start, next, entries) =>
        var body := d.ReadHead(start).value.body;
        FindKeyFinds(d, entries, body, next, path[0], depth + 1);
        FirstEntryThenPath(entries, path);
        var u := FirstEntry(entries, path[0]);
        if u.Some? {
          FirstEntryDerives(d, entries, body, next, path[0]);
          SeekFinds(d, u.value, path[1..], depth + 1);
        }
    }
  }

  lemma {:induction false} FindKeyFinds(d: Decoder, es: Entries, cur: int, next: int, key: bytes, depth: nat)
    requires DeriveEntries(d, es, cur, next) && depth + EntriesHeight(es) <= MAX_DEPTH + 1
    ensures var u := FirstEntry(es, key);
            d.FindKey(cur, Count(es), key, depth) == Ok(if u.Some? then Some(u.value.start) else None)
    decreases es
  {
    hide Decoder.ReadHead, Decoder.DecodePointer, Decoder.DecodeScalar;
    if es.Entry? {
      DecodeComplete(d, es.key, depth);
      assert d.DecodeKey(cur, depth) == Ok((Text(Denotes(es.key)), es.key.next));
      if Text(Denotes(es.key)) != key {
        SkipsValue(d, es.val, depth);
        FindKeyFinds(d, es.rest, es.val.next, next, key, depth);
      }
    }
  }

  lemma SkipsValue(d: Decoder, t: Tree, depth: nat)
    requires Derives(d, t) && depth + Height(t) <= MAX_DEPTH
    ensures d.Skip(t.start, depth) == Ok(t.next)
  {
    Progress.SkipComplete(d, t, depth);
  }

  lemma {:induction false} FirstEntryThenPath(es: Entries, path: seq<bytes>)
    requires path != []
    ensures var u := FirstEntry(es, path[0]);
            FirstEntryAt(es, path) == if u.Some? then FirstAt(u.value, path[1..]) else None
    ensures FirstEntry(es, path[0]).Some? ==> FirstEntry(es, path[0]).value < es
  {
    if es.Entry? {
      FirstEntryThenPath(es.rest, path);
    }
  }

  lemma {:induction false} FirstEntryDerives(d: Decoder, es: Entries, cur: int, next: int, key: bytes)
    requires DeriveEntries(d, es, cur, next) && FirstEntry(es, key).Some?
    ensures Derives(d, FirstEntry(es, key).value)
    ensures 1 + Height(FirstEntry(es, key).value) <= EntriesHeight(es)
    decreases es
  {
    hide Decoder.ReadHead, Decoder.DecodePointer, Decoder.DecodeScalar;
    if Text(Denotes(es.key)) != key {
      FirstEntryDerives(d, es.rest, es.val.next, next, key);
    }
  }

  lemma {:induction false} FirstAtDerives(d: Decoder, t: Tree, path: seq<bytes>)
    requires Derives(d, t) && FirstAt(t, path).Some?
    ensures Derives(d, FirstAt(t, path).value) && Height(FirstAt(t, path).value) <= Height(t)
    decreases t
  {
    hide Decoder.ReadHead, Decoder.DecodePointer, Decoder.DecodeScalar;
    if path != [] {
      match t
      case Link(_, _, target) => FirstAtDerives(d, target, path);
      case Dict(start, next, entries) =>
        FirstEntryThenPath(entries, path);
        FirstEntryDerives(d, entries, d.ReadHead(start).value.body, next, path[0]);
        FirstAtDerives(d, FirstEntry(entries, path[0]).value, path[1..]);
    }
  }

  /** Seeking and then decoding only the target never fails inside a record that decodes. */
  lemma ValueAtIsFirst(d: Decoder, t: Tree, path: seq<bytes>)
    requires Derives(d, t) && Height(t) <= MAX_DEPTH
    ensures d.ValueAt(t.start, path) == Ok(DenotedOption(FirstAt(t, path)))
  {
    SeekFinds(d, t, path, 0);
    var u := FirstAt(t, path);
    if u.Some? {
      FirstAtDerives(d, t, path);
      DecodeComplete(d, u.value, 0);
    }
  }

  // -------------------------------------------------------------------------
  // First and last entry
  // -------------------------------------------------------------------------

  /** What decoding the map keeps for the key: the value of the last entry with it. */
  function LastValue(es: Entries, key: bytes): Option<Value>
  {
    var m := Collect(es, map[]);
    if key in m then Some(m[key]) else None
  }

  /** In each map on the path, the first and the last entry with the wanted key denote the same value. */
  predicate RepeatsAgree(t: Tree, path: seq<bytes>)
    decreases t, |path|
  {
    if path == [] then true
    else
      match t
      case Link(_, _, target) => RepeatsAgree(target, path)
      case Dict(_, _, entries) =>
        FirstEntryThenPath(entries, path);
        var u := FirstEntry(entries, path[0]);
        u.Some? ==> LastValue(entries, path[0]) == Some(Denotes(u.value)) && RepeatsAgree(u.value, path[1..])
      case _ => true
  }

  /** No map on the path has two entries with one key. */
  predicate KeysUniqueOnPath(t: Tree, path: seq<bytes>)
    decreases t, |path|
  {
    if path == [] then true
    else
      match t
      case Link(_, _, target) => KeysUniqueOnPath(target, path)
      case Dict(_, _, entries) =>
        FirstEntryThenPath(entries, path);
        var u := FirstEntry(entries, path[0]);
        KeysUnique(entries) && (u.Some? ==> KeysUniqueOnPath(u.value, path[1..]))
      case _ => true
  }

  predicate KeysUnique(es: Entries)
  {
    es.Entry? ==> FirstEntry(es.rest, Text(Denotes(es.key))).None? && KeysUnique(es.rest)
  }

  lemma {:induction false} CollectKeys(es: Entries, acc: map<bytes, Value>, key: bytes)
    ensures key in Collect(es, acc) <==> key in acc || FirstEntry(es, key).Some?
    ensures FirstEntry(es, key).None? && key in acc ==> Collect(es, acc)[key] == acc[key]
    decreases es
  {
    if es.Entry? {
      CollectKeys(es.rest, acc[Text(Denotes(es.key)) := Denotes(es.val)], key);
    }
  }

  lemma {:induction false} CollectUnique(es: Entries, acc: map<bytes, Value>, key: bytes)
    requires KeysUnique(es) && FirstEntry(es, key).Some?
    ensures key in Collect(es, acc) && Collect(es, acc)[key] == Denotes(FirstEntry(es, key).value)
    decreases es
  {
    var acc' := acc[Text(Denotes(es.key)) := Denotes(es.val)];
    if Text(Denotes(es.key)) == key {
      CollectKeys(es.rest, acc', key);
    } else {
      CollectUnique(es.rest, acc', key);
    }
  }

  lemma {:induction false} UniqueKeysAgree(t: Tree, path: seq<bytes>)
    requires KeysUniqueOnPath(t, path)
    ensures RepeatsAgree(t, path)
    decreases t, |path|
  {
    if path != [] {
      match t
      case Link(_, _, target) => UniqueKeysAgree(target, path);
      case Dict(_, _, entries) =>
        FirstEntryThenPath(entries, path);
        var u := FirstEntry(entries, path[0]);
        if u.Some? {
          CollectUnique(entries, map[], path[0]);
          UniqueKeysAgree(u.value, path[1..]);
        }
      case _ =>
    }
  }

  lemma {:induction false} AgreeingPathResolves(d: Decoder, t: Tree, path: seq<bytes>)
    requires Derives(d, t) && RepeatsAgree(t, path)
    ensures DenotedOption(FirstAt(t, path)) == Resolve(Denotes(t), path)
    decreases t, |path|
  {
    hide Decoder.ReadHead, Decoder.DecodePointer;
    if path != [] {
      match t
      case Link(_, _, target) => AgreeingPathResolves(d, target, path);
      case Dict(start, next, entries) =>
        FirstEntryThenPath(entries, path);
        CollectKeys(entries, map[], path[0]);
        var u := FirstEntry(entries, path[0]);
        if u.Some? {
          FirstEntryDerives(d, entries, d.ReadHead(start).value.body, next, path[0]);
          AgreeingPathResolves(d, u.value, path[1..]);
        }
      case _ =>
    }
  }

  lemma ResolveOne(v: Value, path: seq<bytes>)
    requires path != []
    ensures Resolve(v, path[..1]) == if v.Map? && path[0] in v.m then Some(v.m[path[0]]) else None
  {
    assert path[..1][1..] == [];
  }

  lemma {:induction false} ResolvingPathAgrees(t: Tree, path: seq<bytes>)
    requires forall i :: 0 <= i <= |path| ==> DenotedOption(FirstAt(t, path[..i])) == Resolve(Denotes(t), path[..i])
    ensures RepeatsAgree(t, path)
    decreases t, |path|
  {
    if path != [] {
      match t
      case Link(_, _, target) =>
        forall i | 0 <= i <= |path|
          ensures DenotedOption(FirstAt(target, path[..i])) == Resolve(Denotes(target), path[..i])
        {
          assert DenotedOption(FirstAt(t, path[..i])) == Resolve(Denotes(t), path[..i]);
        }
        ResolvingPathAgrees(target, path);
      case Dict(_, _, entries) =>
        FirstEntryThenPath(entries, path);
        var u := FirstEntry(entries, path[0]);
        if u.Some? {
          FirstEntryThenPath(entries, path[..1]);
          assert FirstAt(t, path[..1]) == u;
          assert DenotedOption(FirstAt(t, path[..1])) == Resolve(Denotes(t), path[..1]);
          ResolveOne(Denotes(t), path);
          assert path[0] in Denotes(t).m && Denotes(t).m[path[0]] == Denotes(u.value);
          var rest := path[1..];
          forall i | 0 <= i <= |rest|
            ensures DenotedOption(FirstAt(u.value, rest[..i])) == Resolve(Denotes(u.value), rest[..i])
          {
            var p := path[..i + 1];
            assert p[0] == path[0] && p[1..] == rest[..i];
            FirstEntryThenPath(entries, p);
            assert DenotedOption(FirstAt(t, p)) == Resolve(Denotes(t), p);
          }
          ResolvingPathAgrees(u.value, rest);
        }
      case _ =>
    }
  }

  // -------------------------------------------------------------------------
  // Main results
  // -------------------------------------------------------------------------

  /** The derivation of a record that decodes. */
  ghost function TreeAt(d: Decoder, off: int): (t: Tree)
    requires d.Decode(off, 0).Ok?
    ensures Derives(d, t) && t.start == off && Height(t) <= MAX_DEPTH
    ensures d.Decode(off, 0) == Ok(Decoded(Denotes(t), t.next))
  {
    DecodeIffDerives(d, off, 0, d.Decode(off, 0).value);
    var t :| Derives(d, t) && t.start == off && Height(t) <= MAX_DEPTH &&
             d.Decode(off, 0).value == Decoded(Denotes(t), t.next);
    t
  }

  /** Where first and last entries agree on the path, seeking answers what the decoded record holds there. */
  lemma SeekMeansResolve(d: Decoder, off: int, path: seq<bytes>)
    requires d.Decode(off, 0).Ok? && RepeatsAgree(TreeAt(d, off), path)
    ensures d.ValueAt(off, path) == Ok(Resolve(d.Decode(off, 0).value.value, path))
  {
    var t := TreeAt(d, off);
    ValueAtIsFirst(d, t, path);
    AgreeingPathResolves(d, t, path);
  }

  /**
   Inside a record that decodes and repeats no key on the path, seeking never fails and answers what
   the decoded record holds there. resolvePath differs in one case only: it reports nil as absent.
   */
  lemma SeekPreservesMeaning(d: Decoder, off: int, path: seq<bytes>)
    requires d.Decode(off, 0).Ok?
    requires KeysUniqueOnPath(TreeAt(d, off), path)
    ensures d.ValueAt(off, path) == Ok(Resolve(d.Decode(off, 0).value.value, path))
    ensures var found := d.ValueAt(off, path).value;
            ResolvePath(d.Decode(off, 0).value.value, path) == if found == Some(Nil) then None else found
  {
    UniqueKeysAgree(TreeAt(d, off), path);
    SeekMeansResolve(d, off, path);
  }

  /**
   The exact condition: seeking agrees with the decoded record on a path and all that lead to it if
   and only if in every map on the way the first and last entries with the wanted key agree.
   */
  lemma SeekAgreesIff(d: Decoder, off: int, path: seq<bytes>)
    requires d.Decode(off, 0).Ok?
    ensures (forall i :: 0 <= i <= |path| ==>
               d.ValueAt(off, path[..i]) == Ok(Resolve(d.Decode(off, 0).value.value, path[..i])))
            <==> RepeatsAgree(TreeAt(d, off), path)
  {
    var t := TreeAt(d, off);
    forall i | 0 <= i <= |path|
      ensures d.ValueAt(off, path[..i]) == Ok(DenotedOption(FirstAt(t, path[..i])))
    {
      ValueAtIsFirst(d, t, path[..i]);
    }
    if RepeatsAgree(t, path) {
      forall i | 0 <= i <= |path|
        ensures DenotedOption(FirstAt(t, path[..i])) == Resolve(Denotes(t), path[..i])
      {
        PrefixAgrees(t, path, i);
        AgreeingPathResolves(d, t, path[..i]);
      }
    } else if forall i :: 0 <= i <= |path| ==> d.ValueAt(off, path[..i]) == Ok(Resolve(Denotes(t), path[..i])) {
      ResolvingPathAgrees(t, path);
    }
  }

  lemma {:induction false} PrefixAgrees(t: Tree, path: seq<bytes>, i: nat)
    requires RepeatsAgree(t, path) && i <= |path|
    ensures RepeatsAgree(t, path[..i])
    decreases t, |path|
  {
    if i > 0 {
      match t
      case Link(_, _, target) => PrefixAgrees(target, path, i);
      case Dict(_, _, entries) =>
        FirstEntryThenPath(entries, path);
        assert path[..i][..1] == path[..1] && path[..i][1..] == path[1..][..i - 1];
        var u := FirstEntry(entries, path[0]);
        if u.Some? {
          PrefixAgrees(u.value, path[1..], i - 1);
        }
      case _ =>
    }
  }

  // -------------------------------------------------------------------------
  // The three kinds of input on which the strategies differ
  // -------------------------------------------------------------------------

  // {a: false, a: true}
  const REPEATED_KEY: bytes := [0xE2, 0x41, 0x61, 0x00, 0x07, 0x41, 0x61, 0x01, 0x07]

  // {a: <data cache container>}
  const NIL_VALUE: bytes := [0xE1, 0x41, 0x61, 0x00, 0x05]

  lemma OneByteString(b: bytes, off: nat)
    requires off + 1 < |b| && b[off] == 0x41
    ensures Derives(Decoder(Memory(b).Reads(), 0), Leaf(off, off + 2, Str([b[off + 1]])))
  {
    var d := Decoder(Memory(b).Reads(), 0);
    assert d.at(off, 1).value == [0x41];
    assert d.at(off + 1, 1).value == [b[off + 1]];
    assert d.ReadHead(off) == Ok(Data(TYPE_STRING, 1, off + 1));
  }

  lemma ExtendedLeaf(b: bytes, off: nat)
    requires off + 1 < |b| && b[off] < 29
    requires b[off + 1] == 7 || b[off + 1] == 5
    ensures var v := if b[off + 1] == 7 then Bool(b[off] != 0) else Nil;
            Derives(Decoder(Memory(b).Reads(), 0), Leaf(off, off + 2, v))
  {
    var d := Decoder(Memory(b).Reads(), 0);
    assert d.at(off, 1).value == [b[off]];
    assert d.at(off + 1, 1).value == [b[off + 1]];
    assert d.ReadHead(off) == Ok(Data(7 + b[off + 1] as nat, b[off], off + 2));
  }

  lemma SmallMapHead(b: bytes)
    requires b != [] && 0xE0 <= b[0] < 0xE0 + 29
    ensures Decoder(Memory(b).Reads(), 0).ReadHead(0) == Ok(Data(TYPE_MAP, b[0] - 0xE0, 1))
  {
    assert Decoder(Memory(b).Reads(), 0).at(0, 1).value == [b[0]];
  }

  function RepeatedKeyTree(): Tree
  {
    Dict(0, 9,
         Entry(Leaf(1, 3, Str([0x61])), Leaf(3, 5, Bool(false)),
         Entry(Leaf(5, 7, Str([0x61])), Leaf(7, 9, Bool(true)), NoEntries)))
  }

  lemma RepeatedKeyDerives()
    ensures Derives(Decoder(Memory(REPEATED_KEY).Reads(), 0), RepeatedKeyTree())
  {
    hide Decoder.ReadHead, Decoder.DecodePointer, Decoder.DecodeScalar;
    SmallMapHead(REPEATED_KEY);
    OneByteString(REPEATED_KEY, 1);
    ExtendedLeaf(REPEATED_KEY, 3);
    OneByteString(REPEATED_KEY, 5);
    ExtendedLeaf(REPEATED_KEY, 7);
  }

  lemma RepeatedKeyDenotes()
    ensures Denotes(RepeatedKeyTree()) == Map(map[[0x61] := Bool(true)])
    ensures FirstAt(RepeatedKeyTree(), [[0x61]]) == Some(Leaf(3, 5, Bool(false)))
    ensures Height(RepeatedKeyTree()) == 1
  {
  }

  lemma AnswersDiffer(d: Decoder, t: Tree, key: bytes, first: Value, last: Value)
    requires Derives(d, t) && Height(t) <= MAX_DEPTH
    requires Denotes(t) == Map(map[key := last]) && DenotedOption(FirstAt(t, [key])) == Some(first)
    ensures d.ValueAt(t.start, [key]) == Ok(Some(first))
    ensures d.Decode(t.start, 0).Ok?
    ensures ResolvePath(d.Decode(t.start, 0).value.value, [key]) == if last == Nil then None else Some(last)
  {
    ValueAtIsFirst(d, t, [key]);
    DecodeComplete(d, t, 0);
    ResolveOne(Denotes(t), [key]);
    assert [key][..1] == [key];
  }

  /** With a repeated key seeking finds the first value while decoding keeps the last. */
  lemma RepeatedKeyDisagrees()
    ensures var d := Decoder(Memory(REPEATED_KEY).Reads(), 0); var path := [[0x61]];
            && d.ValueAt(0, path) == Ok(Some(Bool(false)))
            && d.Decode(0, 0).Ok?
            && ResolvePath(d.Decode(0, 0).value.value, path) == Some(Bool(true))
  {
    RepeatedKeyDerives();
    RepeatedKeyDenotes();
    AnswersDiffer(Decoder(Memory(REPEATED_KEY).Reads(), 0), RepeatedKeyTree(), [0x61], Bool(false), Bool(true));
  }

  function NilValueTree(): Tree
  {
    Dict(0, 5, Entry(Leaf(1, 3, Str([0x61])), Leaf(3, 5, Nil), NoEntries))
  }

  lemma NilValueDerives()
    ensures Derives(Decoder(Memory(NIL_VALUE).Reads(), 0), NilValueTree())
  {
    SmallMapHead(NIL_VALUE);
    OneByteString(NIL_VALUE, 1);
    ExtendedLeaf(NIL_VALUE, 3);
  }

  lemma NilValueDenotes()
    ensures Denotes(NilValueTree()) == Map(map[[0x61] := Nil])
    ensures FirstAt(NilValueTree(), [[0x61]]) == Some(Leaf(3, 5, Nil))
    ensures Height(NilValueTree()) == 1
  {
  }

  /** A nil value is found by seeking and absent for resolvePath. */
  lemma NilValueDisagrees()
    ensures var d := Decoder(Memory(NIL_VALUE).Reads(), 0); var path := [[0x61]];
            && d.ValueAt(0, path) == Ok(Some(Nil))
            && d.Decode(0, 0).Ok?
            && ResolvePath(d.Decode(0, 0).value.value, path) == None
  {
    NilValueDerives();
    NilValueDenotes();
    AnswersDiffer(Decoder(Memory(NIL_VALUE).Reads(), 0), NilValueTree(), [0x61], Nil, Nil);
  }

  // {a: true, b: <type 16>}
  const BROKEN_SIBLING: bytes := [0xE2, 0x41, 0x61, 0x01, 0x07, 0x41, 0x62, 0x00, 0x09]

  /** Decoding a map reaches each of its entries, and fails with the first that does not decode. */
  lemma {:induction false} EntryAfterFails(d: Decoder, es: Entries, cur: int, next: int, n: nat, depth: nat,
                                           acc: map<bytes, Value>)
    requires DeriveEntries(d, es, cur, next) && depth + EntriesHeight(es) <= MAX_DEPTH + 1
    requires Count(es) < n && d.DecodeEntry(next, depth).Err?
    ensures d.DecodeEntries(cur, n, depth, acc).Err?
    decreases es
  {
    hide Decoder.ReadHead, Decoder.DecodePointer, Decoder.DecodeScalar;
    if es.Entry? {
      DecodeComplete(d, es.key, depth);
      DecodeComplete(d, es.val, depth);
      assert d.DecodeEntry(cur, depth) == Ok((Text(Denotes(es.key)), Denotes(es.val), es.val.next));
      EntryAfterFails(d, es.rest, es.val.next, next, n - 1, depth, acc[Text(Denotes(es.key)) := Denotes(es.val)]);
    }
  }

  /** Looking for a key goes no further than its first entry, whatever comes after. */
  lemma {:induction false} FoundBefore(d: Decoder, es: Entries, cur: int, next: int, n: nat, key: bytes, depth: nat)
    requires DeriveEntries(d, es, cur, next) && depth + EntriesHeight(es) <= MAX_DEPTH + 1
    requires Count(es) <= n && FirstEntry(es, key).Some?
    ensures d.FindKey(cur, n, key, depth) == Ok(Some(FirstEntry(es, key).value.start))
    decreases es
  {
    hide Decoder.ReadHead, Decoder.DecodePointer, Decoder.DecodeScalar;
    DecodeComplete(d, es.key, depth);
    assert d.DecodeKey(cur, depth) == Ok((Text(Denotes(es.key)), es.key.next));
    if Text(Denotes(es.key)) != key {
      SkipsValue(d, es.val, depth);
      FoundBefore(d, es.rest, es.val.next, next, n - 1, key, depth);
    }
  }

  /**
   An entry that does not decode hides the whole map from decoding; seeking still finds what the entries before
   it hold.
   */
  lemma UndecodableSibling(d: Decoder, off: int, n: nat, es: Entries, body: int, next: int, key: bytes)
    requires d.ReadHead(off) == Ok(Data(TYPE_MAP, n, body)) && DeriveEntries(d, es, body, next)
    requires EntriesHeight(es) <= MAX_DEPTH && Count(es) < n && d.DecodeEntry(next, 1).Err?
    requires FirstEntry(es, key).Some?
    ensures d.Decode(off, 0).Err?
    ensures d.ValueAt(off, [key]) == Ok(Some(Denotes(FirstEntry(es, key).value)))
  {
    hide Decoder.ReadHead, Decoder.DecodePointer, Decoder.DecodeScalar, Decoder.DecodeEntry;
    EntryAfterFails(d, es, body, next, n, 1, map[]);
    FoundBefore(d, es, body, next, n, key, 1);
    FirstEntryDerives(d, es, body, next, key);
    var u := FirstEntry(es, key).value;
    assert [key][1..] == [];
    assert d.Seek(off, [key], 0) == Ok(Some(u.start));
    DecodeComplete(d, u, 0);
  }

  /** A data type that does not exist is an error. */
  lemma UnknownTypeFails(d: Decoder, off: int)
    requires d.at(off, 1) == Ok([0x00]) && d.at(off + 1, 1) == Ok([0x09])
    ensures forall depth: nat :: d.Decode(off, depth).Err?
  {
    assert d.ReadHead(off) == Ok(Data(16, 0, off + 2));
  }

  /** With an undecodable sibling seeking finds a value and decoding fails. */
  lemma BrokenSiblingDisagrees()
    ensures var d := Decoder(Memory(BROKEN_SIBLING).Reads(), 0);
            d.Decode(0, 0).Err? && d.ValueAt(0, [[0x61]]) == Ok(Some(Bool(true)))
  {
    hide Decoder.ReadHead, Decoder.DecodePointer, Decoder.DecodeScalar, Decoder.Decode, Decoder.DecodeEntry,
         Decoder.ValueAt;
    var d := Decoder(Memory(BROKEN_SIBLING).Reads(), 0);
    var es := Entry(Leaf(1, 3, Str([0x61])), Leaf(3, 5, Bool(true)), NoEntries);
    SmallMapHead(BROKEN_SIBLING);
    OneByteString(BROKEN_SIBLING, 1);
    ExtendedLeaf(BROKEN_SIBLING, 3);
    OneByteString(BROKEN_SIBLING, 5);
    assert d.at(7, 1).value == [0x00] && d.at(8, 1).value == [0x09];
    UnknownTypeFails(d, 7);
    UndecodableEntry(d, Leaf(5, 7, Str([0x62])), 1);
    UndecodableSibling(d, 0, 2, es, 1, 5, [0x61]);
  }

  lemma UndecodableEntry(d: Decoder, key: Tree, depth: nat)
    requires Derives(d, key) && depth + Height(key) <= MAX_DEPTH && d.Decode(key.next, depth).Err?
    ensures d.DecodeEntry(key.start, depth).Err?
  {
    DecodeComplete(d, key, depth);
  }
}
