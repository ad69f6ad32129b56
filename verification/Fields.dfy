/** Turning decoded values into header strings, and picking a field's value out of a record. */
module Fields {
  import opened Bytes
  import opened DataSection
  import Readers

  datatype Kind = KindString | KindBool | KindNumber | KindASN | KindList

  // A field, the paths that may hold it, and the paths whose presence alone proves it true.
  datatype FieldDef = FieldDef(name: bytes, kind: Kind, paths: seq<bytes>, presence: seq<bytes>)

  // Functions of Go's standard library that the formatter calls.
  datatype Text = Text(trimSpace: bytes -> bytes, decimal: int -> bytes, float: Value -> bytes)

  const AS := Readers.Ascii("AS")
  const TRUE := Readers.Ascii("true")
  const YES := Readers.Ascii("yes")
  const ONE := Readers.Ascii("1")
  const ZERO := Readers.Ascii("0")
  const AS_ZERO := Readers.Ascii("AS0")
  const ENGLISH := Readers.Ascii("en")
  const NAME := Readers.Ascii("name")

  datatype Formatter = Formatter(language: bytes, listSeparator: bytes, trueValue: bytes, falseValue: bytes,
                                 text: Text) {

    function BoolString(b: bool): bytes
    {
      if b then trueValue else falseValue
    }

    function FormatASN(s: bytes): bytes
    {
      var t := text.trimSpace(s);
      if t == [] || t == ZERO || t == AS_ZERO then [] else if AS <= t then t else AS + t
    }

    function FormatText(v: bytes, kind: Kind): bytes
    {
      var s := text.trimSpace(v);
      if kind == KindASN then FormatASN(s)
      else if kind == KindBool then BoolString(s == TRUE || s == ONE || s == YES)
      else if kind == KindNumber && AS <= s then s[|AS|..]
      else s
    }

    function FormatNumber(n: int, kind: Kind): bytes
    {
      if kind == KindASN then FormatASN(text.decimal(n))
      else if kind == KindBool then BoolString(n != 0)
      else text.decimal(n)
    }

    function Format(raw: Value, kind: Kind): bytes
      decreases raw, 1
    {
      match raw
      case Nil => []
      case Str(s) => FormatText(s, kind)
      case Bool(b) => BoolString(b)
      case Double(_) => text.float(raw)
      case Single(_) => text.float(raw)
      case Uint(n) => FormatNumber(n, kind)
      case Int(i) => FormatNumber(i, kind)
      case List(items) => Join(FormatItems(items))
      case Blob(s) => s
      case Map(m) =>
        var preferred := FormatFirst(raw, [language, ENGLISH, NAME], kind, true);
        if preferred != [] then preferred else FormatFirst(raw, Sorted(m.Keys), kind, false)
    }

    /** The non-empty renderings of the items. */
    function FormatItems(items: seq<Value>): seq<bytes>
      decreases items, 0
    {
      if items == [] then []
      else
        var s := Format(items[0], KindString);
        (if s == [] then [] else [s]) + FormatItems(items[1..])
    }

    /** The first non-empty rendering among the values of the keys, or nothing. */
    function FormatFirst(raw: Value, keys: seq<bytes>, kind: Kind, skipEmpty: bool): bytes
      requires raw.Map?
      decreases raw, 0, |keys|
    {
      if keys == [] then []
      else
        var s := if (skipEmpty && keys[0] == []) || keys[0] !in raw.m then [] else Format(raw.m[keys[0]], kind);
        if s != [] then s else FormatFirst(raw, keys[1..], kind, skipEmpty)
    }

    function Join(parts: seq<bytes>): bytes
    {
      if parts == [] then []
      else if |parts| == 1 then parts[0]
      else parts[0] + listSeparator + Join(parts[1..])
    }

    // -----------------------------------------------------------------------
    // The loops
    // -----------------------------------------------------------------------

    method FormatValue(raw: Value, kind: Kind) returns (s: bytes)
      ensures s == Format(raw, kind)
      decreases raw, 1
    {
      match raw
      case List(items) =>
        var parts := FormatItemsLoop(items);
        s := Join(parts);
      case Map(m) =>
        s := FormatFirstLoop(raw, [language, ENGLISH, NAME], kind, true);
        if s == [] {
          s := FormatFirstLoop(raw, Sorted(m.Keys), kind, false);
        }
      case _ => s := Format(raw, kind);
    }

    /** One more item, as the loop takes them. */
    lemma OneMoreItem(items: seq<Value>, i: nat)
      requires i < |items|
      ensures var s := Format(items[i], KindString);
              FormatItems(items[i..]) == (if s == [] then [] else [s]) + FormatItems(items[i + 1..])
    {
      hide Format;
      assert items[i..][0] == items[i] && items[i..][1..] == items[i + 1..];
    }

    method FormatItemsLoop(items: seq<Value>) returns (parts: seq<bytes>)
      ensures parts == FormatItems(items)
      decreases items, 0
    {
      hide Format, FormatItems;
      parts := [];
      assert items[0..] == items;
      for i := 0 to |items|
        invariant FormatItems(items) == parts + FormatItems(items[i..])
      {
        OneMoreItem(items, i);
        var s := FormatValue(items[i], KindString);
        if s != [] {
          assert parts + ([s] + FormatItems(items[i + 1..])) == (parts + [s]) + FormatItems(items[i + 1..]);
          parts := parts + [s];
        }
      }
      NoItems(items);
    }

    lemma NoItems(items: seq<Value>)
      ensures FormatItems(items[|items|..]) == []
    {
    }

    method FormatFirstLoop(raw: Value, keys: seq<bytes>, kind: Kind, skipEmpty: bool) returns (s: bytes)
      requires raw.Map?
      ensures s == FormatFirst(raw, keys, kind, skipEmpty)
      decreases raw, 0
    {
      hide Sorted;
      assert keys[0..] == keys;
      for i := 0 to |keys|
        invariant FormatFirst(raw, keys, kind, skipEmpty) == FormatFirst(raw, keys[i..], kind, skipEmpty)
      {
        assert keys[i..][0] == keys[i] && keys[i..][1..] == keys[i + 1..];
        if !(skipEmpty && keys[i] == []) && keys[i] in raw.m {
          s := FormatValue(raw.m[keys[i]], kind);
          if s != [] {
            return;
          }
        }
      }
      s := [];
    }

    // -----------------------------------------------------------------------
    // Extracting a field
    // -----------------------------------------------------------------------

    /** The rendering of the first path that gives something to show. */
    function FirstShown(value: bytes -> Option<Value>, paths: seq<bytes>, kind: Kind): Option<bytes>
    {
      if paths == [] then None
      else
        var raw := value(paths[0]);
        if raw.Some? && Format(raw.value, kind) != [] then Some(Format(raw.value, kind))
        else FirstShown(value, paths[1..], kind)
    }

    /** The field's value: from its paths, or true when one of its presence paths shows anything. */
    function Extract(value: bytes -> Option<Value>, def: FieldDef): Option<bytes>
    {
      var shown := FirstShown(value, def.paths, def.kind);
      if shown.Some? then shown
      else if FirstShown(value, def.presence, KindString).Some? then Some(trueValue)
      else None
    }
  }

  // -------------------------------------------------------------------------
  // What is shown
  // -------------------------------------------------------------------------

  /** The rendering that a key of a map contributes. */
  function Rendering(f: Formatter, m: map<bytes, Value>, key: bytes, kind: Kind, skipEmpty: bool): bytes
  {
    if (skipEmpty && key == []) || key !in m then [] else f.Format(m[key], kind)
  }

  /** The first key that shows anything decides. */
  lemma {:induction false} FirstKeyDecides(f: Formatter, raw: Value, keys: seq<bytes>, kind: Kind, skipEmpty: bool)
    requires raw.Map?
    ensures var s := f.FormatFirst(raw, keys, kind, skipEmpty);
            if s == [] then forall i :: 0 <= i < |keys| ==> Rendering(f, raw.m, keys[i], kind, skipEmpty) == []
            else exists i :: 0 <= i < |keys| && Rendering(f, raw.m, keys[i], kind, skipEmpty) == s &&
                             forall j :: 0 <= j < i ==> Rendering(f, raw.m, keys[j], kind, skipEmpty) == []
    decreases |keys|
  {
    hide Formatter.Format;
    if keys != [] && Rendering(f, raw.m, keys[0], kind, skipEmpty) == [] {
      var rest := keys[1..];
      FirstKeyDecides(f, raw, rest, kind, skipEmpty);
      var s := f.FormatFirst(raw, keys, kind, skipEmpty);
      assert forall i :: 0 < i < |keys| ==> keys[i] == rest[i - 1];
      if s != [] {
        var i :| 0 <= i < |rest| && Rendering(f, raw.m, rest[i], kind, skipEmpty) == s &&
                 forall j :: 0 <= j < i ==> Rendering(f, raw.m, rest[j], kind, skipEmpty) == [];
        assert Rendering(f, raw.m, keys[i + 1], kind, skipEmpty) == s;
      }
    }
  }

  /** A map shows nothing exactly when none of its values shows anything, whatever the language. */
  lemma MapShowsNothingIff(f: Formatter, m: map<bytes, Value>, kind: Kind)
    ensures f.Format(Map(m), kind) == [] <==> forall key :: key in m ==> f.Format(m[key], kind) == []
  {
    hide Formatter.Format, Formatter.FormatFirst, Readers.Ascii, Sorted;
    var raw := Map(m);
    var preferred := [f.language, ENGLISH, NAME];
    FirstKeyDecides(f, raw, preferred, kind, true);
    FirstKeyDecides(f, raw, Sorted(m.Keys), kind, false);
    SortedMembers(m.Keys);
    MapFormat(f, m, kind);
    if f.Format(raw, kind) == [] {
      forall key | key in m
        ensures f.Format(m[key], kind) == []
      {
        var i :| 0 <= i < |Sorted(m.Keys)| && Sorted(m.Keys)[i] == key;
        assert Rendering(f, m, Sorted(m.Keys)[i], kind, false) == [];
      }
    }
  }

  lemma MapFormat(f: Formatter, m: map<bytes, Value>, kind: Kind)
    ensures var preferred := f.FormatFirst(Map(m), [f.language, ENGLISH, NAME], kind, true);
            f.Format(Map(m), kind) ==
            if preferred != [] then preferred else f.FormatFirst(Map(m), Sorted(m.Keys), kind, false)
  {
  }

  /** The configured language wins when it shows anything, then "en", then "name". */
  lemma PreferredKeyWins(f: Formatter, m: map<bytes, Value>, kind: Kind)
    ensures var own := Rendering(f, m, f.language, kind, true);
            var english := Rendering(f, m, Readers.Ascii("en"), kind, true);
            var name := Rendering(f, m, Readers.Ascii("name"), kind, true);
            if own != [] then f.Format(Map(m), kind) == own
            else if english != [] then f.Format(Map(m), kind) == english
            else name != [] ==> f.Format(Map(m), kind) == name
  {
    hide Formatter.Format, Readers.Ascii, Sorted, Formatter.FormatFirst, Rendering;
    var preferred := [f.language, ENGLISH, NAME];
    FirstKeyDecides(f, Map(m), preferred, kind, true);
    MapFormat(f, m, kind);
    assert preferred[0] == f.language && preferred[1] == ENGLISH && preferred[2] == NAME;
    assert Rendering(f, m, preferred[0], kind, true) == Rendering(f, m, f.language, kind, true);
    assert Rendering(f, m, preferred[1], kind, true) == Rendering(f, m, ENGLISH, kind, true);
    assert Rendering(f, m, preferred[2], kind, true) == Rendering(f, m, NAME, kind, true);
  }

  /** Two ways to look up a path that show the same: equal, except that one may report nil as absent. */
  predicate ShowSame(a: Option<Value>, b: Option<Value>)
  {
    a == b || (a == Some(Nil) && b == None) || (a == None && b == Some(Nil))
  }

  lemma {:induction false} FirstShownSame(f: Formatter, a: bytes -> Option<Value>, b: bytes -> Option<Value>,
                                          paths: seq<bytes>, kind: Kind)
    requires forall i :: 0 <= i < |paths| ==> ShowSame(a(paths[i]), b(paths[i]))
    ensures f.FirstShown(a, paths, kind) == f.FirstShown(b, paths, kind)
  {
    hide Formatter.Format;
    if paths != [] {
      NilShowsNothing(f, kind);
      var rest := paths[1..];
      assert forall i :: 0 <= i < |rest| ==> rest[i] == paths[i + 1];
      FirstShownSame(f, a, b, rest, kind);
    }
  }

  lemma NilShowsNothing(f: Formatter, kind: Kind)
    ensures f.Format(Nil, kind) == []
  {
  }

  /** Every path a field may read. */
  function PathsOf(def: FieldDef): seq<bytes>
  {
    def.paths + def.presence
  }

  lemma ExtractSame(f: Formatter, a: bytes -> Option<Value>, b: bytes -> Option<Value>, def: FieldDef)
    requires forall path :: path in PathsOf(def) ==> ShowSame(a(path), b(path))
    ensures f.Extract(a, def) == f.Extract(b, def)
  {
    assert forall i :: 0 <= i < |def.paths| ==> def.paths[i] in PathsOf(def);
    assert forall i :: 0 <= i < |def.presence| ==> def.presence[i] in PathsOf(def);
    FirstShownSame(f, a, b, def.paths, def.kind);
    FirstShownSame(f, a, b, def.presence, KindString);
  }
}
