/** What decoded values are rendered as, kind by kind, and what that means for the request they decide. */
module Renderings {
  import opened Bytes
  import opened DataSection
  import opened Readers
  import opened Fields

  // -------------------------------------------------------------------------
  // Truth values
  // -------------------------------------------------------------------------

  /** The value says yes: a true bool, or a number or string that means it. */
  predicate SaysYes(f: Formatter, raw: Value)
  {
    match raw
    case Bool(b) => b
    case Uint(n) => n != 0
    case Int(i) => i != 0
    case Str(s) => f.text.trimSpace(s) in { Ascii("true"), Ascii("1"), Ascii("yes") }
    case _ => false
  }

  /**
   A bool of any kind, and a number or string of kind bool, is rendered as one of the two configured texts: as the
   one for true exactly when it says yes.
   */
  lemma TruthShows(f: Formatter, raw: Value, kind: Kind)
    requires raw.Bool? || (kind == KindBool && (raw.Uint? || raw.Int? || raw.Str?))
    ensures SaysYes(f, raw) ==> f.Format(raw, kind) == f.trueValue
    ensures !SaysYes(f, raw) ==> f.Format(raw, kind) == f.falseValue
    ensures f.trueValue != f.falseValue ==> (f.Format(raw, kind) == f.trueValue <==> SaysYes(f, raw))
  {
    hide Ascii;
  }

  // -------------------------------------------------------------------------
  // Numbers and texts
  // -------------------------------------------------------------------------

  /** Decimal numbers have digits only. */
  ghost predicate PlainDecimals(text: Fields.Text)
  {
    forall n: int ::
      && text.trimSpace(text.decimal(n)) == text.decimal(n)
      && text.decimal(n) != [] && text.decimal(n)[0] != 'A' as int
      && (text.decimal(n) == Ascii("0") <==> n == 0)
  }

  /** An AS number shows with its prefix and its digits, and zero not at all. */
  lemma NumberShowsAsn(f: Formatter, raw: Value, n: int)
    requires PlainDecimals(f.text) && (raw == Int(n) || (n >= 0 && raw == Uint(n)))
    ensures f.Format(raw, KindASN) == if n == 0 then [] else Ascii("AS") + f.text.decimal(n)
  {
    var s := f.text.decimal(n);
    assert Ascii("AS")[0] == 'A' as int;
    assert !(Ascii("AS") <= s) && s != Ascii("AS0") by {
      assert Ascii("AS0")[0] == 'A' as int;
    }
  }

  /** Any other number shows as its digits. */
  lemma NumberShowsDigits(f: Formatter, raw: Value, n: int, kind: Kind)
    requires (raw == Int(n) || (n >= 0 && raw == Uint(n))) && kind != KindASN && kind != KindBool
    ensures f.Format(raw, kind) == f.text.decimal(n)
  {
  }

  /** An AS number given as text shows with its prefix, added where it is missing. */
  lemma TextShowsAsn(f: Formatter, s: bytes, digits: bytes)
    requires var t := f.text.trimSpace(f.text.trimSpace(s));
             t == Ascii("AS") + digits || (t == digits && !(Ascii("AS") <= digits))
    requires digits != [] && digits != Ascii("0")
    ensures f.Format(Str(s), KindASN) == Ascii("AS") + digits
  {
    assert |Ascii("AS")| == 2 && |Ascii("AS0")| == 3 && |Ascii("0")| == 1;
    assert Ascii("AS0") == Ascii("AS") + Ascii("0");
    assert Ascii("AS")[0] == 'A' as int && Ascii("0")[0] == '0' as int;
    assert Ascii("AS") <= Ascii("AS0");
    if Ascii("AS") + digits == Ascii("AS0") {
      ThreeDigits(digits);
    }
  }

  lemma ThreeDigits(digits: bytes)
    requires Ascii("AS") + digits == Ascii("AS0")
    ensures digits == Ascii("0")
  {
    assert digits == (Ascii("AS") + digits)[|Ascii("AS")|..];
    assert Ascii("AS0")[|Ascii("AS")|..] == Ascii("0");
  }

  lemma UnknownAsnShowsNothing(f: Formatter, s: bytes)
    requires f.text.trimSpace(f.text.trimSpace(s)) in { [], Ascii("0"), Ascii("AS0") }
    ensures f.Format(Str(s), KindASN) == []
  {
  }

  /** Text of kind number loses a leading "AS"; other text shows trimmed and otherwise as it is. */
  lemma TextShowsTrimmed(f: Formatter, s: bytes, kind: Kind)
    requires kind != KindASN && kind != KindBool
    ensures var t := f.text.trimSpace(s); var shown := f.Format(Str(s), kind);
            if kind == KindNumber && Ascii("AS") <= t then t == Ascii("AS") + shown else shown == t
  {
    var t := f.text.trimSpace(s);
    if Ascii("AS") <= t {
      assert t == Ascii("AS") + t[|Ascii("AS")|..];
    }
  }

  /** Bytes show as they are, floating point numbers as Go prints them, and nil not at all, whatever the kind. */
  lemma OthersShow(f: Formatter, raw: Value, kind: Kind)
    ensures raw.Blob? ==> f.Format(raw, kind) == raw.s
    ensures raw.Double? || raw.Single? ==> f.Format(raw, kind) == f.text.float(raw)
    ensures raw.Nil? ==> f.Format(raw, kind) == []
  {
  }

  // -------------------------------------------------------------------------
  // Lists
  // -------------------------------------------------------------------------

  /** The parts one after another, the separator between any two. */
  function Separated(parts: seq<bytes>, separator: bytes): bytes
  {
    if |parts| <= 1 then (if parts == [] then [] else parts[0])
    else Separated(parts[..|parts| - 1], separator) + separator + parts[|parts| - 1]
  }

  lemma {:induction false} JoinAppend(f: Formatter, parts: seq<bytes>, last: bytes)
    requires parts != []
    ensures f.Join(parts + [last]) == f.Join(parts) + f.listSeparator + last
    decreases |parts|
  {
    assert (parts + [last])[1..] == parts[1..] + [last];
    if |parts| == 1 {
      assert f.Join([last]) == last;
      assert parts + [last] == [parts[0], last];
    } else {
      JoinAppend(f, parts[1..], last);
    }
  }

  lemma {:induction false} JoinSeparates(f: Formatter, parts: seq<bytes>)
    ensures f.Join(parts) == Separated(parts, f.listSeparator)
    decreases |parts|
  {
    if |parts| > 1 {
      var front, last := parts[..|parts| - 1], parts[|parts| - 1];
      assert parts == front + [last];
      JoinSeparates(f, front);
      JoinAppend(f, front, last);
    }
  }

  /** What each item shows on its own. */
  function Texts(f: Formatter, items: seq<Value>): (texts: seq<bytes>)
    ensures |texts| == |items| && forall i :: 0 <= i < |items| ==> texts[i] == f.Format(items[i], KindString)
  {
    seq(|items|, i requires 0 <= i < |items| => f.Format(items[i], KindString))
  }

  lemma {:induction false} ItemsInOrder(f: Formatter, items: seq<Value>) returns (chosen: seq<nat>)
    ensures Kept(Texts(f, items), chosen, f.FormatItems(items))
    decreases |items|
  {
    hide Formatter.Format, Kept;
    if items == [] {
      chosen := [];
      NoneKept();
    } else {
      var rest := items[1..];
      chosen := ItemsInOrder(f, rest);
      var own := f.Format(items[0], KindString);
      assert Texts(f, items) == [own] + Texts(f, rest);
      if own == [] {
        KeptWithout(Texts(f, rest), chosen, f.FormatItems(rest));
        assert [] + f.FormatItems(rest) == f.FormatItems(rest);
        chosen := Shifted(chosen);
      } else {
        KeptWith(own, Texts(f, rest), chosen, f.FormatItems(rest));
        chosen := [0] + Shifted(chosen);
      }
    }
  }

  /** A list shows the items that show something, in order, with the separator between them. */
  lemma ListShows(f: Formatter, items: seq<Value>, kind: Kind) returns (chosen: seq<nat>, parts: seq<bytes>)
    ensures Kept(Texts(f, items), chosen, parts)
    ensures f.Format(List(items), kind) == Separated(parts, f.listSeparator)
  {
    hide Kept, Separated, Formatter.FormatItems, Formatter.Join;
    parts := f.FormatItems(items);
    chosen := ItemsInOrder(f, items);
    JoinSeparates(f, parts);
  }
}
