/** Bytes, byte strings and the failure type shared by every reader of the file. */
module Bytes {

  type byte = x: int | 0 <= x < 256

  // A Go string is a sequence of bytes, so strings and byte slices share this type.
  type bytes = seq<byte>

  datatype Option<+T> = None | Some(value: T) {
    predicate IsFailure() {
      None?
    }

    function PropagateFailure<U>(): Option<U>
      requires None?
    {
      None
    }

    function Extract(): T
      requires Some?
    {
      value
    }
  }

  // One constructor for each family of error messages.
  datatype Failure =
    | OutOfRange       // a read outside the source
    | Closed           // a read from a closed file handle
    | TooDeep          // more than MAX_DEPTH levels of containers and pointers
    | BadSize          // a double, float or integer of the wrong width, or an oversized string
    | KeyNotString     // a map key that is not a string
    | UnknownType      // a type number outside 1..15
    | NoMetadata       // no metadata marker, or the block is not a map
    | Unsupported      // a record size, node count, IP version or format version out of range
    | BadAddress       // an address that is neither 4 nor 16 bytes long
    | CorruptTree      // the walk ran out of address bits inside the search tree
    | NoDatabases      // a provider without database files
    | BadRules         // a list both allowed and blocked, or a country code that is not two letters long
    | UnknownField     // a field that is not in the catalog

  datatype Result<+T> = Ok(value: T) | Err(error: Failure) {
    predicate IsFailure() {
      Err?
    }

    function PropagateFailure<U>(): Result<U>
      requires Err?
    {
      Err(error)
    }

    function Extract(): T
      requires Ok?
    {
      value
    }
  }

  function Max(a: nat, b: nat): nat
  {
    if a < b then b else a
  }

  lemma SliceOfSlice(b: bytes, from: nat, to: nat, i: nat, j: nat)
    requires from <= to <= |b| && i <= j <= to - from
    ensures b[from..to][i..j] == b[from + i..from + j]
  {
    var x, y := b[from..to][i..j], b[from + i..from + j];
    assert |x| == |y|;
    forall k | 0 <= k < |x|
      ensures x[k] == y[k]
    {
    }
  }

  /** The number a big-endian byte string stands for. */
  function BigEndian(b: bytes): (v: nat)
  {
    if b == [] then 0 else BigEndian(b[..|b| - 1]) * 256 + b[|b| - 1]
  }

  function Pow256(n: nat): (p: nat)
    ensures p > 0
  {
    if n == 0 then 1 else Pow256(n - 1) * 256
  }

  lemma {:induction false} BigEndianBound(b: bytes)
    ensures BigEndian(b) < Pow256(|b|)
  {
    if b != [] {
      BigEndianBound(b[..|b| - 1]);
    }
  }

  /** `n` bytes, big-endian, of the low part of `v`. */
  function FixedBytes(v: nat, n: nat): (b: bytes)
    ensures |b| == n
  {
    if n == 0 then [] else FixedBytes(v / 256, n - 1) + [v % 256]
  }

  lemma {:induction false} FixedBytesInverse(v: nat, n: nat)
    ensures BigEndian(FixedBytes(v, n)) == v % Pow256(n)
  {
    if n > 0 {
      var p := Pow256(n - 1);
      FixedBytesInverse(v / 256, n - 1);
      var b := FixedBytes(v, n);
      assert b[..n - 1] == FixedBytes(v / 256, n - 1);
      ModSplit(v, p);
    }
  }

  lemma FixedBytesExact(v: nat, n: nat)
    requires v < Pow256(n)
    ensures BigEndian(FixedBytes(v, n)) == v
  {
    FixedBytesInverse(v, n);
  }

  lemma {:induction false} FixedBytesOfBigEndian(b: bytes)
    ensures FixedBytes(BigEndian(b), |b|) == b
  {
    if b != [] {
      var front, last := b[..|b| - 1], b[|b| - 1];
      FixedBytesOfBigEndian(front);
      var v := BigEndian(b);
      assert v / 256 == BigEndian(front) && v % 256 == last;
      assert b == front + [last];
    }
  }

  lemma Pow256Values()
    ensures Pow256(1) == 0x100 && Pow256(2) == 0x1_0000 && Pow256(3) == 0x100_0000
    ensures Pow256(4) == 0x1_0000_0000 && Pow256(8) == 0x1_0000_0000_0000_0000
  {
    assert Pow256(5) == 0x100_0000_0000 && Pow256(6) == 0x1_0000_0000_0000 && Pow256(7) == 0x100_0000_0000_0000;
  }

  lemma ModSplit(v: nat, p: nat)
    requires p > 0
    ensures p * 256 > 0
    ensures v % (p * 256) == (v / 256) % p * 256 + v % 256
  {
    var q, r := (v / 256) / p, (v / 256) % p;
    assert v / 256 == q * p + r;
    assert v == (q * p + r) * 256 + v % 256;
    assert (q * p + r) * 256 == q * (p * 256) + r * 256;
    assert r * 256 + v % 256 < p * 256 by {
      assert r <= p - 1;
    }
    ModUnique(v, q, p * 256, r * 256 + v % 256);
  }

  lemma ModUnique(v: nat, q: nat, m: nat, r: nat)
    requires m > 0 && r < m && v == q * m + r
    ensures v % m == r && v / m == q
  {
    var d: int := v / m - q;
    assert v == m * (v / m) + v % m;
    assert m * (v / m) == m * q + m * d;
    assert m * d < m && m * d + m > 0;
  }

  /** Bytes of `v` without leading zeros: none at all for zero. */
  function MinimalBytes(v: nat): (b: bytes)
    ensures v == 0 <==> b == []
    ensures v > 0 ==> b[0] != 0
    ensures BigEndian(b) == v
  {
    if v == 0 then [] else
      var b := MinimalBytes(v / 256) + [v % 256];
      assert b[..|b| - 1] == MinimalBytes(v / 256);
      b
  }

  lemma {:induction false} MinimalBytesLength(v: nat, n: nat)
    requires v < Pow256(n)
    ensures |MinimalBytes(v)| <= n
  {
    if v > 0 {
      if n > 0 {
        MinimalBytesLength(v / 256, n - 1);
      }
    }
  }

  // -------------------------------------------------------------------------
  // Sorting, as in Go's sort.Strings
  // -------------------------------------------------------------------------

  predicate LexLeq(a: bytes, b: bytes)
  {
    a == [] || (b != [] && (a[0] < b[0] || (a[0] == b[0] && LexLeq(a[1..], b[1..]))))
  }

  /** The order of Go's strings: by the first byte that differs, and a prefix before what it begins. */
  lemma {:induction false} LexLeqIff(a: bytes, b: bytes)
    ensures LexLeq(a, b) <==>
            a <= b || exists i :: 0 <= i < |a| && i < |b| && a[..i] == b[..i] && a[i] < b[i]
    decreases |a|
  {
    if a != [] && b != [] && a[0] == b[0] {
      var c, d := a[1..], b[1..];
      LexLeqIff(c, d);
      assert a == [a[0]] + c && b == [b[0]] + d;
      assert c <= d <==> a <= b;
      if i :| 0 <= i < |c| && i < |d| && c[..i] == d[..i] && c[i] < d[i] {
        assert a[..i + 1] == [a[0]] + c[..i] && b[..i + 1] == [b[0]] + d[..i];
        assert a[i + 1] < b[i + 1];
      }
      if i :| 0 <= i < |a| && i < |b| && a[..i] == b[..i] && a[i] < b[i] {
        assert c[..i - 1] == a[..i][1..] && d[..i - 1] == b[..i][1..];
        assert c[i - 1] < d[i - 1];
      }
    } else if a != [] && b != [] {
      assert a[..0] == b[..0];
      if i :| 0 <= i < |a| && i < |b| && a[..i] == b[..i] && a[i] < b[i] {
        assert i > 0 ==> a[..i][0] == b[..i][0];
      }
    }
  }

  lemma {:induction false} LexTotal(a: bytes, b: bytes)
    ensures LexLeq(a, b) || LexLeq(b, a)
    ensures LexLeq(a, b) && LexLeq(b, a) ==> a == b
  {
    if a != [] && b != [] {
      LexTotal(a[1..], b[1..]);
      assert a == [a[0]] + a[1..];
      assert b == [b[0]] + b[1..];
    }
  }

  lemma {:induction false} LexTransitive(a: bytes, b: bytes, c: bytes)
    requires LexLeq(a, b) && LexLeq(b, c)
    ensures LexLeq(a, c)
  {
    if a != [] && a[0] == b[0] == c[0] {
      LexTransitive(a[1..], b[1..], c[1..]);
    }
  }

  lemma LeastExists(s: set<bytes>) returns (k: bytes)
    requires s != {}
    ensures k in s && forall j :: j in s ==> LexLeq(k, j)
  {
    k :| k in s;
    if s == {k} {
      LexTotal(k, k);
    } else {
      var rest := s - {k};
      assert s == rest + {k};
      var m := LeastExists(rest);
      LexTotal(k, m);
      LexTotal(k, k);
      if LexLeq(k, m) {
        forall j | j in s
          ensures LexLeq(k, j)
        {
          if j != k {
            LexTransitive(k, m, j);
          }
        }
      } else {
        k := m;
      }
    }
  }

  predicate IsLeast(k: bytes, s: set<bytes>)
  {
    k in s && forall j :: j in s ==> LexLeq(k, j)
  }

  function Least(s: set<bytes>): (k: bytes)
    requires s != {}
    ensures IsLeast(k, s)
  {
    LeastIsUnique(s);
    var k :| IsLeast(k, s);
    k
  }

  lemma LeastIsUnique(s: set<bytes>)
    requires s != {}
    ensures exists k :: IsLeast(k, s)
    ensures forall a, b :: IsLeast(a, s) && IsLeast(b, s) ==> a == b
  {
    var k := LeastExists(s);
    assert IsLeast(k, s);
    forall a, b | IsLeast(a, s) && IsLeast(b, s)
      ensures a == b
    {
      LexTotal(a, b);
    }
  }

  /** The keys of a map in the order Go's sort.Strings leaves them in. */
  function Sorted(s: set<bytes>): (keys: seq<bytes>)
    ensures |keys| == |s|
  {
    if s == {} then [] else [Least(s)] + Sorted(s - {Least(s)})
  }

  lemma {:induction false} SortedMembers(s: set<bytes>)
    ensures forall k :: k in Sorted(s) <==> k in s
  {
    if s != {} {
      var k := Least(s);
      SortedMembers(s - {k});
      var rest := Sorted(s - {k});
      forall j
        ensures j in [k] + rest <==> j in s
      {
        assert j in [k] + rest <==> j == k || j in rest;
      }
    }
  }

  lemma {:induction false} SortedOrder(s: set<bytes>, i: nat, j: nat)
    requires i < j < |s|
    ensures Sorted(s)[i] != Sorted(s)[j] && LexLeq(Sorted(s)[i], Sorted(s)[j])
  {
    var k := Least(s);
    var rest := Sorted(s - {k});
    assert Sorted(s) == [k] + rest;
    if i == 0 {
      SortedMembers(s - {k});
      assert rest[j - 1] in rest;
    } else {
      SortedOrder(s - {k}, i - 1, j - 1);
    }
  }

  lemma {:induction false} LongerThanAll(used: set<bytes>) returns (length: nat)
    ensures forall k :: k in used ==> |k| < length
    decreases |used|
  {
    if used == {} {
      length := 0;
    } else {
      var k :| k in used;
      var rest := LongerThanAll(used - {k});
      length := if rest > |k| then rest else |k| + 1;
    }
  }

  function Padding(n: nat): (b: bytes)
    ensures |b| == n
  {
    seq(n, _ => 0)
  }

  // -------------------------------------------------------------------------
  // Leaving out what is empty
  // -------------------------------------------------------------------------

  predicate Among(i: nat, chosen: seq<nat>)
  {
    i in chosen
  }

  /** `parts` are the texts that are not empty, in order, `chosen` their indices. */
  ghost predicate Kept(texts: seq<bytes>, chosen: seq<nat>, parts: seq<bytes>)
  {
    && |parts| == |chosen|
    && (forall k :: 0 <= k < |chosen| ==> chosen[k] < |texts| && parts[k] == texts[chosen[k]] && parts[k] != [])
    && (forall j, k :: 0 <= j < k < |chosen| ==> chosen[j] < chosen[k])
    && (forall i :: 0 <= i < |texts| && texts[i] != [] ==> Among(i, chosen))
  }

  function Shifted(chosen: seq<nat>): (r: seq<nat>)
    ensures |r| == |chosen| && forall k :: 0 <= k < |chosen| ==> r[k] == chosen[k] + 1
  {
    seq(|chosen|, k requires 0 <= k < |chosen| => chosen[k] + 1)
  }

  lemma KeptLater(own: bytes, texts: seq<bytes>, chosen: seq<nat>, parts: seq<bytes>)
    requires Kept(texts, chosen, parts)
    ensures var all := [own] + texts; var later := Shifted(chosen);
            && (forall k :: 0 <= k < |later| ==> 0 < later[k] < |all| && parts[k] == all[later[k]])
            && (forall i :: 0 < i < |all| && all[i] != [] ==> Among(i, later))
  {
    var all, later := [own] + texts, Shifted(chosen);
    forall i | 0 < i < |all| && all[i] != []
      ensures Among(i, later)
    {
      assert texts[i - 1] == all[i];
      var k :| 0 <= k < |chosen| && chosen[k] == i - 1;
      assert later[k] == i;
    }
  }

  lemma KeptWithout(texts: seq<bytes>, chosen: seq<nat>, parts: seq<bytes>)
    requires Kept(texts, chosen, parts)
    ensures Kept([[]] + texts, Shifted(chosen), parts)
  {
    hide Among;
    KeptLater([], texts, chosen, parts);
    assert forall k :: 0 <= k < |chosen| ==> Shifted(chosen)[k] == chosen[k] + 1;
  }

  lemma AmongMore(i: nat, chosen: seq<nat>)
    ensures Among(i, [0] + chosen) <==> i == 0 || Among(i, chosen)
  {
  }

  lemma KeptWith(own: bytes, texts: seq<bytes>, chosen: seq<nat>, parts: seq<bytes>)
    requires Kept(texts, chosen, parts) && own != []
    ensures Kept([own] + texts, [0] + Shifted(chosen), [own] + parts)
  {
    hide Among;
    KeptLater(own, texts, chosen, parts);
    var all, later, both := [own] + texts, Shifted(chosen), [own] + parts;
    var now: seq<nat> := [0] + later;
    forall k | 0 <= k < |now|
      ensures now[k] < |all| && both[k] == all[now[k]] && both[k] != []
    {
      if k > 0 {
        assert now[k] == later[k - 1] && both[k] == parts[k - 1];
      }
    }
    forall j, k | 0 <= j < k < |now|
      ensures now[j] < now[k]
    {
      assert now[k] == later[k - 1];
      if j > 0 {
        assert now[j] == later[j - 1];
      }
    }
    forall i | 0 <= i < |all| && all[i] != []
      ensures Among(i, now)
    {
      AmongMore(i, later);
    }
  }

  lemma NoneKept()
    ensures Kept([], [], [])
  {
  }

  // -------------------------------------------------------------------------
  // Splitting, as in Go's strings.Split with a one byte separator
  // -------------------------------------------------------------------------

  const COMMA: byte := 44

  function Split(s: bytes, sep: byte): (parts: seq<bytes>)
    ensures |parts| > 0
  {
    if s == [] then [[]]
    else
      var rest := Split(s[1..], sep);
      if s[0] == sep then [[]] + rest
      else [[s[0]] + rest[0]] + rest[1..]
  }

  function JoinWith(parts: seq<bytes>, sep: byte): bytes
    requires |parts| > 0
  {
    if |parts| == 1 then parts[0] else parts[0] + [sep] + JoinWith(parts[1..], sep)
  }

  lemma Attach(x: byte, parts: seq<bytes>, more: seq<bytes>)
    requires |parts| > 0
    ensures [[x] + (parts + more)[0]] + (parts + more)[1..] == ([[x] + parts[0]] + parts[1..]) + more
  {
  }

  /** The parts are the pieces between the separators. */
  lemma {:induction false} SplitJoins(s: bytes, sep: byte)
    ensures JoinWith(Split(s, sep), sep) == s
    ensures forall part :: part in Split(s, sep) ==> sep !in part
  {
    if s != [] {
      SplitJoins(s[1..], sep);
      var rest := Split(s[1..], sep);
      if s[0] == sep {
        assert Split(s, sep)[1..] == rest;
      } else {
        var parts := [[s[0]] + rest[0]] + rest[1..];
        assert parts[1..] == rest[1..];
        assert JoinWith(parts, sep) == [s[0]] + JoinWith(rest, sep);
        assert forall part :: part in rest[1..] ==> part in rest;
      }
    }
  }

  lemma SplitStep(s: bytes, sep: byte)
    ensures Split(s, sep) ==
            if s == [] then [[]]
            else
              var rest := Split(s[1..], sep);
              if s[0] == sep then [[]] + rest else [[s[0]] + rest[0]] + rest[1..]
  {
  }

  lemma {:induction false} SplitAppends(a: bytes, b: bytes, sep: byte)
    ensures Split(a + [sep] + b, sep) == Split(a, sep) + Split(b, sep)
  {
    hide Split;
    var all := a + [sep] + b;
    SplitStep(all, sep);
    SplitStep(a, sep);
    if a == [] {
      assert all[1..] == b;
    } else {
      SplitAppends(a[1..], b, sep);
      assert all[1..] == a[1..] + [sep] + b && all[0] == a[0];
      if a[0] != sep {
        Attach(a[0], Split(a[1..], sep), Split(b, sep));
      }
    }
  }

  lemma {:induction false} SplitWithout(s: bytes, sep: byte)
    requires sep !in s
    ensures Split(s, sep) == [s]
  {
    if s != [] {
      SplitWithout(s[1..], sep);
      assert [s[0]] + s[1..] == s;
    }
  }
}
