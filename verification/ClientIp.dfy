/** Choosing the address a request is judged by, from the connection and a forwarded header. */
module ClientIp {
  import opened Bytes

  // A parsed address.
  type Ip = bytes

  // A network, as the set of addresses it contains.
  datatype IPNet = IPNet(contains: Ip -> bool)

  // Functions of Go's standard library, and the request's remote address, are given.
  datatype Parsing = Parsing(trimSpace: bytes -> bytes, parse: bytes -> Option<Ip>)

  function InNets(ip: Option<Ip>, nets: seq<IPNet>): bool
  {
    ip.Some? && exists i :: 0 <= i < |nets| && nets[i].contains(ip.value)
  }

  method InNetsLoop(ip: Option<Ip>, nets: seq<IPNet>) returns (r: bool)
    ensures r == InNets(ip, nets)
  {
    if ip.None? {
      return false;
    }
    for i := 0 to |nets|
      invariant forall j :: 0 <= j < i ==> !nets[j].contains(ip.value)
    {
      if nets[i].contains(ip.value) {
        return true;
      }
    }
    r := false;
  }

  datatype Resolver = Resolver(trustForwarded: bool, depth: int, trustedProxies: seq<IPNet>, parsing: Parsing) {

    /** The trimmed, non-empty parts among some. */
    function Trimmed(parts: seq<bytes>): seq<bytes>
    {
      if parts == [] then []
      else
        var part := parsing.trimSpace(parts[0]);
        (if part == [] then [] else [part]) + Trimmed(parts[1..])
    }

    /** Every entry of every occurrence of the header, from left to right. */
    function ForwardedValues(raw: seq<bytes>): seq<bytes>
    {
      if raw == [] then [] else Trimmed(Split(raw[0], COMMA)) + ForwardedValues(raw[1..])
    }

    predicate Untrusted(value: bytes)
    {
      parsing.parse(value).Some? && !InNets(parsing.parse(value), trustedProxies)
    }

    /** The rightmost address that is not one of our proxies. */
    function RightmostUntrusted(values: seq<bytes>): Option<Ip>
    {
      if values == [] then None
      else
        var last := values[|values| - 1];
        if Untrusted(last) then parsing.parse(last) else RightmostUntrusted(values[..|values| - 1])
    }

    function LeftmostParsable(values: seq<bytes>): Option<Ip>
    {
      if values == [] then None
      else if parsing.parse(values[0]).Some? then parsing.parse(values[0])
      else LeftmostParsable(values[1..])
    }

    /** What the entries say, when the peer is believed. */
    function Claimed(values: seq<bytes>): Option<Ip>
    {
      if depth > 0 then
        if depth <= |values| then parsing.parse(values[|values| - depth]) else None
      else if |trustedProxies| > 0 then RightmostUntrusted(values)
      else LeftmostParsable(values)
    }

    predicate BelievesHeader(peer: Option<Ip>)
    {
      trustForwarded && (|trustedProxies| > 0 ==> InNets(peer, trustedProxies))
    }

    function Choose(peer: Option<Ip>, raw: seq<bytes>): Option<Ip>
    {
      if !BelievesHeader(peer) then peer
      else
        var claimed := Claimed(ForwardedValues(raw));
        if claimed.Some? then claimed else peer
    }

    lemma Associates(a: seq<bytes>, b: seq<bytes>, c: seq<bytes>)
      ensures a + (b + c) == (a + b) + c
    {
    }

    // -----------------------------------------------------------------------
    // The loops
    // -----------------------------------------------------------------------

    method AppendTrimmed(before: seq<bytes>, parts: seq<bytes>) returns (out: seq<bytes>)
      ensures out == before + Trimmed(parts)
    {
      out := before;
      assert parts[0..] == parts;
      for j := 0 to |parts|
        invariant before + Trimmed(parts) == out + Trimmed(parts[j..])
      {
        assert parts[j..][0] == parts[j] && parts[j..][1..] == parts[j + 1..];
        var part := parsing.trimSpace(parts[j]);
        if part != [] {
          Associates(out, [part], Trimmed(parts[j + 1..]));
          out := out + [part];
        }
      }
      assert parts[|parts|..] == [];
    }

    method ForwardedValuesLoop(raw: seq<bytes>) returns (out: seq<bytes>)
      ensures out == ForwardedValues(raw)
    {
      hide Split, Trimmed;
      out := [];
      assert raw[0..] == raw;
      for i := 0 to |raw|
        invariant ForwardedValues(raw) == out + ForwardedValues(raw[i..])
      {
        assert raw[i..][0] == raw[i] && raw[i..][1..] == raw[i + 1..];
        Associates(out, Trimmed(Split(raw[i], COMMA)), ForwardedValues(raw[i + 1..]));
        out := AppendTrimmed(out, Split(raw[i], COMMA));
      }
      assert raw[|raw|..] == [];
    }

    method ClientIp(peer: Option<Ip>, raw: seq<bytes>) returns (r: Option<Ip>)
      ensures r == Choose(peer, raw)
    {
      hide InNets, ForwardedValues;
      if !trustForwarded {
        return peer;
      }
      if |trustedProxies| > 0 {
        var trusted := InNetsLoop(peer, trustedProxies);
        if !trusted {
          return peer;
        }
      }
      var values := ForwardedValuesLoop(raw);
      if |values| == 0 {
        return peer;
      }
      if depth > 0 {
        var idx := |values| - depth;
        if idx >= 0 && idx < |values| {
          var ip := parsing.parse(values[idx]);
          if ip.Some? {
            return ip;
          }
        }
        return peer;
      }
      if |trustedProxies| > 0 {
        var i := |values|;
        assert values[..i] == values;
        while i > 0
          invariant 0 <= i <= |values|
          invariant RightmostUntrusted(values) == RightmostUntrusted(values[..i])
        {
          i := i - 1;
          assert values[..i + 1][..i] == values[..i];
          var ip := parsing.parse(values[i]);
          if ip.Some? {
            var trusted := InNetsLoop(ip, trustedProxies);
            if !trusted {
              return ip;
            }
          }
        }
        return peer;
      }
      assert values[0..] == values;
      for i := 0 to |values|
        invariant LeftmostParsable(values) == LeftmostParsable(values[i..])
      {
        assert values[i..][1..] == values[i + 1..];
        var ip := parsing.parse(values[i]);
        if ip.Some? {
          return ip;
        }
      }
      r := peer;
    }

    // -----------------------------------------------------------------------
    // What the choice means
    // -----------------------------------------------------------------------

    /** The address at `i` is outside the trusted proxies, and everything to its right is trusted or unparsable. */
    predicate RightmostAt(values: seq<bytes>, i: nat)
    {
      i < |values| && Untrusted(values[i]) && forall j :: i < j < |values| ==> !Untrusted(values[j])
    }

    lemma RightmostStep(values: seq<bytes>)
      requires values != []
      ensures var n := |values| - 1;
              RightmostUntrusted(values) ==
              if Untrusted(values[n]) then parsing.parse(values[n]) else RightmostUntrusted(values[..n])
      ensures Untrusted(values[|values| - 1]) ==> parsing.parse(values[|values| - 1]).Some?
    {
    }

    /** The walk from the right stops at exactly the rightmost parsable address outside the trusted proxies. */
    lemma {:induction false} RightmostMeans(values: seq<bytes>)
      ensures RightmostUntrusted(values).Some? ==>
                exists i: nat :: RightmostAt(values, i) && RightmostUntrusted(values) == parsing.parse(values[i])
      ensures RightmostUntrusted(values).None? <==> forall i :: 0 <= i < |values| ==> !Untrusted(values[i])
      decreases |values|
    {
      hide Untrusted;
      if values != [] {
        hide RightmostUntrusted;
        var n := |values| - 1;
        var front := values[..n];
        RightmostStep(values);
        RightmostMeans(front);
        if Untrusted(values[n]) {
          assert RightmostAt(values, n);
        } else if RightmostUntrusted(front).Some? {
          var i: nat :| RightmostAt(front, i) && RightmostUntrusted(front) == parsing.parse(front[i]);
          assert RightmostAt(values, i) && values[i] == front[i];
        } else {
          assert forall i :: 0 <= i < n ==> values[i] == front[i];
        }
      }
    }

    /** The entry at `i` parses, and none before it does. */
    predicate LeftmostAt(values: seq<bytes>, i: nat)
    {
      i < |values| && parsing.parse(values[i]).Some? && forall j :: 0 <= j < i ==> parsing.parse(values[j]).None?
    }

    lemma {:induction false} LeftmostMeans(values: seq<bytes>, i: nat)
      ensures LeftmostAt(values, i) ==> LeftmostParsable(values) == parsing.parse(values[i])
      ensures LeftmostParsable(values).None? <==> forall j :: 0 <= j < |values| ==> parsing.parse(values[j]).None?
      decreases |values|
    {
      if values != [] {
        var rest := values[1..];
        assert forall j :: 0 < j < |values| ==> values[j] == rest[j - 1];
        assert forall j :: 0 <= j < |rest| ==> rest[j] == values[j + 1];
        LeftmostMeans(rest, if i == 0 then 0 else i - 1);
      }
    }

    /** Nobody's word is taken but that of the trusted proxies, or of every peer when none are named. */
    ghost predicate Believed(peer: Option<Ip>)
    {
      trustForwarded &&
      (trustedProxies == [] || (peer.Some? && exists net :: net in trustedProxies && net.contains(peer.value)))
    }

    /** An address that comes from none of the trusted proxies. */
    ghost predicate Outside(value: bytes)
    {
      var ip := parsing.parse(value);
      ip.Some? && forall net :: net in trustedProxies ==> !net.contains(ip.value)
    }

    lemma OutsideIsUntrusted(value: bytes)
      ensures Untrusted(value) <==> Outside(value)
    {
      var ip := parsing.parse(value);
      if ip.Some? && InNets(ip, trustedProxies) {
        var i :| 0 <= i < |trustedProxies| && trustedProxies[i].contains(ip.value);
        assert trustedProxies[i] in trustedProxies;
      }
      if ip.Some? && !InNets(ip, trustedProxies) {
        assert forall net :: net in trustedProxies ==> !net.contains(ip.value);
      }
    }

    lemma BelievedIff(peer: Option<Ip>)
      ensures BelievesHeader(peer) <==> Believed(peer)
    {
      if peer.Some? && exists net :: net in trustedProxies && net.contains(peer.value) {
        var net :| net in trustedProxies && net.contains(peer.value);
        var i :| 0 <= i < |trustedProxies| && trustedProxies[i] == net;
        assert trustedProxies[i].contains(peer.value);
      }
      assert InNets(peer, trustedProxies) ==> exists net :: net in trustedProxies && net.contains(peer.value);
    }

    /**
     Which address a request is judged by. Without belief in the header, its peer. With a depth, the entry that
     many from the right, with proxies the rightmost entry outside them, and otherwise the leftmost that is an
     address; the peer again where there is no such entry or it is no address.
     */
    lemma ChoiceIs(peer: Option<Ip>, raw: seq<bytes>, i: nat)
      ensures !Believed(peer) ==> Choose(peer, raw) == peer
      ensures var values := ForwardedValues(raw); var chosen := Choose(peer, raw);
              Believed(peer) ==>
                if depth > 0 then
                  if |values| >= depth && parsing.parse(values[|values| - depth]).Some? then
                    chosen == parsing.parse(values[|values| - depth])
                  else chosen == peer
                else if trustedProxies != [] then
                  && (i < |values| && Outside(values[i]) && (forall j :: i < j < |values| ==> !Outside(values[j])) ==>
                        chosen == parsing.parse(values[i]))
                  && ((forall j :: 0 <= j < |values| ==> !Outside(values[j])) ==> chosen == peer)
                else
                  && (LeftmostAt(values, i) ==> chosen == parsing.parse(values[i]))
                  && ((forall j :: 0 <= j < |values| ==> parsing.parse(values[j]).None?) ==> chosen == peer)
    {
      hide InNets, ForwardedValues, Outside, Believed, LeftmostAt, RightmostUntrusted, LeftmostParsable, Untrusted;
      BelievedIff(peer);
      var values := ForwardedValues(raw);
      forall j | 0 <= j < |values|
        ensures Untrusted(values[j]) <==> Outside(values[j])
      {
        OutsideIsUntrusted(values[j]);
      }
      RightmostMeans(values);
      LeftmostMeans(values, i);
      if i < |values| && Untrusted(values[i]) && forall j :: i < j < |values| ==> !Untrusted(values[j]) {
        assert RightmostAt(values, i);
        var k: nat :| RightmostAt(values, k) && RightmostUntrusted(values) == parsing.parse(values[k]);
        RightmostUnique(values, i, k);
        UntrustedParses(values[i]);
      }
      LeftmostParses(values, i);
    }

    lemma LeftmostParses(values: seq<bytes>, i: nat)
      ensures LeftmostAt(values, i) ==> i < |values| && parsing.parse(values[i]).Some?
    {
    }

    /** The trimmed parts of every line, the empty ones among them. */
    function AllParts(raw: seq<bytes>): seq<bytes>
    {
      if raw == [] then [] else TrimmedParts(Split(raw[0], 44)) + AllParts(raw[1..])
    }

    function TrimmedParts(parts: seq<bytes>): seq<bytes>
    {
      seq(|parts|, i requires 0 <= i < |parts| => parsing.trimSpace(parts[i]))
    }

    lemma {:induction false} TrimmedAreKept(parts: seq<bytes>, later: seq<bytes>, chosen: seq<nat>, kept: seq<bytes>)
      returns (all: seq<nat>)
      requires Kept(later, chosen, kept)
      ensures Kept(TrimmedParts(parts) + later, all, Trimmed(parts) + kept)
      decreases |parts|
    {
      hide Kept;
      if parts == [] {
        all := chosen;
        assert TrimmedParts(parts) + later == later && Trimmed(parts) + kept == kept;
      } else {
        var rest := parts[1..];
        var own := parsing.trimSpace(parts[0]);
        all := TrimmedAreKept(rest, later, chosen, kept);
        assert TrimmedParts(parts) + later == [own] + (TrimmedParts(rest) + later);
        if own == [] {
          KeptWithout(TrimmedParts(rest) + later, all, Trimmed(rest) + kept);
          assert Trimmed(parts) + kept == Trimmed(rest) + kept;
          all := Shifted(all);
        } else {
          KeptWith(own, TrimmedParts(rest) + later, all, Trimmed(rest) + kept);
          assert Trimmed(parts) + kept == [own] + (Trimmed(rest) + kept);
          all := [0] + Shifted(all);
        }
      }
    }

    /** The entries are the trimmed parts that are not empty, in the order of the lines and of the parts in them. */
    lemma {:induction false} EntriesAreKept(raw: seq<bytes>) returns (chosen: seq<nat>)
      ensures Kept(AllParts(raw), chosen, ForwardedValues(raw))
      decreases |raw|
    {
      hide Kept, Split;
      if raw == [] {
        NoneKept();
        chosen := [];
      } else {
        var later := EntriesAreKept(raw[1..]);
        chosen := TrimmedAreKept(Split(raw[0], COMMA), AllParts(raw[1..]), later, ForwardedValues(raw[1..]));
      }
    }

    lemma RightmostUnique(values: seq<bytes>, i: nat, j: nat)
      requires RightmostAt(values, i) && RightmostAt(values, j)
      ensures i == j
    {
    }

    lemma UntrustedParses(value: bytes)
      ensures Untrusted(value) ==> parsing.parse(value).Some?
    {
    }

    lemma {:induction false} RightmostOfBoth(a: seq<bytes>, b: seq<bytes>)
      ensures RightmostUntrusted(a + b) ==
              if RightmostUntrusted(b).Some? then RightmostUntrusted(b) else RightmostUntrusted(a)
      decreases |b|
    {
      hide Untrusted;
      if b == [] {
        assert a + b == a;
      } else {
        var n := |b| - 1;
        RightmostOfBoth(a, b[..n]);
        assert (a + b)[..|a + b| - 1] == a + b[..n];
        UntrustedParses(b[n]);
      }
    }

    lemma {:induction false} TrimmedAppends(a: seq<bytes>, b: seq<bytes>)
      ensures Trimmed(a + b) == Trimmed(a) + Trimmed(b)
    {
      if a == [] {
        assert a + b == b;
      } else {
        assert (a + b)[1..] == a[1..] + b;
        TrimmedAppends(a[1..], b);
      }
    }

    lemma {:induction false} ForwardedAppends(a: seq<bytes>, b: seq<bytes>)
      ensures ForwardedValues(a + b) == ForwardedValues(a) + ForwardedValues(b)
    {
      hide Split;
      if a == [] {
        assert a + b == b;
      } else {
        assert (a + b)[1..] == a[1..] + b;
        ForwardedAppends(a[1..], b);
      }
    }

    /** A client can put values before the honest ones as header lines of its own or within the first line. */
    predicate Prepends(forged: seq<bytes>, raw: seq<bytes>, sent: seq<bytes>)
    {
      sent == forged + raw ||
      (forged != [] && raw != [] &&
       sent == forged[..|forged| - 1] + [forged[|forged| - 1] + [COMMA] + raw[0]] + raw[1..])
    }

    lemma JoinedLine(last: bytes, first: bytes, rest: seq<bytes>)
      ensures ForwardedValues([last + [COMMA] + first] + rest) ==
              ForwardedValues([last]) + ForwardedValues([first] + rest)
    {
      hide Split, Trimmed;
      SplitAppends(last, first, COMMA);
      TrimmedAppends(Split(last, COMMA), Split(first, COMMA));
      var one: seq<bytes> := [last];
      assert one[1..] == [];
      assert ([last + [COMMA] + first] + rest)[1..] == rest && ([first] + rest)[1..] == rest;
    }

    lemma PrependedValues(forged: seq<bytes>, raw: seq<bytes>, sent: seq<bytes>)
      requires Prepends(forged, raw, sent)
      ensures ForwardedValues(sent) == ForwardedValues(forged) + ForwardedValues(raw)
    {
      hide ForwardedValues;
      if sent == forged + raw {
        ForwardedAppends(forged, raw);
      } else {
        var n := |forged| - 1;
        var front, last := forged[..n], forged[n];
        var first, rest := raw[0], raw[1..];
        var tail := [last + [COMMA] + first] + rest;
        assert sent == front + tail;
        ForwardedAppends(front, tail);
        JoinedLine(last, first, rest);
        assert forged == front + [last] && raw == [first] + rest;
        ForwardedAppends(front, [last]);
        Associates(ForwardedValues(front), ForwardedValues([last]), ForwardedValues(raw));
      }
    }

    /**
     With trusted proxies and no depth, an address found behind a trusted peer is the rightmost one outside the
     proxies, and nothing a client puts in front of the honest values changes it.
     */
    lemma RightmostIsStable(peer: Option<Ip>, forged: seq<bytes>, raw: seq<bytes>, sent: seq<bytes>, i: nat)
      requires depth <= 0 && |trustedProxies| > 0 && BelievesHeader(peer) && Prepends(forged, raw, sent)
      requires RightmostAt(ForwardedValues(raw), i)
      ensures Choose(peer, raw) == parsing.parse(ForwardedValues(raw)[i]) && Choose(peer, sent) == Choose(peer, raw)
    {
      hide InNets, ForwardedValues, Untrusted, Prepends;
      var values := ForwardedValues(raw);
      PrependedValues(forged, raw, sent);
      RightmostAtUntrusted(values, i);
      UntrustedParses(values[i]);
      RightmostMeans(values);
      var j: nat :| RightmostAt(values, j) && RightmostUntrusted(values) == parsing.parse(values[j]);
      RightmostUnique(values, i, j);
      RightmostOfBoth(ForwardedValues(forged), values);
    }

    lemma RightmostAtUntrusted(values: seq<bytes>, i: nat)
      requires RightmostAt(values, i)
      ensures i < |values| && Untrusted(values[i])
    {
    }

    /** The choice resists every forged prefix exactly when the honest values hold an address outside the proxies. */
    lemma RightmostStableIff(peer: Option<Ip>, raw: seq<bytes>, forgery: bytes)
      requires depth <= 0 && |trustedProxies| > 0 && BelievesHeader(peer)
      requires ForwardedValues([forgery]) == [forgery] && Untrusted(forgery) && parsing.parse(forgery) != peer
      ensures (forall forged, sent :: Prepends(forged, raw, sent) ==> Choose(peer, sent) == Choose(peer, raw))
              <==> exists i :: 0 <= i < |ForwardedValues(raw)| && Untrusted(ForwardedValues(raw)[i])
    {
      hide InNets, ForwardedValues, Untrusted, Prepends;
      var values := ForwardedValues(raw);
      RightmostMeans(values);
      if RightmostUntrusted(values).Some? {
        var i: nat :| RightmostAt(values, i);
        forall forged, sent | Prepends(forged, raw, sent)
          ensures Choose(peer, sent) == Choose(peer, raw)
        {
          RightmostIsStable(peer, forged, raw, sent, i);
        }
      } else {
        assert Prepends([forgery], raw, [forgery] + raw) by {
          PrependLine([forgery], raw);
        }
        PrependedValues([forgery], raw, [forgery] + raw);
        RightmostOfBoth([forgery], values);
        UntrustedParses(forgery);
        assert RightmostUntrusted([forgery]) == parsing.parse(forgery);
      }
    }

    lemma PrependLine(forged: seq<bytes>, raw: seq<bytes>)
      ensures Prepends(forged, raw, forged + raw)
    {
    }

    /** With a depth, prepending is without effect once there are that many honest values. */
    lemma DepthIsStable(peer: Option<Ip>, forged: seq<bytes>, raw: seq<bytes>, sent: seq<bytes>)
      requires 0 < depth <= |ForwardedValues(raw)| && Prepends(forged, raw, sent)
      ensures Choose(peer, sent) == Choose(peer, raw)
    {
      hide InNets, Prepends, ForwardedValues;
      PrependedValues(forged, raw, sent);
    }

    function Copies(value: bytes, n: nat): seq<bytes>
    {
      seq(n, _ => value)
    }

    lemma {:induction false} ForwardedCopies(value: bytes, n: nat)
      requires ForwardedValues([value]) == [value]
      ensures ForwardedValues(Copies(value, n)) == Copies(value, n)
    {
      hide Split, Trimmed;
      if n > 0 {
        ForwardedCopies(value, n - 1);
        assert Copies(value, n)[1..] == Copies(value, n - 1);
        var one: seq<bytes> := [value];
        assert one[1..] == [];
        assert Copies(value, n) == [value] + Copies(value, n - 1);
      }
    }

    /** With fewer honest values than the depth, whoever writes the header picks the result. */
    lemma ShallowHeadersAreForgeable(peer: Option<Ip>, raw: seq<bytes>, forgery: bytes) returns (sent: seq<bytes>)
      requires BelievesHeader(peer) && |ForwardedValues(raw)| < depth
      requires ForwardedValues([forgery]) == [forgery] && parsing.parse(forgery).Some?
      ensures Choose(peer, raw) == peer
      ensures Prepends(Copies(forgery, depth - |ForwardedValues(raw)|), raw, sent) &&
              Choose(peer, sent) == parsing.parse(forgery)
    {
      hide InNets, Prepends, ForwardedValues;
      var forged := Copies(forgery, depth - |ForwardedValues(raw)|);
      sent := forged + raw;
      PrependLine(forged, raw);
      PrependedValues(forged, raw, sent);
      ForwardedCopies(forgery, |forged|);
    }

    /** Without proxies or a depth, the first parsable value wins, so a prepended one always does. */
    lemma LeftmostIsForgeable(peer: Option<Ip>, raw: seq<bytes>, forgery: bytes)
      requires trustForwarded && depth <= 0 && trustedProxies == []
      requires ForwardedValues([forgery]) == [forgery] && parsing.parse(forgery).Some?
      ensures Choose(peer, [forgery] + raw) == parsing.parse(forgery)
    {
      hide InNets, ForwardedValues;
      PrependLine([forgery], raw);
      PrependedValues([forgery], raw, [forgery] + raw);
    }

    /** A header from a peer that is not a trusted proxy has no effect at all. */
    lemma UntrustedPeerIsItself(peer: Option<Ip>, raw: seq<bytes>)
      requires !trustForwarded || (|trustedProxies| > 0 && !InNets(peer, trustedProxies))
      ensures Choose(peer, raw) == peer
    {
    }
  }
}
