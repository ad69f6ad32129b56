/**
 Addresses and networks as numbers: the bits of an address spell its big-endian number, first bit most
 significant, and a network holds the addresses that agree with it after division by a power of two. What lookups
 in written databases answer is restated in these terms.
 */
module AddressNumbers {
  import opened Bytes
  import opened DataSection
  import opened FixtureEncoder
  import opened SearchTrees
  import opened Readers
  import opened BuiltDatabase
  import opened EndToEnd

  // -------------------------------------------------------------------------
  // Bits and numbers
  // -------------------------------------------------------------------------

  /** The number some bits spell, the first the most significant. */
  function Spelled(bits: seq<bool>): nat
  {
    if bits == [] then 0
    else 2 * Spelled(bits[..|bits| - 1]) + if bits[|bits| - 1] then 1 else 0
  }

  lemma {:induction false} SpelledAppend(a: seq<bool>, b: seq<bool>)
    ensures Spelled(a + b) == Spelled(a) * Pow2(|b|) + Spelled(b)
    decreases |b|
  {
    if b == [] {
      assert a + b == a;
    } else {
      var n := |b| - 1;
      assert (a + b)[..|a| + n] == a + b[..n];
      SpelledAppend(a, b[..n]);
      OneMoreBit(Spelled(a), Pow2(n), Spelled(b[..n]), if b[n] then 1 else 0);
    }
  }

  lemma OneMoreBit(high: nat, p: nat, low: nat, bit: nat)
    ensures 2 * (high * p + low) + bit == high * (2 * p) + (2 * low + bit)
  {
  }

  lemma {:induction false} SpelledBound(bits: seq<bool>)
    ensures Spelled(bits) < Pow2(|bits|)
    decreases |bits|
  {
    if bits != [] {
      SpelledBound(bits[..|bits| - 1]);
    }
  }

  lemma {:induction false} SpelledDistinct(a: seq<bool>, b: seq<bool>)
    requires |a| == |b| && Spelled(a) == Spelled(b)
    ensures a == b
    decreases |a|
  {
    if a != [] {
      var n := |a| - 1;
      SpelledDistinct(a[..n], b[..n]);
      assert a == a[..n] + [a[n]] && b == b[..n] + [b[n]];
    }
  }

  lemma HalfOf(x: nat, p: nat)
    requires p > 0
    ensures 2 * p > 0 && x / p == 2 * (x / (2 * p)) + x / p % 2
  {
    var q := x / p;
    assert x == p * q + x % p;
    var half, bit := q / 2, q % 2;
    assert p * q == (2 * p) * half + p * bit;
    assert p * bit + x % p < 2 * p;
    assert half * (2 * p) == (2 * p) * half;
    ModUnique(x, half, 2 * p, p * bit + x % p);
  }

  /** The first bits of a byte spell its quotient by a power of two. */
  lemma {:induction false} TopBits(x: byte, k: nat)
    requires k <= 8
    ensures Spelled(Bits([x])[..k]) == x / Pow2(8 - k)
    decreases k
  {
    if k == 0 {
      assert Pow2(8) == 256 by {
        assert Pow2(4) == 16;
      }
    } else {
      TopBits(x, k - 1);
      assert Bits([x])[..k][..k - 1] == Bits([x])[..k - 1];
      HalfOf(x, Pow2(8 - k));
    }
  }

  /** The bits of an address, first bit most significant, spell its big-endian number. */
  lemma {:induction false} BitsSpell(addr: bytes)
    ensures Spelled(Bits(addr)) == BigEndian(addr)
    decreases |addr|
  {
    hide BitAt;
    if addr != [] {
      var front, last := addr[..|addr| - 1], addr[|addr| - 1];
      assert addr == front + [last];
      BitsAppend(front, [last]);
      SpelledAppend(Bits(front), Bits([last]));
      TopBits(last, 8);
      assert Bits([last])[..8] == Bits([last]);
      BitsSpell(front);
      assert Pow2(8) == 256 by {
        assert Pow2(4) == 16;
      }
    }
  }

  /** The first `k` bits spell the number divided by two for every other bit. */
  lemma PrefixSpells(bits: seq<bool>, k: nat)
    requires k <= |bits|
    ensures Spelled(bits[..k]) == Spelled(bits) / Pow2(|bits| - k)
  {
    assert bits == bits[..k] + bits[k..];
    SpelledAppend(bits[..k], bits[k..]);
    SpelledBound(bits[k..]);
    ModUnique(Spelled(bits), Spelled(bits[..k]), Pow2(|bits| - k), Spelled(bits[k..]));
  }

  /** An address starts with the first bits of another exactly when both numbers agree without the other bits. */
  lemma PrefixIffNumbersAgree(net: bytes, addr: bytes, ones: nat)
    requires |net| == |addr| && ones <= 8 * |addr|
    ensures Bits(net)[..ones] <= Bits(addr) <==>
            BigEndian(net) / Pow2(8 * |addr| - ones) == BigEndian(addr) / Pow2(8 * |addr| - ones)
  {
    hide Bits, BitAt, Spelled;
    BitsSpell(net);
    BitsSpell(addr);
    PrefixSpells(Bits(net), ones);
    PrefixSpells(Bits(addr), ones);
    if Spelled(Bits(net)[..ones]) == Spelled(Bits(addr)[..ones]) {
      SpelledDistinct(Bits(net)[..ones], Bits(addr)[..ones]);
    }
    assert Bits(net)[..ones] <= Bits(addr) <==> Bits(net)[..ones] == Bits(addr)[..ones];
  }

  // -------------------------------------------------------------------------
  // Addresses and networks as numbers
  // -------------------------------------------------------------------------

  lemma {:induction false} BigEndianAppend(a: bytes, b: bytes)
    ensures BigEndian(a + b) == BigEndian(a) * Pow256(|b|) + BigEndian(b)
    decreases |b|
  {
    if b == [] {
      assert a + b == a;
    } else {
      var n := |b| - 1;
      assert (a + b)[..|a| + n] == a + b[..n];
      BigEndianAppend(a, b[..n]);
      OneMoreByte(BigEndian(a), Pow256(n), BigEndian(b[..n]), b[n]);
    }
  }

  lemma OneMoreByte(high: nat, p: nat, low: nat, last: nat)
    ensures (high * p + low) * 256 + last == high * (p * 256) + (low * 256 + last)
  {
  }

  lemma {:induction false} ZerosAreZero(n: nat)
    ensures BigEndian(ZeroBytes(n)) == 0
  {
    if n > 0 {
      assert ZeroBytes(n)[..n - 1] == ZeroBytes(n - 1);
      ZerosAreZero(n - 1);
    }
  }

  /** The number of an IPv4 address, also when it is given in its mapped form of 16 bytes. */
  function IPv4Number(ip: bytes): Option<nat>
  {
    if |ip| == 4 then Some(BigEndian(ip))
    else if |ip| == 16 && BigEndian(ip) / 0x1_0000_0000 == 0xFFFF then Some(BigEndian(ip) % 0x1_0000_0000)
    else None
  }

  lemma MappedPrefix(head: bytes)
    requires |head| == 12
    ensures BigEndian(head) == 0xFFFF <==> head[..10] == ZeroBytes(10) && head[10] == 255 && head[11] == 255
  {
    hide BigEndian, FixedBytes;
    var mapped: bytes := ZeroBytes(10) + [255, 255];
    MappedNumber();
    if BigEndian(head) == 0xFFFF {
      FixedBytesOfBigEndian(head);
      FixedBytesOfBigEndian(mapped);
      assert head == mapped;
    }
    if head[..10] == ZeroBytes(10) && head[10] == 255 && head[11] == 255 {
      assert head == mapped;
    }
  }

  lemma MappedNumber()
    ensures BigEndian(ZeroBytes(10) + [255, 255]) == 0xFFFF
  {
    var two: bytes := [255, 255];
    BigEndianAppend(ZeroBytes(10), two);
    ZerosAreZero(10);
    assert two[..1] == [255];
    var one: bytes := [255];
    assert one[..0] == [] && BigEndian(one) == 255;
  }

  /** The IPv4 form of an address is its IPv4 number. */
  lemma To4IsNumber(ip: bytes)
    ensures To4(ip).Some? <==> IPv4Number(ip).Some?
    ensures To4(ip).Some? ==> BigEndian(To4(ip).value) == IPv4Number(ip).value
  {
    hide BigEndian;
    if |ip| == 16 {
      assert ip == ip[..12] + ip[12..];
      BigEndianAppend(ip[..12], ip[12..]);
      BigEndianBound(ip[12..]);
      Pow256Values();
      ModUnique(BigEndian(ip), BigEndian(ip[..12]), 0x1_0000_0000, BigEndian(ip[12..]));
      MappedPrefix(ip[..12]);
      assert ip[..12][..10] == ip[..10];
    }
  }

  /** The number an address is looked up by; None for an IPv6 address in an IPv4 database. */
  function LookupNumber(ip: bytes, ipVersion: nat): Option<nat>
  {
    if IPv4Number(ip).Some? || ipVersion != 6 then IPv4Number(ip) else Some(BigEndian(ip))
  }

  /** The network's addresses, by the number of its own address and the length of its prefix. */
  predicate Contains(c: Cidr, number: nat)
    requires ValidCidr(c)
  {
    if IPv4Number(c.addr).Some? then
      c.ones <= 32 && number / Pow2(32 - c.ones) == IPv4Number(c.addr).value / Pow2(32 - c.ones)
    else
      number / Pow2(128 - c.ones) == BigEndian(c.addr) / Pow2(128 - c.ones)
  }

  lemma PaddedNumber(v4: bytes)
    requires |v4| == 4
    ensures BigEndian(ZeroBytes(12) + v4) == BigEndian(v4)
  {
    hide BigEndian;
    BigEndianAppend(ZeroBytes(12), v4);
    ZerosAreZero(12);
  }

  lemma AddressIsNumber(ip: bytes, ipVersion: nat) returns (addr: bytes)
    requires (|ip| == 4 || |ip| == 16) && (ipVersion == 4 || ipVersion == 6)
    ensures AddressBits(ip, ipVersion).Some? <==> LookupNumber(ip, ipVersion).Some?
    ensures AddressBits(ip, ipVersion).Some? ==>
              && AddressBits(ip, ipVersion).value == Bits(addr) && |addr| == (if ipVersion == 6 then 16 else 4)
              && BigEndian(addr) == LookupNumber(ip, ipVersion).value
  {
    hide BigEndian, Bits, To4, IPv4Number;
    To4IsNumber(ip);
    if |ip| == 4 {
      FourIsIPv4(ip);
    }
    addr := ip;
    if To4(ip).Some? {
      PaddedNumber(To4(ip).value);
      addr := if ipVersion == 6 then ZeroBytes(12) + To4(ip).value else To4(ip).value;
    }
  }

  lemma FourIsIPv4(ip: bytes)
    requires |ip| == 4
    ensures To4(ip) == Some(ip)
  {
  }

  lemma PrefixIsNumber(c: Cidr, ipVersion: nat)
    requires ValidCidr(c) && TreePrefix(c, ipVersion).Some? && (ipVersion == 4 || ipVersion == 6)
    ensures IPv4Number(c.addr).Some? ==> c.ones <= 32
    ensures var p := TreePrefix(c, ipVersion).value; var v4 := IPv4Number(c.addr);
            && BigEndian(p.0) == (if v4.Some? then v4.value else BigEndian(c.addr))
            && 8 * |p.0| - p.1 == (if v4.Some? then 32 else 128) - c.ones
  {
    hide BigEndian, To4, IPv4Number;
    To4IsNumber(c.addr);
    if To4(c.addr).Some? {
      PaddedNumber(To4(c.addr).value);
    } else if |c.addr| == 4 {
      FourIsIPv4(c.addr);
    }
  }

  /** A network's bits begin an address's bits exactly when the network holds the address's number. */
  lemma ContainsByNumber(c: Cidr, ip: bytes, ipVersion: nat)
    requires ValidCidr(c) && TreePrefix(c, ipVersion).Some?
    requires (|ip| == 4 || |ip| == 16) && (ipVersion == 4 || ipVersion == 6)
    ensures AddressBits(ip, ipVersion).Some? <==> LookupNumber(ip, ipVersion).Some?
    ensures AddressBits(ip, ipVersion).Some? ==>
              (NetworkBits(c, ipVersion) <= AddressBits(ip, ipVersion).value <==>
               Contains(c, LookupNumber(ip, ipVersion).value))
  {
    hide BigEndian, Bits, To4, IPv4Number, LookupNumber, AddressBits, TreePrefix;
    var addr := AddressIsNumber(ip, ipVersion);
    PrefixIsNumber(c, ipVersion);
    var p := TreePrefix(c, ipVersion).value;
    if AddressBits(ip, ipVersion).Some? {
      PrefixIffNumbersAgree(p.0, addr, p.1);
    }
  }

  // -------------------------------------------------------------------------
  // Walks by number
  // -------------------------------------------------------------------------

  lemma LastDigit(bits: seq<bool>)
    requires bits != []
    ensures bits[|bits| - 1] <==> Spelled(bits) % 2 == 1
  {
    var last := if bits[|bits| - 1] then 1 else 0;
    hide Spelled;
    LastBit(bits);
    ModUnique(Spelled(bits), Spelled(bits[..|bits| - 1]), 2, last);
  }

  lemma LastBit(bits: seq<bool>)
    requires bits != []
    ensures Spelled(bits) == 2 * Spelled(bits[..|bits| - 1]) + if bits[|bits| - 1] then 1 else 0
  {
  }

  /** A bit of an address is a digit of its number. */
  lemma BitIsDigit(addr: bytes, i: nat)
    requires i < 8 * |addr|
    ensures Bits(addr)[i] <==> BigEndian(addr) / Pow2(8 * |addr| - 1 - i) % 2 == 1
  {
    hide BitAt, Bits, BigEndian, Pow2, Spelled;
    var bits := Bits(addr);
    BitsSpell(addr);
    PrefixSpells(bits, i + 1);
    LastDigit(bits[..i + 1]);
  }

  /** A walk takes the right record of a node for a digit one of the address's number, and the left for a zero. */
  lemma WalkByNumber(t: SearchTree, node: nat, addr: bytes, i: nat)
    requires t.Valid() && node < t.nodeCount && i < 8 * |addr| && t.ReadNode(node).Ok?
    ensures var records := t.ReadNode(node).value;
            t.Walk(node, Bits(addr)[i..]) ==
            t.Walk(if BigEndian(addr) / Pow2(8 * |addr| - 1 - i) % 2 == 1 then records.1 else records.0,
                   Bits(addr)[i + 1..])
  {
    hide BitAt, Bits, UnpackNode, Pow2;
    BitIsDigit(addr, i);
    var bits := Bits(addr)[i..];
    assert bits[0] == Bits(addr)[i] && bits[1..] == Bits(addr)[i + 1..];
  }

  /**
   The right record of a node is the last bits of its bytes, as many as the record size, and the left record the
   bytes before it, with the middle byte's upper half in front when a record is 28 bits long.
   */
  lemma NodeByNumber(recordSize: nat, b: bytes)
    requires IsRecordSize(recordSize) && |b| == recordSize * 2 / 8
    ensures UnpackNode(recordSize, b).1 == BigEndian(b[|b| / 2..]) % RecordBound(recordSize)
    ensures UnpackNode(recordSize, b).0 ==
            BigEndian(if recordSize == 28 then [b[3] / 16] + b[..3] else b[..|b| / 2])
  {
    hide BigEndian;
    Pow256Values();
    var half := |b| / 2;
    BigEndianBound(b[half..]);
    if recordSize == 28 {
      assert b[3..] == [b[3]] + b[4..7];
      OneByte(b[3]);
      OneByte(b[3] / 16);
      BigEndianAppend([b[3]], b[4..7]);
      BigEndianAppend([b[3] / 16], b[..3]);
      BigEndianBound(b[4..7]);
      var v, low := BigEndian(b[3..]), BigEndian(b[4..7]);
      var middle: nat := b[3];
      ModUnique(v, middle / 16, 0x1000_0000, middle % 16 * 0x100_0000 + low);
    } else {
      assert b[half..] == b[half..2 * half];
      ModUnique(BigEndian(b[half..]), 0, RecordBound(recordSize), BigEndian(b[half..]));
    }
  }

  lemma OneByte(x: byte)
    ensures BigEndian([x]) == x
  {
    var one: bytes := [x];
    assert one[..0] == [];
  }

  // -------------------------------------------------------------------------
  // What written databases answer
  // -------------------------------------------------------------------------

  lemma {:induction false} ScanByNumber(entries: seq<Entry>, ip: bytes, ipVersion: nat) returns (i: nat)
    requires forall j :: 0 <= j < |entries| ==>
               ValidCidr(entries[j].network) && TreePrefix(entries[j].network, ipVersion).Some?
    requires (|ip| == 4 || |ip| == 16) && (ipVersion == 4 || ipVersion == 6)
    requires AddressBits(ip, ipVersion).Some? && LookupNumber(ip, ipVersion).Some?
    ensures var n := LookupNumber(ip, ipVersion).value;
            && i <= |entries| && (forall j :: 0 <= j < i ==> !Contains(entries[j].network, n))
            && (i < |entries| ==> Contains(entries[i].network, n))
            && ScanEntries(entries, ipVersion, AddressBits(ip, ipVersion).value) ==
               if i < |entries| then Some(Normalised(entries[i].data)) else None
    decreases |entries|
  {
    hide LookupNumber, AddressBits, Contains, NetworkBits, ValidCidr, TreePrefix, IPv4Number, Normalised;
    i := 0;
    if entries != [] {
      ContainsByNumber(entries[0].network, ip, ipVersion);
      if !Contains(entries[0].network, LookupNumber(ip, ipVersion).value) {
        var j := ScanByNumber(entries[1..], ip, ipVersion);
        i := j + 1;
        assert forall k :: 0 < k < |entries| ==> entries[k] == entries[1..][k - 1];
      }
    }
  }

  /**
   A written file, opened from memory or from disk, answers an address by its number: with the data of the first
   entry whose network holds the number, and with nothing when there is none.
   */
  lemma BuiltDatabaseAnswersByNumber(r: Recipe, inMemory: bool, floatToUint: Value -> nat, ip: bytes) returns (i: nat)
    requires r.Valid() && Sound(r) && (|ip| == 4 || |ip| == 16)
    ensures OpenDb(FileOf(r), inMemory, floatToUint).Ok?
    ensures var n := LookupNumber(ip, r.ipVersion);
            var answer := OpenDb(FileOf(r), inMemory, floatToUint).value.Lookup(Some(ip));
            if n.None? then answer == Ok(None)
            else
              && i <= |r.entries| && (forall j :: 0 <= j < i ==> !Contains(r.entries[j].network, n.value))
              && (i < |r.entries| ==> Contains(r.entries[i].network, n.value))
              && answer == Ok(if i < |r.entries| then Some(Normalised(r.entries[i].data)) else None)
  {
    hide Sound, FileOf, OpenDb, Db.LookupOffset, Db.Lookup, Db.RecordAt, LookupNumber, AddressBits, Contains, Bits;
    BuiltDatabaseAnswersAsScan(r, inMemory, floatToUint, ip);
    var addr := AddressIsNumber(ip, r.ipVersion);
    i := 0;
    if AddressBits(ip, r.ipVersion).Some? {
      i := ScanByNumber(r.entries, ip, r.ipVersion);
    }
  }
}
