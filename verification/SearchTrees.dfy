/** The binary search tree at the start of a database: its node layouts and the walk along an address. */
module SearchTrees {
  import opened Bytes
  import opened Sources

  // -------------------------------------------------------------------------
  // Node layout
  // -------------------------------------------------------------------------

  predicate IsRecordSize(recordSize: nat)
  {
    recordSize == 24 || recordSize == 28 || recordSize == 32
  }

  /** The exclusive bound of a record, 2 to the power of its size in bits. */
  function RecordBound(recordSize: nat): nat
    requires IsRecordSize(recordSize)
  {
    if recordSize == 24 then 0x100_0000 else if recordSize == 28 then 0x1000_0000 else 0x1_0000_0000
  }

  /** The left and right records in the bytes of a node. */
  function UnpackNode(recordSize: nat, b: bytes): (nat, nat)
    requires IsRecordSize(recordSize) && |b| == recordSize * 2 / 8
  {
    if recordSize == 24 then (BigEndian(b[..3]), BigEndian(b[3..6]))
    else if recordSize == 28 then
      var middle: nat := b[3];
      (middle / 16 * 0x100_0000 + BigEndian(b[..3]), middle % 16 * 0x100_0000 + BigEndian(b[4..7]))
    else (BigEndian(b[..4]), BigEndian(b[4..8]))
  }

  /** The bytes a writer emits for a node; bits beyond the record size are cut off. */
  function PackNode(recordSize: nat, left: nat, right: nat): (b: bytes)
    requires IsRecordSize(recordSize)
    ensures |b| == recordSize * 2 / 8
  {
    if recordSize == 24 then FixedBytes(left, 3) + FixedBytes(right, 3)
    else if recordSize == 28 then
      FixedBytes(left, 3) + [left / 0x100_0000 % 16 * 16 + right / 0x100_0000 % 16] + FixedBytes(right, 3)
    else FixedBytes(left, 4) + FixedBytes(right, 4)
  }

  lemma LowBytes(v: nat)
    ensures BigEndian(FixedBytes(v, 3)) == v % 0x100_0000
    ensures BigEndian(FixedBytes(v, 4)) == v % 0x1_0000_0000
  {
    Pow256Values();
    FixedBytesInverse(v, 3);
    FixedBytesInverse(v, 4);
  }

  lemma MiddleByte(hl: nat, hr: nat)
    requires hl < 16 && hr < 16
    ensures hl % 16 == hl && hr % 16 == hr && (hl * 16 + hr) / 16 == hl && (hl * 16 + hr) % 16 == hr
  {
  }

  /** A written record is its high bits and the three bytes below them. */
  lemma SplitRecord(v: nat)
    requires v < 0x1000_0000
    ensures v / 0x100_0000 < 16 && v / 0x100_0000 * 0x100_0000 + v % 0x100_0000 == v
  {
  }

  lemma PackedParts28(left: nat, right: nat)
    requires left < 0x1000_0000 && right < 0x1000_0000
    ensures var b := PackNode(28, left, right);
            && b[..3] == FixedBytes(left, 3) && b[4..7] == FixedBytes(right, 3)
            && b[3] / 16 == left / 0x100_0000 && b[3] % 16 == right / 0x100_0000
  {
    hide BigEndian, FixedBytes;
    SplitRecord(left);
    SplitRecord(right);
    MiddleByte(left / 0x100_0000, right / 0x100_0000);
  }

  lemma NodeRoundTrip28(left: nat, right: nat)
    requires left < 0x1000_0000 && right < 0x1000_0000
    ensures UnpackNode(28, PackNode(28, left, right)) == (left, right)
  {
    hide BigEndian, FixedBytes, PackNode;
    PackedParts28(left, right);
    LowBytes(left);
    LowBytes(right);
    SplitRecord(left);
    SplitRecord(right);
  }

  /** Reading a written node gives back both records, in each of the three layouts. */
  lemma NodeRoundTrip(recordSize: nat, left: nat, right: nat)
    requires IsRecordSize(recordSize) && left < RecordBound(recordSize) && right < RecordBound(recordSize)
    ensures UnpackNode(recordSize, PackNode(recordSize, left, right)) == (left, right)
  {
    hide BigEndian, FixedBytes;
    if recordSize == 28 {
      NodeRoundTrip28(left, right);
    } else {
      LowBytes(left);
      LowBytes(right);
      var n, b := recordSize / 8, PackNode(recordSize, left, right);
      assert b[..n] == FixedBytes(left, n) && b[n..2 * n] == FixedBytes(right, n);
    }
  }

  lemma FixedBytesShift(v: nat, w: nat, n: nat)
    requires v % Pow256(n) == w
    ensures FixedBytes(v, n) == FixedBytes(w, n)
  {
    FixedBytesInverse(v, n);
    FixedBytesOfBigEndian(FixedBytes(v, n));
  }

  lemma UnpackedInRange(recordSize: nat, b: bytes)
    requires IsRecordSize(recordSize) && |b| == recordSize * 2 / 8
    ensures UnpackNode(recordSize, b).0 < RecordBound(recordSize)
    ensures UnpackNode(recordSize, b).1 < RecordBound(recordSize)
  {
    Pow256Values();
    if recordSize == 32 {
      BigEndianBound(b[..4]);
      BigEndianBound(b[4..8]);
    } else {
      BigEndianBound(b[..3]);
      BigEndianBound(b[if recordSize == 24 then 3 else 4..if recordSize == 24 then 6 else 7]);
    }
  }

  /** Every node's bytes are the written form of the records read from them. */
  lemma NodeBytesRoundTrip(recordSize: nat, b: bytes)
    requires IsRecordSize(recordSize) && |b| == recordSize * 2 / 8
    ensures var r := UnpackNode(recordSize, b); PackNode(recordSize, r.0, r.1) == b
  {
    hide BigEndian, FixedBytes;
    Pow256Values();
    var r := UnpackNode(recordSize, b);
    if recordSize == 32 {
      FixedBytesOfBigEndian(b[..4]);
      FixedBytesOfBigEndian(b[4..8]);
    } else {
      var low, high := b[..3], if recordSize == 24 then b[3..6] else b[4..7];
      BigEndianBound(low);
      BigEndianBound(high);
      FixedBytesOfBigEndian(low);
      FixedBytesOfBigEndian(high);
      FixedBytesShift(r.0, BigEndian(low), 3);
      FixedBytesShift(r.1, BigEndian(high), 3);
    }
  }

  // -------------------------------------------------------------------------
  // Addresses as bits
  // -------------------------------------------------------------------------

  function Pow2(n: nat): (p: nat)
    ensures p > 0
  {
    if n == 0 then 1 else 2 * Pow2(n - 1)
  }

  /** Bit `i` of an address, counting from the most significant bit of its first byte. */
  function BitAt(addr: bytes, i: nat): bool
    requires i < |addr| * 8
  {
    addr[i / 8] / Pow2(7 - i % 8) % 2 == 1
  }

  function Bits(addr: bytes): (bits: seq<bool>)
    ensures |bits| == |addr| * 8
  {
    seq(|addr| * 8, i requires 0 <= i < |addr| * 8 => BitAt(addr, i))
  }

  function Zeros(n: nat): seq<bool>
  {
    seq(n, _ => false)
  }

  function ZeroBytes(n: nat): (b: bytes)
    ensures |b| == n
  {
    seq(n, _ => 0)
  }

  lemma BitsAppend(a: bytes, b: bytes)
    ensures Bits(a + b) == Bits(a) + Bits(b)
  {
    forall i | 0 <= i < |a| * 8 + |b| * 8
      ensures Bits(a + b)[i] == (Bits(a) + Bits(b))[i]
    {
      if i >= |a| * 8 {
        var j := i - |a| * 8;
        assert i / 8 == |a| + j / 8 && i % 8 == j % 8;
      }
    }
  }

  lemma BitsOfZeros(n: nat)
    ensures Bits(ZeroBytes(n)) == Zeros(8 * n)
  {
    forall i | 0 <= i < 8 * n
      ensures !Bits(ZeroBytes(n))[i]
    {
      assert ZeroBytes(n)[i / 8] == 0;
    }
  }

  // -------------------------------------------------------------------------
  // Walking
  // -------------------------------------------------------------------------

  datatype SearchTree = SearchTree(at: Reading, recordSize: nat, nodeCount: nat) {

    predicate Valid()
    {
      IsRecordSize(recordSize)
    }

    function NodeSize(): nat
    {
      recordSize * 2 / 8
    }

    function TreeSize(): nat
    {
      nodeCount * NodeSize()
    }

    function ReadNode(node: nat): Result<(nat, nat)>
      requires Valid()
    {
      var b :- at(node * NodeSize(), NodeSize());
      Ok(UnpackNode(recordSize, b))
    }

    /** Follows the bits until they run out or the walk leaves the tree. */
    function Walk(node: nat, bits: seq<bool>): Result<nat>
      requires Valid()
      decreases |bits|
    {
      if bits == [] || node >= nodeCount then Ok(node)
      else
        var records :- ReadNode(node);
        Walk(if bits[0] then records.1 else records.0, bits[1..])
    }

    method WalkLoop(start: nat, addr: bytes) returns (r: Result<nat>)
      requires Valid()
      ensures r == Walk(start, Bits(addr))
    {
      hide UnpackNode, BitAt;
      var node: nat := start;
      ghost var bits := Bits(addr);
      assert bits[0..] == bits;
      for i := 0 to |addr| * 8
        invariant Walk(start, bits) == Walk(node, bits[i..])
      {
        if node >= nodeCount {
          return Ok(node);
        }
        var bit := BitAt(addr, i);
        assert bits[i..][0] == bit && bits[i..][1..] == bits[i + 1..];
        var records :- ReadNode(node);
        node := if bit then records.1 else records.0;
      }
      r := Ok(node);
    }

    /** The node where the IPv4 subtree of an IPv6 database starts. */
    method FindIPv4Start() returns (r: Result<nat>)
      requires Valid()
      ensures r == Walk(0, Zeros(96))
    {
      hide UnpackNode;
      var node: nat := 0;
      var i := 0;
      while i < 96 && node < nodeCount
        invariant i <= 96
        invariant Walk(0, Zeros(96)) == Walk(node, Zeros(96 - i))
        decreases 96 - i
      {
        assert !Zeros(96 - i)[0] && Zeros(96 - i)[1..] == Zeros(95 - i);
        var records :- ReadNode(node);
        node, i := records.0, i + 1;
      }
      r := Ok(node);
    }
  }

  /** Walking along concatenated bits is walking along the first and on from where that ends. */
  lemma {:induction false} WalkAppend(t: SearchTree, node: nat, a: seq<bool>, b: seq<bool>)
    requires t.Valid()
    ensures var first := t.Walk(node, a);
            t.Walk(node, a + b) == if first.Ok? then t.Walk(first.value, b) else first
    decreases |a|
  {
    hide UnpackNode;
    if a == [] {
      assert a + b == b;
    } else if node < t.nodeCount {
      var records := t.ReadNode(node);
      if records.Ok? {
        assert (a + b)[1..] == a[1..] + b;
        WalkAppend(t, if a[0] then records.value.1 else records.value.0, a[1..], b);
      }
    } else {
      assert t.Walk(node, b) == Ok(node);
    }
  }

  /**
   Starting an IPv4 walk at the precomputed node gives the result of walking all 128 bits of the
   zero-extended address from the root, even when the zero bits leave the tree early.
   */
  lemma IPv4Shortcut(t: SearchTree, v4: bytes)
    requires t.Valid() && t.Walk(0, Zeros(96)).Ok?
    ensures t.Walk(t.Walk(0, Zeros(96)).value, Bits(v4)) == t.Walk(0, Bits(ZeroBytes(12) + v4))
  {
    hide SearchTree.Walk, BitAt;
    BitsAppend(ZeroBytes(12), v4);
    BitsOfZeros(12);
    WalkAppend(t, 0, Zeros(96), Bits(v4));
  }

  /** When the whole tree can be read, no walk meets a read error. */
  lemma {:induction false} WalkNeverFails(t: SearchTree, node: nat, bits: seq<bool>)
    requires t.Valid() && forall off, n :: 0 <= off && 0 <= n && off + n <= t.TreeSize() ==> t.at(off, n).Ok?
    ensures t.Walk(node, bits).Ok?
    decreases |bits|
  {
    hide UnpackNode;
    if bits != [] && node < t.nodeCount {
      var size := t.NodeSize();
      assert node * size + size <= t.nodeCount * size by {
        assert (node + 1) * size <= t.nodeCount * size;
      }
      assert t.at(node * size, size).Ok?;
      var records := t.ReadNode(node).value;
      WalkNeverFails(t, if bits[0] then records.1 else records.0, bits[1..]);
    }
  }
}
