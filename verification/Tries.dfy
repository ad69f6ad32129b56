/**
 What the linked nodes mean: a binary trie. Insertion into the nodes is insertion into the trie, whose
 effect on every lookup is stated exactly, overlapping networks included.
 */
module Tries {
  import opened Bytes
  import opened TreeBuilder

  datatype Trie = Miss | Hit(offset: nat) | Branch(zero: Trie, one: Trie) {
    function At(bit: bool): Trie
    {
      if Branch? then if bit then one else zero else Miss
    }
  }

  function Put(t: Trie, bit: bool, child: Trie): Trie
  {
    if bit then Branch(t.At(false), child) else Branch(child, t.At(true))
  }

  function TrieInsert(t: Trie, bits: seq<bool>, offset: nat): Trie
    decreases |bits|
  {
    if bits == [] then Hit(offset)
    else Put(t, bits[0], TrieInsert(t.At(bits[0]), bits[1..], offset))
  }

  /** What is left of the trie after following the bits, or the leaf met on the way. */
  function Find(t: Trie, bits: seq<bool>): Trie
    decreases |bits|
  {
    if bits == [] || !t.Branch? then t else Find(t.At(bits[0]), bits[1..])
  }

  function Depth(t: Trie): nat
  {
    match t
    case Branch(zero, one) => 1 + Max(Depth(zero), Depth(one))
    case _ => 0
  }

  // -------------------------------------------------------------------------
  // Lookups after an insertion
  // -------------------------------------------------------------------------

  function CommonLength(a: seq<bool>, b: seq<bool>): (n: nat)
    ensures n <= |a| && n <= |b|
    decreases |a|
  {
    if a == [] || b == [] || a[0] != b[0] then 0 else 1 + CommonLength(a[1..], b[1..])
  }

  /**
   The whole effect of an insertion: addresses inside the network find it; an address outside it whose
   entry covered the inserted network loses that entry; every other lookup is unchanged.
   */
  lemma {:induction false} LookupAfterInsert(t: Trie, network: seq<bool>, offset: nat, address: seq<bool>)
    requires |network| <= |address|
    ensures Find(TrieInsert(t, network, offset), address) ==
            if network <= address then Hit(offset)
            else if Find(t, network[..CommonLength(network, address)]).Hit? then Miss
            else Find(t, address)
    decreases |network|
  {
    if network != [] {
      if network[0] == address[0] {
        var n := CommonLength(network, address);
        assert network[..n][0] == network[0] && network[..n][1..] == network[1..][..n - 1];
        LookupAfterInsert(t.At(network[0]), network[1..], offset, address[1..]);
        assert network <= address <==> network[1..] <= address[1..] by {
          assert network == [network[0]] + network[1..] && address == [address[0]] + address[1..];
        }
      } else {
        assert network[..0] == [];
      }
    }
  }

  /** An address finds its way to a leaf when it is at least as long as the trie is deep. */
  lemma {:induction false} DeepEnough(t: Trie, address: seq<bool>)
    requires Depth(t) <= |address|
    ensures !Find(t, address).Branch?
    decreases |address|
  {
    if t.Branch? {
      DeepEnough(t.At(address[0]), address[1..]);
    }
  }

  lemma {:induction false} InsertDepth(t: Trie, network: seq<bool>, offset: nat)
    ensures Depth(TrieInsert(t, network, offset)) <= Max(Depth(t), |network|)
    decreases |network|
  {
    if network != [] {
      InsertDepth(t.At(network[0]), network[1..], offset);
    }
  }

  // -------------------------------------------------------------------------
  // The trie that linked nodes stand for
  // -------------------------------------------------------------------------

  ghost function Meaning(nodes: seq<TreeNode>, r: Record): Trie
    requires Linked(nodes) && (r.Child? ==> r.node < |nodes|)
    decreases if r.Child? then |nodes| - r.node else 0
  {
    match r
    case Empty => Miss
    case Data(offset) => Hit(offset)
    case Child(i) =>
      var n := nodes[i];
      assert n.Get(false) == n.left && n.Get(true) == n.right;
      Branch(Meaning(nodes, n.left), Meaning(nodes, n.right))
  }

  /** The nodes below a record. */
  ghost function Below(nodes: seq<TreeNode>, r: Record): set<nat>
    requires Linked(nodes) && (r.Child? ==> r.node < |nodes|)
    decreases if r.Child? then |nodes| - r.node else 0
  {
    if r.Child? then
      var n := nodes[r.node];
      assert n.Get(false) == n.left && n.Get(true) == n.right;
      {r.node} + Below(nodes, n.left) + Below(nodes, n.right)
    else {}
  }

  /** The two sides of every node below the record share no node. */
  ghost predicate Separated(nodes: seq<TreeNode>, r: Record)
    requires Linked(nodes) && (r.Child? ==> r.node < |nodes|)
    decreases if r.Child? then |nodes| - r.node else 0
  {
    r.Child? ==>
      var n := nodes[r.node];
      assert n.Get(false) == n.left && n.Get(true) == n.right;
      Separated(nodes, n.left) && Separated(nodes, n.right) && Below(nodes, n.left) !! Below(nodes, n.right)
  }

  lemma {:induction false} BelowInRange(nodes: seq<TreeNode>, r: Record, i: nat)
    requires Linked(nodes) && (r.Child? ==> r.node < |nodes|) && i in Below(nodes, r)
    ensures r.Child? && r.node <= i < |nodes|
    decreases if r.Child? then |nodes| - r.node else 0
  {
    if i != r.node {
      var n := nodes[r.node];
      assert n.Get(false) == n.left && n.Get(true) == n.right;
      if i in Below(nodes, n.left) {
        BelowInRange(nodes, n.left, i);
      } else {
        BelowInRange(nodes, n.right, i);
      }
    }
  }

  /** Nodes that stay as they were below a record keep its meaning. */
  lemma {:induction false} Frame(nodes: seq<TreeNode>, after: seq<TreeNode>, r: Record)
    requires Linked(nodes) && Linked(after) && |nodes| <= |after| && (r.Child? ==> r.node < |nodes|)
    requires forall i :: i in Below(nodes, r) ==> i < |nodes| && after[i] == nodes[i]
    ensures Meaning(after, r) == Meaning(nodes, r) && Below(after, r) == Below(nodes, r)
    ensures Separated(nodes, r) ==> Separated(after, r)
    decreases if r.Child? then |nodes| - r.node else 0
  {
    if r.Child? {
      var n := nodes[r.node];
      assert n.Get(false) == n.left && n.Get(true) == n.right;
      assert r.node in Below(nodes, r);
      Frame(nodes, after, n.left);
      Frame(nodes, after, n.right);
    }
  }

  /** A node by its two sides, named by a bit. */
  lemma Sides(nodes: seq<TreeNode>, cur: nat, bit: bool)
    requires Linked(nodes) && cur < |nodes|
    ensures var side, other := nodes[cur].Get(bit), nodes[cur].Get(!bit);
            && Below(nodes, Child(cur)) == {cur} + Below(nodes, side) + Below(nodes, other)
            && (Separated(nodes, Child(cur)) <==>
                Separated(nodes, side) && Separated(nodes, other) && Below(nodes, side) !! Below(nodes, other))
            && Meaning(nodes, Child(cur)) ==
               (if bit then Branch(Meaning(nodes, other), Meaning(nodes, side))
                else Branch(Meaning(nodes, side), Meaning(nodes, other)))
            && cur !in Below(nodes, side) && cur !in Below(nodes, other)
  {
    var n := nodes[cur];
    assert n.Get(false) == n.left && n.Get(true) == n.right;
    if cur in Below(nodes, n.left) {
      BelowInRange(nodes, n.left, cur);
    }
    if cur in Below(nodes, n.right) {
      BelowInRange(nodes, n.right, cur);
    }
  }

  lemma BelowAllInRange(nodes: seq<TreeNode>, r: Record)
    requires Linked(nodes) && (r.Child? ==> r.node < |nodes|)
    ensures forall i :: i in Below(nodes, r) ==> i < |nodes|
  {
    forall i | i in Below(nodes, r)
      ensures i < |nodes|
    {
      BelowInRange(nodes, r, i);
    }
  }

  /** What an insertion below `cur` that turned `nodes` into `after` must achieve. */
  ghost predicate Inserted(nodes: seq<TreeNode>, after: seq<TreeNode>, cur: nat, bits: seq<bool>, offset: nat)
    requires Linked(nodes) && cur < |nodes|
  {
    && Linked(after) && |nodes| <= |after|
    && (forall i :: 0 <= i < |nodes| && i !in Below(nodes, Child(cur)) ==> after[i] == nodes[i])
    && (forall i :: i in Below(after, Child(cur)) ==> i in Below(nodes, Child(cur)) || |nodes| <= i)
    && Separated(after, Child(cur))
    && Meaning(after, Child(cur)) == TrieInsert(Meaning(nodes, Child(cur)), bits, offset)
  }

  lemma SetInserts(nodes: seq<TreeNode>, cur: nat, bit: bool, offset: nat)
    requires Linked(nodes) && cur < |nodes| && Separated(nodes, Child(cur))
    ensures Inserted(nodes, nodes[cur := nodes[cur].Set(bit, Data(offset))], cur, [bit], offset)
  {
    var after := nodes[cur := nodes[cur].Set(bit, Data(offset))];
    SetLinked(nodes, cur, bit, Data(offset));
    Sides(nodes, cur, bit);
    BelowAllInRange(nodes, nodes[cur].Get(!bit));
    Frame(nodes, after, nodes[cur].Get(!bit));
    assert after[cur].Get(bit) == Data(offset) && after[cur].Get(!bit) == nodes[cur].Get(!bit);
    Sides(after, cur, bit);
    var m := Meaning(nodes, Child(cur));
    assert [bit][1..] == [];
    assert TrieInsert(m, [bit], offset) == Put(m, bit, Hit(offset));
  }

  lemma DescendInserts(nodes: seq<TreeNode>, after: seq<TreeNode>, cur: nat, bits: seq<bool>, offset: nat)
    requires Linked(nodes) && cur < |nodes| && Separated(nodes, Child(cur)) && bits != []
    requires nodes[cur].Get(bits[0]).Child? && Inserted(nodes, after, nodes[cur].Get(bits[0]).node, bits[1..], offset)
    ensures Inserted(nodes, after, cur, bits, offset)
  {
    var bit := bits[0];
    var other := nodes[cur].Get(!bit);
    Sides(nodes, cur, bit);
    BelowAllInRange(nodes, other);
    Frame(nodes, after, other);
    Sides(after, cur, bit);
  }

  lemma GrowInserts(nodes: seq<TreeNode>, after: seq<TreeNode>, cur: nat, bits: seq<bool>, offset: nat)
    requires Linked(nodes) && cur < |nodes| && Separated(nodes, Child(cur)) && |bits| > 1
    requires !nodes[cur].Get(bits[0]).Child? && Linked(Grow(nodes, cur, bits[0]))
    requires Inserted(Grow(nodes, cur, bits[0]), after, |nodes|, bits[1..], offset)
    ensures Inserted(nodes, after, cur, bits, offset)
  {
    var bit := bits[0];
    var other := nodes[cur].Get(!bit);
    var grown := Grow(nodes, cur, bit);
    Sides(nodes, cur, bit);
    Sides(grown, |nodes|, false);
    assert Below(grown, Child(|nodes|)) == {|nodes|};
    BelowAllInRange(nodes, other);
    Frame(nodes, grown, other);
    Frame(grown, after, other);
    Sides(after, cur, bit);
    assert grown[|nodes|] == EMPTY_NODE;
  }

  /** Insertion below a node is trie insertion, and changes no node that is not below it. */
  lemma {:induction false} InsertIsTrieInsert(nodes: seq<TreeNode>, cur: nat, bits: seq<bool>, offset: nat)
    requires Linked(nodes) && cur < |nodes| && Separated(nodes, Child(cur)) && bits != []
    ensures Inserted(nodes, Insert(nodes, cur, bits, offset), cur, bits, offset)
    decreases |bits|
  {
    var bit := bits[0];
    var side := nodes[cur].Get(bit);
    if |bits| == 1 {
      SetInserts(nodes, cur, bit, offset);
      assert bits == [bit];
    } else if side.Child? {
      Sides(nodes, cur, bit);
      InsertIsTrieInsert(nodes, side.node, bits[1..], offset);
      DescendInserts(nodes, Insert(nodes, cur, bits, offset), cur, bits, offset);
    } else {
      GrowLinked(nodes, cur, bit);
      var grown := Grow(nodes, cur, bit);
      assert grown[|nodes|] == EMPTY_NODE;
      Sides(grown, |nodes|, false);
      InsertIsTrieInsert(grown, |nodes|, bits[1..], offset);
      GrowInserts(nodes, Insert(nodes, cur, bits, offset), cur, bits, offset);
    }
  }
}
