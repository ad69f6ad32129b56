/** The search tree builder: nodes in a growing sequence, linked by index. */
module TreeBuilder {
  import opened Bytes
  import opened SearchTrees

  datatype Record = Empty | Child(node: nat) | Data(offset: nat)

  datatype TreeNode = TreeNode(left: Record, right: Record) {
    function Get(bit: bool): Record
    {
      if bit then right else left
    }

    function Set(bit: bool, r: Record): TreeNode
    {
      if bit then TreeNode(left, r) else TreeNode(r, right)
    }
  }

  const EMPTY_NODE := TreeNode(Empty, Empty)

  /** Links point to later nodes. */
  ghost predicate Linked(nodes: seq<TreeNode>)
  {
    forall i, b :: 0 <= i < |nodes| && nodes[i].Get(b).Child? ==> i < nodes[i].Get(b).node < |nodes|
  }

  /** No node is linked to from two places. */
  ghost predicate SingleParent(nodes: seq<TreeNode>)
  {
    forall i, b, j, c ::
      0 <= i < |nodes| && 0 <= j < |nodes| && nodes[i].Get(b).Child? && nodes[i].Get(b) == nodes[j].Get(c) ==>
        i == j && b == c
  }

  /** Inserting a network, given the bits that remain below the node `cur`. */
  ghost function Insert(nodes: seq<TreeNode>, cur: nat, bits: seq<bool>, offset: nat): seq<TreeNode>
    requires Linked(nodes) && cur < |nodes|
    decreases |bits|
  {
    if bits == [] then nodes
    else if |bits| == 1 then
      SetLinked(nodes, cur, bits[0], Data(offset));
      nodes[cur := nodes[cur].Set(bits[0], Data(offset))]
    else
      var existing := nodes[cur].Get(bits[0]);
      if existing.Child? then Insert(nodes, existing.node, bits[1..], offset)
      else
        GrowLinked(nodes, cur, bits[0]);
        Insert(Grow(nodes, cur, bits[0]), |nodes|, bits[1..], offset)
  }

  /** A new empty node, linked to from a record of `cur`. */
  function Grow(nodes: seq<TreeNode>, cur: nat, bit: bool): seq<TreeNode>
    requires cur < |nodes|
  {
    (nodes + [EMPTY_NODE])[cur := nodes[cur].Set(bit, Child(|nodes|))]
  }

  lemma SetLinked(nodes: seq<TreeNode>, cur: nat, bit: bool, r: Record)
    requires Linked(nodes) && cur < |nodes| && !r.Child?
    ensures Linked(nodes[cur := nodes[cur].Set(bit, r)])
  {
    var changed := nodes[cur := nodes[cur].Set(bit, r)];
    forall i, b | 0 <= i < |changed| && changed[i].Get(b).Child?
      ensures changed[i].Get(b) == nodes[i].Get(b)
    {
    }
  }

  lemma GrowLinked(nodes: seq<TreeNode>, cur: nat, bit: bool)
    requires Linked(nodes) && cur < |nodes|
    ensures Linked(Grow(nodes, cur, bit))
  {
    var grown := Grow(nodes, cur, bit);
    forall i, b | 0 <= i < |grown| && grown[i].Get(b).Child?
      ensures i < grown[i].Get(b).node < |grown|
    {
      if i < |nodes| && (i != cur || b != bit) {
        assert grown[i].Get(b) == nodes[i].Get(b);
      }
    }
  }

  lemma GrowSingleParent(nodes: seq<TreeNode>, cur: nat, bit: bool)
    requires Linked(nodes) && SingleParent(nodes) && cur < |nodes|
    ensures SingleParent(Grow(nodes, cur, bit))
  {
    var grown := Grow(nodes, cur, bit);
    forall i, b | 0 <= i < |grown| && grown[i].Get(b).Child?
      ensures if i == cur && b == bit then grown[i].Get(b).node == |nodes|
              else i < |nodes| && grown[i].Get(b) == nodes[i].Get(b) && grown[i].Get(b).node < |nodes|
    {
      if i < |nodes| && (i != cur || b != bit) {
        assert grown[i].Get(b) == nodes[i].Get(b);
      }
    }
  }

  lemma SetSingleParent(nodes: seq<TreeNode>, cur: nat, bit: bool, r: Record)
    requires SingleParent(nodes) && cur < |nodes| && !r.Child?
    ensures SingleParent(nodes[cur := nodes[cur].Set(bit, r)])
  {
    var changed := nodes[cur := nodes[cur].Set(bit, r)];
    forall i, b | 0 <= i < |changed| && changed[i].Get(b).Child?
      ensures changed[i].Get(b) == nodes[i].Get(b)
    {
    }
  }

  /** Insertion keeps the nodes a forest: links lead to later nodes and no node has two parents. */
  lemma {:induction false} InsertKeepsTree(nodes: seq<TreeNode>, cur: nat, bits: seq<bool>, offset: nat)
    requires Linked(nodes) && SingleParent(nodes) && cur < |nodes|
    ensures var after := Insert(nodes, cur, bits, offset);
            Linked(after) && SingleParent(after) && |nodes| <= |after|
    decreases |bits|
  {
    if bits != [] {
      var existing := nodes[cur].Get(bits[0]);
      if |bits| == 1 {
        SetLinked(nodes, cur, bits[0], Data(offset));
        SetSingleParent(nodes, cur, bits[0], Data(offset));
      } else if existing.Child? {
        InsertKeepsTree(nodes, existing.node, bits[1..], offset);
      } else {
        GrowLinked(nodes, cur, bits[0]);
        GrowSingleParent(nodes, cur, bits[0]);
        InsertKeepsTree(Grow(nodes, cur, bits[0]), |nodes|, bits[1..], offset);
      }
    }
  }

  /** The nodes of a database under construction; the root is node 0. */
  class Builder {
    var nodes: seq<TreeNode>

    ghost predicate Valid()
      reads this
    {
      nodes != [] && Linked(nodes) && SingleParent(nodes)
    }

    constructor ()
      ensures Valid() && nodes == [EMPTY_NODE]
    {
      nodes := [EMPTY_NODE];
    }

    /** Inserts the first `ones` bits of an address. */
    method InsertNetwork(addr: bytes, ones: nat, offset: nat)
      requires Valid() && ones <= |addr| * 8
      modifies this
      ensures Valid() && nodes == Insert(old(nodes), 0, Bits(addr)[..ones], offset)
    {
      hide BitAt;
      ghost var bits := Bits(addr)[..ones];
      ghost var before := nodes;
      InsertKeepsTree(nodes, 0, bits, offset);
      var current: nat := 0;
      assert bits[0..] == bits;
      for i := 0 to ones
        invariant Linked(nodes) && current < |nodes|
        invariant i < ones || ones == 0
        invariant Insert(before, 0, bits, offset) == Insert(nodes, current, bits[i..], offset)
      {
        var bit := BitAt(addr, i);
        assert bits[i..][0] == bit && bits[i..][1..] == bits[i + 1..];
        if i == ones - 1 {
          SetLinked(nodes, current, bit, Data(offset));
          nodes := nodes[current := nodes[current].Set(bit, Data(offset))];
          return;
        }
        var existing := nodes[current].Get(bit);
        if !existing.Child? {
          GrowLinked(nodes, current, bit);
          ghost var grown := Grow(nodes, current, bit);
          nodes := nodes + [EMPTY_NODE];
          var next := |nodes| - 1;
          nodes := nodes[current := nodes[current].Set(bit, Child(next))];
          assert nodes == grown;
          current := next;
        } else {
          current := existing.node;
        }
      }
    }
  }
}
