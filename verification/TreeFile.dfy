/** The search tree as bytes, and walking it there. */
module TreeFile {
  import opened Bytes
  import opened Sources
  import opened SearchTrees
  import opened TreeBuilder
  import opened Tries

  /** The number a record is written as; data offsets lie beyond the 16 byte separator. */
  function Resolve(r: Record, nodeCount: nat): nat
  {
    match r
    case Child(node) => node
    case Data(offset) => nodeCount + 16 + offset
    case Empty => nodeCount
  }

  function NodeBytes(node: TreeNode, recordSize: nat, nodeCount: nat): (b: bytes)
    requires IsRecordSize(recordSize)
    ensures |b| == recordSize * 2 / 8
  {
    PackNode(recordSize, Resolve(node.left, nodeCount), Resolve(node.right, nodeCount))
  }

  function TreeBytes(nodes: seq<TreeNode>, recordSize: nat, nodeCount: nat): (b: bytes)
    requires IsRecordSize(recordSize)
    ensures |b| == |nodes| * (recordSize * 2 / 8)
  {
    if nodes == [] then []
    else TreeBytes(nodes[..|nodes| - 1], recordSize, nodeCount) + NodeBytes(nodes[|nodes| - 1], recordSize, nodeCount)
  }

  /** The serialisation loop. */
  method WriteTree(nodes: seq<TreeNode>, recordSize: nat) returns (tree: bytes)
    requires IsRecordSize(recordSize)
    ensures tree == TreeBytes(nodes, recordSize, |nodes|)
  {
    hide PackNode;
    tree := [];
    for i := 0 to |nodes|
      invariant tree == TreeBytes(nodes[..i], recordSize, |nodes|)
    {
      assert nodes[..i + 1][..i] == nodes[..i];
      tree := tree + NodeBytes(nodes[i], recordSize, |nodes|);
    }
    assert nodes[..|nodes|] == nodes;
  }

  lemma {:induction false} NodeInTree(nodes: seq<TreeNode>, recordSize: nat, nodeCount: nat, i: nat)
    requires IsRecordSize(recordSize) && i < |nodes|
    ensures var size := recordSize * 2 / 8;
            && i * size + size <= |TreeBytes(nodes, recordSize, nodeCount)|
            && TreeBytes(nodes, recordSize, nodeCount)[i * size..i * size + size] ==
               NodeBytes(nodes[i], recordSize, nodeCount)
  {
    hide NodeBytes;
    var size := recordSize * 2 / 8;
    var front := nodes[..|nodes| - 1];
    var start := TreeBytes(front, recordSize, nodeCount);
    if i < |front| {
      NodeInTree(front, recordSize, nodeCount, i);
      assert (start + NodeBytes(nodes[|nodes| - 1], recordSize, nodeCount))[i * size..i * size + size]
          == start[i * size..i * size + size];
    } else {
      assert |start| == i * size;
    }
  }

  /** Every record fits the record size. */
  ghost predicate Fits(nodes: seq<TreeNode>, recordSize: nat)
    requires IsRecordSize(recordSize)
  {
    && |nodes| < RecordBound(recordSize)
    && forall i, b :: 0 <= i < |nodes| ==> Resolve(nodes[i].Get(b), |nodes|) < RecordBound(recordSize)
  }

  /** The search tree of a file that starts with the serialised nodes. */
  ghost predicate Serialised(t: SearchTree, nodes: seq<TreeNode>)
  {
    && t.Valid() && t.nodeCount == |nodes|
    && forall i :: 0 <= i < |nodes| ==>
         t.ReadNode(i) == Ok((Resolve(nodes[i].Get(false), |nodes|), Resolve(nodes[i].Get(true), |nodes|)))
  }

  lemma NodeRead(file: bytes, recordSize: nat, count: nat, i: nat, left: nat, right: nat)
    requires IsRecordSize(recordSize) && left < RecordBound(recordSize) && right < RecordBound(recordSize)
    requires var size := recordSize * 2 / 8;
             i * size + size <= |file| && file[i * size..i * size + size] == PackNode(recordSize, left, right)
    ensures SearchTree(Memory(file).Reads(), recordSize, count).ReadNode(i) == Ok((left, right))
  {
    hide UnpackNode, PackNode, RecordBound;
    NodeRoundTrip(recordSize, left, right);
  }

  lemma SliceOfPrefix(file: bytes, prefix: bytes, from: nat, to: nat)
    requires prefix <= file && from <= to <= |prefix|
    ensures file[from..to] == prefix[from..to]
  {
    assert file[..|prefix|] == prefix;
  }

  lemma FileIsSerialised(file: bytes, nodes: seq<TreeNode>, recordSize: nat)
    requires IsRecordSize(recordSize) && Fits(nodes, recordSize)
    requires TreeBytes(nodes, recordSize, |nodes|) <= file
    ensures Serialised(SearchTree(Memory(file).Reads(), recordSize, |nodes|), nodes)
  {
    hide UnpackNode, PackNode, TreeBytes, SearchTree.ReadNode, Resolve;
    var t := SearchTree(Memory(file).Reads(), recordSize, |nodes|);
    forall i | 0 <= i < |nodes|
      ensures t.ReadNode(i) == Ok((Resolve(nodes[i].Get(false), |nodes|), Resolve(nodes[i].Get(true), |nodes|)))
    {
      var size := recordSize * 2 / 8;
      NodeInTree(nodes, recordSize, |nodes|, i);
      SliceOfPrefix(file, TreeBytes(nodes, recordSize, |nodes|), i * size, i * size + size);
      var left, right := Resolve(nodes[i].Get(false), |nodes|), Resolve(nodes[i].Get(true), |nodes|);
      NodeRead(file, recordSize, |nodes|, i, left, right);
    }
  }

  /** The node number at which a walk that found `leaf` ends, or any number inside the tree. */
  ghost predicate Ends(node: nat, leaf: Trie, nodeCount: nat)
  {
    match leaf
    case Miss => node == nodeCount
    case Hit(offset) => node == nodeCount + 16 + offset
    case Branch(_, _) => node < nodeCount
  }

  /** Walking the file along an address ends where the trie lookup of the address does. */
  lemma {:induction false} WalkIsFind(t: SearchTree, nodes: seq<TreeNode>, cur: nat, address: seq<bool>)
    requires Linked(nodes) && Serialised(t, nodes) && cur < |nodes|
    ensures var end := t.Walk(cur, address);
            end.Ok? && Ends(end.value, Find(Meaning(nodes, Child(cur)), address), |nodes|)
    decreases |address|
  {
    hide SearchTree.ReadNode;
    if address != [] {
      var bit := address[0];
      var next := nodes[cur].Get(bit);
      Sides(nodes, cur, bit);
      assert t.Walk(cur, address) == t.Walk(Resolve(next, |nodes|), address[1..]);
      assert Find(Meaning(nodes, Child(cur)), address) == Find(Meaning(nodes, next), address[1..]);
      if next.Child? {
        WalkIsFind(t, nodes, next.node, address[1..]);
      }
    }
  }
}
