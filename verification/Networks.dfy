/** A tree built from disjoint networks answers every address as a linear scan of the networks does. */
module Networks {
  import opened TreeBuilder
  import opened Tries

  // The bits of a network and the offset of its data.
  datatype Network = Network(bits: seq<bool>, offset: nat)

  predicate Overlap(a: seq<bool>, b: seq<bool>)
  {
    a <= b || b <= a
  }

  /** Non-empty networks, no two of which share an address. */
  ghost predicate Disjoint(networks: seq<Network>)
  {
    && (forall i :: 0 <= i < |networks| ==> networks[i].bits != [])
    && (forall i, j :: 0 <= i < j < |networks| ==> !Overlap(networks[i].bits, networks[j].bits))
  }

  /** The first network that contains the address. */
  function Scan(networks: seq<Network>, address: seq<bool>): Trie
  {
    if networks == [] then Miss
    else if networks[0].bits <= address then Hit(networks[0].offset)
    else Scan(networks[1..], address)
  }

  /** The nodes after inserting the networks in order. */
  ghost function InsertAll(networks: seq<Network>): (nodes: seq<TreeNode>)
    ensures nodes != [] && Linked(nodes) && SingleParent(nodes)
  {
    if networks == [] then
      assert forall b :: [EMPTY_NODE][0].Get(b) == Empty;
      [EMPTY_NODE]
    else
      var last := networks[|networks| - 1];
      var before := InsertAll(networks[..|networks| - 1]);
      InsertKeepsTree(before, 0, last.bits, last.offset);
      Insert(before, 0, last.bits, last.offset)
  }

  function TrieOf(networks: seq<Network>): Trie
  {
    if networks == [] then Branch(Miss, Miss)
    else
      var last := networks[|networks| - 1];
      TrieInsert(TrieOf(networks[..|networks| - 1]), last.bits, last.offset)
  }

  /** The built nodes stand for the trie, whatever the networks, as long as none is empty. */
  lemma {:induction false} BuiltTree(networks: seq<Network>)
    requires forall i :: 0 <= i < |networks| ==> networks[i].bits != []
    ensures var nodes := InsertAll(networks);
            Separated(nodes, Child(0)) && Meaning(nodes, Child(0)) == TrieOf(networks)
  {
    if networks == [] {
      Sides(InsertAll([]), 0, false);
    } else {
      var front, last := networks[..|networks| - 1], networks[|networks| - 1];
      BuiltTree(front);
      InsertIsTrieInsert(InsertAll(front), 0, last.bits, last.offset);
    }
  }

  /** The trie is no deeper than its longest network. */
  lemma {:induction false} BuiltDepth(networks: seq<Network>, length: nat)
    requires length > 0 && forall i :: 0 <= i < |networks| ==> |networks[i].bits| <= length
    ensures Depth(TrieOf(networks)) <= length
  {
    if networks != [] {
      var front, last := networks[..|networks| - 1], networks[|networks| - 1];
      BuiltDepth(front, length);
      InsertDepth(TrieOf(front), last.bits, last.offset);
    }
  }

  /** No lookup of a full-length address ends inside the tree, whether networks overlap or not. */
  lemma LookupsEndOutside(networks: seq<Network>, address: seq<bool>)
    requires address != [] && forall i :: 0 <= i < |networks| ==> |networks[i].bits| <= |address|
    ensures !Find(TrieOf(networks), address).Branch?
  {
    BuiltDepth(networks, |address|);
    DeepEnough(TrieOf(networks), address);
  }

  lemma {:induction false} ScanHit(networks: seq<Network>, address: seq<bool>)
    ensures !Scan(networks, address).Branch?
    ensures Scan(networks, address).Hit? <==> exists i :: 0 <= i < |networks| && networks[i].bits <= address
  {
    if networks != [] && !(networks[0].bits <= address) {
      ScanHit(networks[1..], address);
      if i :| 0 <= i < |networks| && networks[i].bits <= address {
        assert networks[1..][i - 1] == networks[i];
      }
      if Scan(networks[1..], address).Hit? {
        var i :| 0 <= i < |networks[1..]| && networks[1..][i].bits <= address;
        assert networks[i + 1].bits <= address;
      }
    }
  }

  lemma {:induction false} ScanLast(networks: seq<Network>, address: seq<bool>)
    requires networks != []
    ensures var front, last := networks[..|networks| - 1], networks[|networks| - 1];
            Scan(networks, address) ==
            if Scan(front, address).Hit? then Scan(front, address)
            else if last.bits <= address then Hit(last.offset) else Miss
  {
    if |networks| > 1 {
      var front := networks[..|networks| - 1];
      assert networks[1..][..|networks| - 2] == front[1..];
      ScanLast(networks[1..], address);
      ScanHit(front[1..], address);
    } else {
      assert networks[1..] == [];
    }
  }

  lemma {:induction false} FindLonger(t: Trie, bits: seq<bool>, more: seq<bool>)
    requires Find(t, bits).Hit?
    ensures Find(t, bits + more) == Find(t, bits)
    decreases |bits|
  {
    if bits != [] && t.Branch? {
      assert (bits + more)[1..] == bits[1..] + more;
      FindLonger(t.At(bits[0]), bits[1..], more);
    }
  }

  /**
   In a tree built from disjoint networks every lookup of a full-length address gives what scanning
   the networks for the address gives, and inserting one leaves the lookups of the others alone.
   */
  lemma {:induction false} LookupIsScan(networks: seq<Network>, address: seq<bool>)
    requires Disjoint(networks)
    requires address != [] && forall i :: 0 <= i < |networks| ==> |networks[i].bits| <= |address|
    ensures Find(TrieOf(networks), address) == Scan(networks, address)
    decreases |networks|
  {
    if networks == [] {
      assert Find(Branch(Miss, Miss), address) == Find(Miss, address[1..]);
    } else {
      var front, last := networks[..|networks| - 1], networks[|networks| - 1];
      LookupIsScan(front, address);
      LookupAfterInsert(TrieOf(front), last.bits, last.offset, address);
      ScanLast(networks, address);
      ScanHit(front, address);
      var common := last.bits[..CommonLength(last.bits, address)];
      if last.bits <= address {
        if Scan(front, address).Hit? {
          var i :| 0 <= i < |front| && front[i].bits <= address;
          assert networks[i].bits == front[i].bits;
          PrefixesOverlap(front[i].bits, last.bits, address);
          assert false;
        }
      } else if Find(TrieOf(front), common).Hit? {
        NothingCovers(networks, address);
      }
    }
  }

  lemma PrefixesOverlap(a: seq<bool>, b: seq<bool>, address: seq<bool>)
    requires a <= address && b <= address
    ensures Overlap(a, b)
  {
    if |a| <= |b| {
      assert a == b[..|a|];
    } else {
      assert b == a[..|b|];
    }
  }

  /** Among disjoint networks no earlier one covers the last. */
  lemma {:induction false} NothingCovers(networks: seq<Network>, address: seq<bool>)
    requires Disjoint(networks) && networks != [] && address != []
    requires forall i :: 0 <= i < |networks| ==> |networks[i].bits| <= |address|
    ensures var last := networks[|networks| - 1].bits;
            !Find(TrieOf(networks[..|networks| - 1]), last[..CommonLength(last, address)]).Hit?
    decreases |networks|, 0
  {
    var front, last := networks[..|networks| - 1], networks[|networks| - 1].bits;
    var n := CommonLength(last, address);
    if Find(TrieOf(front), last[..n]).Hit? {
      var inside := last + address[|last|..];
      assert inside == last[..n] + inside[n..];
      FindLonger(TrieOf(front), last[..n], inside[n..]);
      LookupIsScan(front, inside);
      ScanHit(front, inside);
      var i :| 0 <= i < |front| && front[i].bits <= inside;
      assert networks[i].bits == front[i].bits;
      PrefixesOverlap(front[i].bits, last, inside);
      assert false;
    }
  }
}
