/** What the insertion and split specifications imply for lookups: before any split the root leaf
    holds exactly the keys added, and after the first split every search ends in the left leaf. */
module TreeProperties {
  import opened Int32
  import opened Outcomes
  import opened Sequences
  import opened Nodes
  import opened BplusTrees

  /** An insertion into a root leaf that does not make it split leaves the root a leaf holding the
      old keys and key, and reports whether key was new. */
  lemma InsertIntoRootLeaf<T>(nodes: seq<Node<T>>, level: seq<nat>, height: nat, root: nat, t: i32,
                              nodes': seq<Node<T>>, root': nat, key: i32, data: T, r: Outcome<bool>, k: i32)
    requires WellFormed(nodes, level, height) && LeavesSorted(nodes) && root < |nodes| && 0 < t && nodes[root].IsLeaf()
    requires InsertedAs(nodes, level, height, root, t, nodes', root', key, data, r)
    requires key in nodes[root].keys || |nodes[root].keys| + 1 != Wrap(2 * t as int) as int
    ensures r == Return(key !in nodes[root].keys) && root' == root && root' < |nodes'|
    ensures nodes'[root'].IsLeaf() && nodes'[root'].parent == nodes[root].parent
    ensures key in nodes[root].keys ==> nodes' == nodes
    ensures key !in nodes[root].keys ==>
              |nodes[root].pointers| == |nodes[root].keys| && nodes' == nodes[root := WithEntry(nodes[root], key, data)]
    ensures k in nodes'[root'].keys <==> k in nodes[root].keys || k == key
  {
    DescendLeaf(nodes, level, height, root, key);
    FitsAt(nodes, level, height, root);
    if key !in nodes[root].keys {
      var y := WithEntry(nodes[root], key, data);
      assert k in y.keys <==> k in multiset(y.keys);
    }
  }

  /** An entry whose key is above every key of the leaf is appended. */
  lemma AppendLargest<T>(x: Node<T>, key: i32, data: T)
    requires |x.pointers| == |x.keys| && forall j :: 0 <= j < |x.keys| ==> x.keys[j] < key
    ensures WithEntry(x, key, data) == x.(keys := x.keys + [key], pointers := x.pointers + [data])
  {
    InsertionPointExtremes(x.keys, key);
  }

  /** After the split of a root leaf the new root's first separator is `int.MinValue`, so every
      descent from it ends in the left leaf n, which holds only the first t keys. */
  lemma DescentAfterRootSplit<T>(nodes: seq<Node<T>>, nodes': seq<Node<T>>, level': seq<nat>, height': nat,
                                 root': nat, n: nat, t: nat, key: i32)
    requires n < |nodes| && 0 < t < |nodes[n].keys| && t <= |nodes[n].pointers|
    requires RootLeafSplit(nodes, nodes', root', n, t) && WellFormed(nodes', level', height')
    ensures Descend(nodes', level', height', root', key) == Reached(n)
    ensures nodes'[n].keys == nodes[n].keys[..t]
  {
    DescendThroughSentinel(nodes', level', height', root', key);
    DescendLeaf(nodes', level', height', n, key);
  }

  /** Hence a key of the right half of a strictly sorted root leaf is no longer found once the
      leaf is split, although the fresh right leaf holds it. */
  lemma RightHalfHidden<T>(nodes: seq<Node<T>>, nodes': seq<Node<T>>, level': seq<nat>, height': nat,
                           root': nat, n: nat, t: nat, j: nat)
    requires n < |nodes| && 0 < t <= j < |nodes[n].keys| && t <= |nodes[n].pointers|
    requires StrictlySorted(nodes[n].keys)
    requires RootLeafSplit(nodes, nodes', root', n, t) && WellFormed(nodes', level', height')
    ensures nodes[n].keys[j] in nodes'[|nodes|].keys
    ensures Descend(nodes', level', height', root', nodes[n].keys[j]) == Reached(n)
    ensures nodes[n].keys[j] !in nodes'[n].keys
  {
    var keys := nodes[n].keys;
    DescentAfterRootSplit(nodes, nodes', level', height', root', n, t, keys[j]);
    assert keys[t..][j - t] == keys[j];
    forall i | 0 <= i < t
      ensures keys[..t][i] != keys[j]
    {
      assert keys[i] < keys[j];
    }
  }

  /** A tree in the state its constructor leaves, a valid arena holding only an empty root, stops
      every descent at that root at once. */
  lemma FreshTreeDescent<T>(tree: BplusTree<T>, key: i32)
    requires tree.Valid() && tree.nodes == [EmptyNode()] && tree.root == 0
    ensures Descend(tree.nodes, tree.level, tree.height, tree.root, key) == Reached(tree.root)
  {
    DescendLeaf(tree.nodes, tree.level, tree.height, tree.root, key);
  }

  /** The sibling relinking of a split leaves the old right brother b of n pointing back at n's
      own left brother, a node already in the arena, not at the fresh node, whose right brother
      b now is. */
  lemma LinkedSkipsCreated<T>(nodes: seq<Node<T>>, level: seq<nat>, height: nat, n: nat, b: nat)
    requires WellFormed(nodes, level, height) && n < |nodes| && nodes[n].rightBrother == At(b) && b != n
    ensures b < |nodes| && Linked(nodes, n)[|nodes|].rightBrother == At(b)
    ensures Linked(nodes, n)[b].leftBrother == nodes[n].leftBrother
    ensures Linked(nodes, n)[b].leftBrother != At(|nodes|)
  {
    FitsAt(nodes, level, height, n);
  }
}
