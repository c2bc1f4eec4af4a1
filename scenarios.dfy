/** The behaviour of concrete trees with branching ratio 3 whose items are `int` values, so that
    each item is its own key: the five-key case of the unit tests, and what the first split and
    the split after it do. */
module Scenarios {
  import opened Int32
  import opened Outcomes
  import opened Sequences
  import opened Nodes
  import opened BplusTrees
  import opened TreeProperties

  /** The keys 0, 1, ..., k - 1. */
  function Upto(k: nat): (s: seq<i32>)
    requires k <= 100
    ensures |s| == k && forall i :: 0 <= i < k ==> s[i] == i as i32
  {
    seq(k, i requires 0 <= i < k => i as i32)
  }

  /** The root leaf holding the keys 0, ..., k - 1, each with itself as item. */
  function RootLeaf(k: nat): Node<i32>
    requires k <= 100
  {
    Node(Upto(k), Upto(k), [], Null, Null, Null)
  }

  /** Adding 0, 1, ..., count - 1 to a fresh tree with `Add` while the root leaf stays below 2t
      keys: every call returns and the root leaf holds the keys in order. */
  method AddAscending(tree: BplusTree<i32>, count: nat) returns (added: seq<Outcome<()>>)
    requires tree.Valid() && tree.root == 0 && tree.nodes == [EmptyNode()]
    requires tree.branchingRatio <= 50 && count < 2 * tree.branchingRatio as int
    modifies tree
    ensures tree.Valid() && tree.root == 0 && tree.nodes == [RootLeaf(count)]
    ensures added == seq(count, _ => Return(()))
  {
    added := [];
    assert Upto(0) == [];
    for k := 0 to count
      invariant tree.Valid() && tree.root == 0 && tree.nodes == [RootLeaf(k)]
      invariant added == seq(k, _ => Return(()))
    {
      ghost var nodes, level, height := tree.nodes, tree.level, tree.height;
      var r := tree.Add(k as i32, k as i32);
      ghost var b :| InsertedAs(nodes, level, height, 0, tree.branchingRatio, tree.nodes, tree.root, k as i32, k as i32, b)
                     && r == match b case Return(_) => Return(()) case Throw(e) => Throw(e) case Hang => Hang;
      InsertIntoRootLeaf(nodes, level, height, 0, tree.branchingRatio, tree.nodes, tree.root, k as i32, k as i32, b, k as i32);
      AppendLargest(RootLeaf(k), k as i32, k as i32);
      assert Upto(k) + [k as i32] == Upto(k + 1);
      added := added + [r];
    }
  }

  /** The constructor checks of the unit tests: a tree of strings with the default ratio is
      created, and ratio 6 is kept. */
  method CreateChecks() returns (first: Outcome<BplusTree<string>>, six: Outcome<BplusTree<i32>>)
    ensures first.Return? && first.value.branchingRatio == 3 && first.value.nodes == [EmptyNode()]
    ensures six.Return? && six.value.branchingRatio == 6 && six.value.nodes == [EmptyNode()]
  {
    first := BplusTree.CreateDefault();
    six := BplusTree.Create(6);
  }

  /** The constructor's guard: a ratio that is not positive is refused. */
  method CreateRefused() returns (zero: Outcome<BplusTree<i32>>, negative: Outcome<BplusTree<i32>>)
    ensures zero == Throw(ArgumentException) && negative == Throw(ArgumentException)
  {
    zero := BplusTree.Create(0);
    negative := BplusTree.Create(-1);
  }

  /** With ratio 3, the default, adding 0 to 4 returns each time and Contains then finds every
      one. */
  method FiveKeysFound() returns (added: seq<Outcome<()>>, found: seq<Outcome<bool>>)
    ensures added == [Return(()), Return(()), Return(()), Return(()), Return(())]
    ensures found == [Return(true), Return(true), Return(true), Return(true), Return(true)]
  {
    var tree := new BplusTree<i32>(DefaultRatio);
    added := AddAscending(tree, 5);
    found := [];
    for k := 0 to 5
      invariant tree.Valid() && tree.root == 0 && tree.nodes == [RootLeaf(5)]
      invariant found == seq(k, _ => Return(true))
    {
      var c := tree.Contains(k as i32);
      assert Upto(5)[k] == k as i32;
      found := found + [c];
    }
  }

  /** With ratio 3, adding 0 to 5 splits the root leaf: the new root holds `int.MinValue` and
      3 over the leaves [0, 1, 2] and [3, 4, 5], and Contains(3) is then false. */
  method FirstSplit() returns (tree: BplusTree<i32>, added: Outcome<bool>, found: Outcome<bool>)
    ensures fresh(tree) && tree.Valid() && tree.branchingRatio == 3 && tree.root == 2 && |tree.nodes| == 3
    ensures tree.nodes[2] == Node([MinValue, 3], [], [0, 1], Null, Null, Null)
    ensures tree.nodes[0] == Node(Upto(3), Upto(3), [], At(2), Null, At(1))
    ensures tree.nodes[1] == Node([3, 4, 5], [3, 4, 5], [], At(2), At(0), Null)
    ensures added == Return(true) && found == Return(false)
  {
    tree := new BplusTree<i32>(3);
    var _ := AddAscending(tree, 5);
    ghost var nodes, level, height := tree.nodes, tree.level, tree.height;
    DescendLeaf(nodes, level, height, 0, 5);
    AppendLargest(RootLeaf(5), 5, 5);
    added := tree.InsertKey(5, 5);
    assert Upto(5) + [5] == Upto(6);
    assert Upto(6)[..3] == Upto(3) && Upto(6)[3..] == [3, 4, 5];
    found := tree.Contains(3);
    RightHalfHidden([RootLeaf(6)], tree.nodes, tree.level, tree.height, 2, 0, 3, 3);
  }

  /** After the first split, a key above every key of the left leaf lands in the left leaf
      (child 0 of the sentinel) and, while it stays below 5 keys, nothing else changes. */
  method AddToLeft(tree: BplusTree<i32>, ks: seq<i32>, key: i32) returns (r: Outcome<bool>)
    requires tree.Valid() && tree.branchingRatio == 3 && tree.root == 2 && |tree.nodes| == 3
    requires tree.nodes[2] == Node([MinValue, 3], [], [0, 1], Null, Null, Null)
    requires tree.nodes[0] == Node(ks, ks, [], At(2), Null, At(1))
    requires 0 < |ks| < 5 && forall j :: 0 <= j < |ks| ==> ks[j] < key
    modifies tree
    ensures tree.Valid() && tree.root == 2 && |tree.nodes| == 3
    ensures tree.nodes[2] == old(tree.nodes[2]) && tree.nodes[1] == old(tree.nodes[1])
    ensures tree.nodes[0] == Node(ks + [key], ks + [key], [], At(2), Null, At(1))
    ensures r == Return(true)
  {
    ghost var nodes, level, height := tree.nodes, tree.level, tree.height;
    DescendThroughSentinel(nodes, level, height, 2, key);
    DescendLeaf(nodes, level, height, 0, key);
    AppendLargest(nodes[0], key, key);
    r := tree.InsertKey(key, key);
  }

  /** Continuing, 6 and 7 land in the left leaf although the right leaf holds the keys from 3 on. */
  method TwoMoreKeys() returns (tree: BplusTree<i32>, added: seq<Outcome<bool>>)
    ensures fresh(tree) && tree.Valid() && tree.branchingRatio == 3 && tree.root == 2 && |tree.nodes| == 3
    ensures tree.nodes[2] == Node([MinValue, 3], [], [0, 1], Null, Null, Null)
    ensures tree.nodes[0] == Node([0, 1, 2, 6, 7], [0, 1, 2, 6, 7], [], At(2), Null, At(1))
    ensures added == [Return(true), Return(true)]
  {
    var added5, found3;
    tree, added5, found3 := FirstSplit();
    assert Upto(3) == [0, 1, 2];
    var six := AddToLeft(tree, [0, 1, 2], 6);
    var seven := AddToLeft(tree, [0, 1, 2, 6], 7);
    added := [six, seven];
  }

  /** Then 8 makes the left leaf hold 6 keys, and its split throws NotImplementedException once
      the leaf is cleared. The cleared leaf is no longer a leaf and has no separators, so the
      descent for 0 then never ends. */
  method SecondSplit() returns (added: Outcome<bool>, found: Outcome<bool>)
    ensures added == Throw(NotImplementedException)
    ensures found == Hang
  {
    var tree, _ := TwoMoreKeys();
    ghost var nodes, level, height := tree.nodes, tree.level, tree.height;
    DescendThroughSentinel(nodes, level, height, 2, 8);
    DescendLeaf(nodes, level, height, 0, 8);
    AppendLargest(nodes[0], 8, 8);
    added := tree.InsertKey(8, 8);
    DescendThroughSentinel(tree.nodes, tree.level, tree.height, 2, 0);
    found := tree.Contains(0);
  }
}
