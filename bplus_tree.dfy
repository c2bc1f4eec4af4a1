/** The B+ tree: an arena of nodes, the root index and the branching ratio t, with the node
    operations, the descent, insertion with leaf overflow, and the split. */
module BplusTrees {
  import opened Int32
  import opened Outcomes
  import opened Sequences
  import opened Nodes

  /** The child indices of a list of references none of which is null. */
  function Indices(rs: seq<NodeRef>): (cs: seq<nat>)
    requires forall k :: 0 <= k < |rs| ==> rs[k].At?
    ensures |cs| == |rs| && forall k :: 0 <= k < |rs| ==> rs[k] == At(cs[k])
  {
    if rs == [] then [] else [rs[0].index] + Indices(rs[1..])
  }

  /** The references to a list of child indices. */
  function Refs(cs: seq<nat>): (rs: seq<NodeRef>)
    ensures |rs| == |cs| && forall k :: 0 <= k < |cs| ==> rs[k] == At(cs[k])
  {
    seq(|cs|, k requires 0 <= k < |cs| => At(cs[k]))
  }

  /** Inserting a reference among references and taking the indices is inserting the index. */
  lemma RefsInsertAt(cs: seq<nat>, i: nat, c: nat)
    requires i <= |cs|
    ensures forall k :: 0 <= k < |cs| + 1 ==> InsertAt(Refs(cs), i, At(c))[k].At?
    ensures Indices(InsertAt(Refs(cs), i, At(c))) == InsertAt(cs, i, c)
  {
    var rs := InsertAt(Refs(cs), i, At(c));
    ShiftedIsInsertAt(cs, Indices(rs), i, c);
  }

  /** The right-shift loop of `InsertKeyPointer` and `InsertKeyChild` on a non-empty node:
      append the placeholder key `int.MaxValue` and the placeholder value pad, move every entry not
      below key one place to the right, and write key and v into the gap. */
  method ShiftInsert<X>(keys: seq<i32>, vals: seq<X>, key: i32, v: X, pad: X) returns (ks: seq<i32>, vs: seq<X>, i: nat)
    requires |vals| == |keys| && 0 < |keys|
    ensures i <= |keys|
    ensures forall j :: i <= j < |keys| ==> key <= keys[j]
    ensures 0 < i ==> keys[i - 1] < key
    ensures ks == InsertAt(keys, i, key) && vs == InsertAt(vals, i, v)
  {
    ks := keys + [MaxValue];
    vs := vals + [pad];
    i := |ks| - 1;
    while i > 0 && ks[i - 1] >= key
      invariant 0 <= i <= |keys|
      invariant |ks| == |vs| == |keys| + 1
      invariant forall k :: 0 <= k < i ==> ks[k] == keys[k] && vs[k] == vals[k]
      invariant forall k :: i < k < |ks| ==> ks[k] == keys[k - 1] && vs[k] == vals[k - 1]
      invariant forall k :: i <= k < |keys| ==> key <= keys[k]
    {
      ks := ks[i := ks[i - 1]];
      vs := vs[i := vs[i - 1]];
      i := i - 1;
    }
    ks := ks[i := key];
    vs := vs[i := v];
    ShiftedIsInsertAt(keys, ks, i, key);
    ShiftedIsInsertAt(vals, vs, i, v);
  }

  /** The arena after a successful split of the root leaf n, whose keys are at least t + 1: n
      keeps its first t entries, the fresh node c = |nodes| takes the others with the middle key
      in front, and the new root |nodes| + 1 holds the sentinel `int.MinValue` and the middle key
      over children n and c. The sibling links follow `Linked`. */
  ghost predicate RootLeafSplit<T>(nodes: seq<Node<T>>, nodes': seq<Node<T>>, root': nat, n: nat, t: nat)
    requires n < |nodes| && t < |nodes[n].keys| && t <= |nodes[n].pointers|
  {
    var x := nodes[n];
    var c := |nodes|;
    && |nodes'| == |nodes| + 2 && root' == |nodes| + 1
    && nodes'[n] == Node(x.keys[..t], x.pointers[..t], [], At(root'), x.leftBrother, At(c))
    && nodes'[c] == Node(x.keys[t..], x.pointers[t..], [], At(root'), At(n), x.rightBrother)
    && nodes'[root'] == Node([MinValue, x.keys[t]], [], [n, c], Null, Null, Null)
    && forall j :: 0 <= j < |nodes| && j != n ==>
         nodes'[j] == if x.rightBrother == At(j) then nodes[j].(leftBrother := x.leftBrother) else nodes[j]
  }

  /** Leaf x with key and its data inserted in order: at the insertion point of the keys, with the
      pointer at the same index. */
  function WithEntry<T>(x: Node<T>, key: i32, data: T): (y: Node<T>)
    requires |x.pointers| == |x.keys|
    ensures |y.keys| == |y.pointers| == |x.keys| + 1 && y.IsLeaf()
    ensures y.childs == x.childs && y.parent == x.parent
    ensures y.leftBrother == x.leftBrother && y.rightBrother == x.rightBrother
    ensures multiset(y.keys) == multiset(x.keys) + multiset{key}
    ensures multiset(y.pointers) == multiset(x.pointers) + multiset{data}
  {
    var i := InsertionPoint(x.keys, key);
    InsertAtMultiset(x.keys, i, key);
    InsertAtMultiset(x.pointers, i, data);
    x.(keys := InsertAt(x.keys, i, key), pointers := InsertAt(x.pointers, i, data))
  }

  /** The ordered insert keeps ascending keys ascending, and strictly ascending keys strictly so
      when key is new. */
  lemma WithEntryOrdered<T>(x: Node<T>, key: i32, data: T)
    requires |x.pointers| == |x.keys|
    ensures Sorted(x.keys) ==> Sorted(WithEntry(x, key, data).keys)
    ensures StrictlySorted(x.keys) && key !in x.keys ==> StrictlySorted(WithEntry(x, key, data).keys)
  {
    if Sorted(x.keys) {
      InsertKeepsSorted(x.keys, key);
    }
    if StrictlySorted(x.keys) && key !in x.keys {
      InsertKeepsStrictlySorted(x.keys, key);
    }
  }

  /** Internal node x with key and child c inserted in order, as `InsertKeyChild` does: at the
      insertion point of the keys, with the child at the same index. */
  function WithChild<T>(x: Node<T>, key: i32, c: nat): (y: Node<T>)
    requires |x.childs| == |x.keys|
    ensures |y.keys| == |y.childs| == |x.keys| + 1 && y.pointers == x.pointers
    ensures y.parent == x.parent && y.leftBrother == x.leftBrother && y.rightBrother == x.rightBrother
    ensures multiset(y.keys) == multiset(x.keys) + multiset{key}
    ensures multiset(y.childs) == multiset(x.childs) + multiset{c}
  {
    var i := InsertionPoint(x.keys, key);
    InsertAtMultiset(x.keys, i, key);
    InsertAtMultiset(x.childs, i, c);
    x.(keys := InsertAt(x.keys, i, key), childs := InsertAt(x.childs, i, c))
  }

  /** What `InsertKey(key, data)` does to the arena `nodes` with root `root` and ratio t, leaving
      `nodes'` and `root'` and ending with r. The descent may make no progress (Hang); a leaf that
      holds key is left alone (false); otherwise the leaf gains the entry (`EntryAdded`). */
  ghost predicate InsertedAs<T>(nodes: seq<Node<T>>, level: seq<nat>, height: nat, root: nat, t: i32,
                                nodes': seq<Node<T>>, root': nat, key: i32, data: T, r: Outcome<bool>)
    requires WellFormed(nodes, level, height) && LeavesSorted(nodes) && root < |nodes| && 0 < t
  {
    match Descend(nodes, level, height, root, key)
    case Stuck => r == Hang && nodes' == nodes && root' == root
    case Reached(leaf) =>
      LeafSorted(nodes, level, height, leaf);
      if key in nodes[leaf].keys then r == Return(false) && nodes' == nodes && root' == root
      else EntryAdded(nodes, root, t, nodes', root', leaf, key, data, r)
  }

  /** Leaf `leaf` gains key and data in order and the call returns true, except that when the leaf
      then holds `BranchingRatio * 2` keys, computed in 32 bits, it is split: a non-root leaf
      throws once cleared, and a root leaf, whose keys are strictly ascending, is divided under
      a new root. */
  ghost predicate EntryAdded<T>(nodes: seq<Node<T>>, root: nat, t: i32, nodes': seq<Node<T>>, root': nat,
                                leaf: nat, key: i32, data: T, r: Outcome<bool>)
    requires leaf < |nodes| && |nodes[leaf].pointers| == |nodes[leaf].keys| && 0 < t
    requires StrictlySorted(nodes[leaf].keys)
  {
    var x := nodes[leaf];
    var y := WithEntry(x, key, data);
    var grown := nodes[leaf := y];
    if |y.keys| != Wrap(2 * t as int) as int then r == Return(true) && nodes' == grown && root' == root
    else
      && |nodes| < |nodes'| && r != Hang && r != Return(false)
      && (!y.IsRoot() ==>
            && r == Throw(NotImplementedException) && root' == root
            && nodes' == Linked(grown, leaf)[leaf := Cleared(Linked(grown, leaf)[leaf])])
      && (y.IsRoot() ==>
            r == Return(true) && RootLeafSplit(grown, nodes', root', leaf, t as nat))
  }

  /** The branching ratio a tree gets when none is given. */
  const DefaultRatio: i32 := 3

  class BplusTree<T> {
    const branchingRatio: i32
    var nodes: seq<Node<T>>
    var root: nat
    ghost var level: seq<nat>
    ghost var height: nat

    /** The structural invariant, which the steps inside a split keep. */
    ghost predicate Shaped()
      reads this
    {
      && 0 < branchingRatio
      && WellFormed(nodes, level, height)
      && root < |nodes|
      && nodes[root].IsRoot()
    }

    /** The tree invariant: the structure, and strictly ascending keys in every node with data. */
    ghost predicate Valid()
      reads this
    {
      Shaped() && LeavesSorted(nodes)
    }

    /** The only configuration in which `Split` reaches its parent branch: a ratio of 1 and an
        internal node that is not the root. With a larger ratio the fresh node, which looks like an
        empty root leaf, rejects its first child; a non-root leaf rejects its first pointer once
        cleared. */
    ghost predicate ReachesParent(n: nat)
      reads this
      requires n < |nodes|
    {
      branchingRatio == 1 && !nodes[n].IsLeaf() && !nodes[n].IsRoot()
    }

    /** The constructor's normal path: ratio t and an empty root. */
    constructor (t: i32)
      requires 0 < t
      ensures Valid() && branchingRatio == t
      ensures nodes == [EmptyNode()] && root == 0
    {
      branchingRatio := t;
      nodes := [EmptyNode()];
      root := 0;
      level := [0];
      height := 0;
    }

    /** `new BplusTree(t)`: throws for a ratio that is not positive. */
    static method Create(t: i32) returns (r: Outcome<BplusTree<T>>)
      ensures t <= 0 ==> r == Throw(ArgumentException)
      ensures 0 < t ==> r.Return? && fresh(r.value) && r.value.Valid() && r.value.branchingRatio == t
      ensures 0 < t ==> r.Return? && r.value.nodes == [EmptyNode()] && r.value.root == 0
    {
      if t <= 0 {
        return Throw(ArgumentException);
      }
      var tree := new BplusTree(t);
      return Return(tree);
    }

    /** `new BplusTree()`: the constructor with its default ratio. */
    static method CreateDefault() returns (r: Outcome<BplusTree<T>>)
      ensures r.Return? && fresh(r.value) && r.value.Valid() && r.value.branchingRatio == DefaultRatio
      ensures r.value.nodes == [EmptyNode()] && r.value.root == 0
    {
      r := Create(DefaultRatio);
    }

    /** `Node.AddChild`: appends key and child, unless the node is a leaf and force is off, the key
        is present, or the child is null. */
    method AddChild(id: nat, key: i32, child: NodeRef, force: bool) returns (r: Outcome<()>)
      requires id < |nodes|
      modifies this`nodes
      ensures r == Return(()) || r == Throw(ArgumentException)
      ensures r.Throw? <==> (old(nodes[id]).IsLeaf() && !force) || key in old(nodes[id]).keys || child == Null
      ensures r.Return? ==> nodes == old(nodes)[id := old(nodes[id]).(keys := old(nodes[id]).keys + [key],
                                                                    childs := old(nodes[id]).childs + [child.index])]
      ensures r.Throw? ==> nodes == old(nodes)
    {
      var x := nodes[id];
      if x.IsLeaf() && !force {
        return Throw(ArgumentException);
      }
      if x.ContainsKey(key) {
        return Throw(ArgumentException);
      }
      if child == Null {
        return Throw(ArgumentException);
      }
      nodes := nodes[id := x.(childs := x.childs + [child.index], keys := x.keys + [key])];
      return Return(());
    }

    /** `Node.AddPointer`: appends key and data, unless the node is not a leaf or the key is present. */
    method AddPointer(id: nat, key: i32, data: T) returns (r: Outcome<()>)
      requires id < |nodes|
      modifies this`nodes
      ensures r == Throw(NotImplementedException) <==> !old(nodes[id]).IsLeaf()
      ensures r == Throw(ArgumentException) <==> old(nodes[id]).IsLeaf() && key in old(nodes[id]).keys
      ensures r.Return? || r.Throw?
      ensures r.Return? ==> nodes == old(nodes)[id := old(nodes[id]).(keys := old(nodes[id]).keys + [key],
                                                                    pointers := old(nodes[id]).pointers + [data])]
      ensures r.Throw? ==> nodes == old(nodes)
    {
      var x := nodes[id];
      if !x.IsLeaf() {
        return Throw(NotImplementedException);
      }
      if x.ContainsKey(key) {
        return Throw(ArgumentException);
      }
      nodes := nodes[id := x.(pointers := x.pointers + [data], keys := x.keys + [key])];
      return Return(());
    }

    /** `Node.InsertKeyPointer`: an empty node takes key and data directly; otherwise they are
        inserted in order by the right shift, with a copy of the last pointer as the placeholder. */
    method InsertKeyPointer(id: nat, key: i32, data: T) returns (i: nat)
      requires id < |nodes| && |nodes[id].pointers| == |nodes[id].keys|
      modifies this`nodes
      ensures i <= |old(nodes[id].keys)|
      ensures forall j :: i <= j < |old(nodes[id].keys)| ==> key <= old(nodes[id].keys[j])
      ensures 0 < i ==> old(nodes[id].keys[i - 1]) < key
      ensures nodes == old(nodes)[id := old(nodes[id]).(keys := InsertAt(old(nodes[id].keys), i, key),
                                                      pointers := InsertAt(old(nodes[id].pointers), i, data))]
    {
      var x := nodes[id];
      var keys, pointers;
      if x.KeyCount() == 0 {
        keys, pointers, i := x.keys + [key], x.pointers + [data], 0;
        ShiftedIsInsertAt(x.keys, keys, i, key);
        ShiftedIsInsertAt(x.pointers, pointers, i, data);
      } else {
        keys, pointers, i := ShiftInsert(x.keys, x.pointers, key, data, x.pointers[|x.pointers| - 1]);
      }
      nodes := nodes[id := x.(keys := keys, pointers := pointers)];
    }

    /** `Node.InsertKeyChild`: the same, over keys and children, with a null placeholder child that
        the shift always overwrites. */
    method InsertKeyChild(id: nat, key: i32, child: nat) returns (i: nat)
      requires id < |nodes| && |nodes[id].childs| == |nodes[id].keys|
      modifies this`nodes
      ensures i <= |old(nodes[id].keys)|
      ensures forall j :: i <= j < |old(nodes[id].keys)| ==> key <= old(nodes[id].keys[j])
      ensures 0 < i ==> old(nodes[id].keys[i - 1]) < key
      ensures nodes == old(nodes)[id := old(nodes[id]).(keys := InsertAt(old(nodes[id].keys), i, key),
                                                      childs := InsertAt(old(nodes[id].childs), i, child))]
    {
      var x := nodes[id];
      var keys, cs;
      if x.KeyCount() == 0 {
        keys, cs, i := x.keys + [key], x.childs + [child], 0;
        ShiftedIsInsertAt(x.keys, keys, i, key);
        ShiftedIsInsertAt(x.childs, cs, i, child);
      } else {
        var refs := Refs(x.childs);
        var childs;
        keys, childs, i := ShiftInsert(x.keys, refs, key, At(child), Null);
        cs := Indices(childs);
        RefsInsertAt(x.childs, i, child);
      }
      nodes := nodes[id := x.(keys := keys, childs := cs)];
    }

    method SetLeftBrother(id: nat, l: NodeRef)
      requires id < |nodes|
      modifies this`nodes
      ensures nodes == old(nodes)[id := old(nodes[id]).(leftBrother := l)]
    {
      nodes := nodes[id := nodes[id].(leftBrother := l)];
    }

    method SetRightBrother(id: nat, r: NodeRef)
      requires id < |nodes|
      modifies this`nodes
      ensures nodes == old(nodes)[id := old(nodes[id]).(rightBrother := r)]
    {
      nodes := nodes[id := nodes[id].(rightBrother := r)];
    }

    /** `FindLeaf`: from the root, while the current node is not a leaf, move to the child of the
        first separator not above key. When no separator qualifies the source's loop makes no
        progress and never ends; that outcome is Stuck. */
    method FindLeaf(key: i32) returns (d: Descent)
      requires Valid()
      ensures d == Descend(nodes, level, height, root, key)
      ensures d.Reached? ==> d.leaf < |nodes| && nodes[d.leaf].IsLeaf()
    {
      var current: nat := root;
      while !nodes[current].IsLeaf()
        invariant current < |nodes|
        invariant Descend(nodes, level, height, current, key) == Descend(nodes, level, height, root, key)
        decreases level[current]
      {
        FitsAt(nodes, level, height, current);
        var x := nodes[current];
        var next: nat := current;
        var moved := false;
        for i := 0 to x.KeyCount()
          invariant forall j :: 0 <= j < i ==> key < x.keys[j]
          invariant !moved
        {
          if key >= x.keys[i] {
            InternalIsAligned(x);
            assert x.childs[i] in x.childs;
            assert FirstMatch(x.keys, key) == i;
            next := x.childs[i];
            moved := true;
            break;
          }
        }
        if !moved {
          return Stuck;
        }
        current := next;
      }
      return Reached(current);
    }

    /** `Contains`: whether the leaf the descent reaches holds key. */
    method Contains(key: i32) returns (r: Outcome<bool>)
      requires Valid()
      ensures r == Hang <==> Descend(nodes, level, height, root, key).Stuck?
      ensures Descend(nodes, level, height, root, key).Reached? ==>
                r == Return(key in nodes[Descend(nodes, level, height, root, key).leaf].keys)
      ensures nodes[root].IsLeaf() ==> r == Return(key in nodes[root].keys)
    {
      var d := FindLeaf(key);
      if d.Stuck? {
        return Hang;
      }
      if nodes[root].IsLeaf() {
        DescendLeaf(nodes, level, height, root, key);
      }
      return Return(nodes[d.leaf].ContainsKey(key));
    }

    /** `InsertKey`: find the leaf for key; unless it already holds key, insert key and data in
        order and split the leaf once it holds `BranchingRatio * 2` keys. An exception from the
        split ends the insertion. */
    method InsertKey(key: i32, data: T) returns (r: Outcome<bool>)
      requires Valid()
      modifies this`nodes, this`root, this`level, this`height
      ensures Valid()
      ensures InsertedAs(old(nodes), old(level), old(height), old(root), branchingRatio, nodes, root, key, data, r)
    {
      var d := FindLeaf(key);
      if d.Stuck? {
        return Hang;
      }
      FitsAt(nodes, level, height, d.leaf);
      if nodes[d.leaf].ContainsKey(key) {
        return Return(false);
      }
      r := AddToLeaf(d.leaf, key, data);
    }

    /** The insertion into the leaf `InsertKey` found, and the split that may follow. */
    method AddToLeaf(leaf: nat, key: i32, data: T) returns (r: Outcome<bool>)
      requires Valid() && leaf < |nodes| && nodes[leaf].IsLeaf() && key !in nodes[leaf].keys
      modifies this`nodes, this`root, this`level, this`height
      ensures Valid() && |old(nodes[leaf].pointers)| == |old(nodes[leaf].keys)| && StrictlySorted(old(nodes[leaf].keys))
      ensures EntryAdded(old(nodes), old(root), branchingRatio, nodes, root, leaf, key, data, r)
    {
      LeafSorted(nodes, level, height, leaf);
      PlaceEntry(leaf, key, data);
      r := Return(true);
      if nodes[leaf].KeyCount() == Wrap(2 * branchingRatio as int) as int {
        var s := Split(leaf);
        r := if s.Throw? then Throw(s.exception) else Return(true);
      }
    }

    /** `targetLeaf.InsertKeyPointer(key, data)` on the leaf `InsertKey` found. */
    method PlaceEntry(leaf: nat, key: i32, data: T)
      requires Valid() && leaf < |nodes| && nodes[leaf].IsLeaf() && key !in nodes[leaf].keys
      modifies this`nodes
      ensures Valid() && |old(nodes[leaf].pointers)| == |old(nodes[leaf].keys)|
      ensures nodes == old(nodes)[leaf := WithEntry(old(nodes[leaf]), key, data)]
    {
      FitsAt(nodes, level, height, leaf);
      LeafSorted(nodes, level, height, leaf);
      ghost var x0 := nodes;
      var i := InsertKeyPointer(leaf, key, data);
      InsertionPointUnique(x0[leaf].keys, key, i);
      FitsRefilled(x0[leaf], level[leaf], level, height, nodes[leaf].keys, nodes[leaf].pointers, []);
      Replace(x0, level, height, leaf, nodes[leaf]);
      WithEntryOrdered(x0[leaf], key, data);
      forall j | 0 <= j < |nodes|
        ensures Ordered(nodes[j])
      {
        if j != leaf {
          assert Ordered(x0[j]);
        }
      }
    }

    /** `Add`: insert item under its key; whether the key was new is dropped. */
    method Add(key: i32, item: T) returns (r: Outcome<()>)
      requires Valid()
      modifies this`nodes, this`root, this`level, this`height
      ensures Valid()
      ensures exists b :: InsertedAs(old(nodes), old(level), old(height), old(root), branchingRatio, nodes, root, key, item, b)
                          && r == match b case Return(_) => Return(()) case Throw(e) => Throw(e) case Hang => Hang
    {
      var b := InsertKey(key, item);
      r := match b case Return(_) => Return(()) case Throw(e) => Throw(e) case Hang => Hang;
    }

    /** The copy loop at the start of `Split`: the keys of node n, with its pointers when it is a
        leaf and its children otherwise. */
    method Snapshot(n: nat) returns (keys: seq<i32>, pointers: seq<T>, childs: seq<nat>)
      requires n < |nodes| && nodes[n].Aligned()
      ensures keys == nodes[n].keys
      ensures pointers == if nodes[n].IsLeaf() then nodes[n].pointers else []
      ensures childs == if nodes[n].IsLeaf() then [] else nodes[n].childs
    {
      var x := nodes[n];
      keys, pointers, childs := [], [], [];
      for i := 0 to x.KeyCount()
        invariant keys == x.keys[..i]
        invariant pointers == if x.IsLeaf() then x.pointers[..i] else []
        invariant childs == if x.IsLeaf() then [] else x.childs[..i]
      {
        keys := keys + [x.keys[i]];
        if x.IsLeaf() {
          pointers := pointers + [x.pointers[i]];
        } else {
          childs := childs + [x.childs[i]];
        }
      }
      assert x.keys[..|x.keys|] == x.keys;
      assert x.IsLeaf() ==> x.pointers[..|x.keys|] == x.pointers;
      assert !x.IsLeaf() ==> x.childs[..|x.keys|] == x.childs;
    }

    /** The first steps of `Split`: a fresh node is appended and linked in to the right of n. */
    method LinkCreated(n: nat) returns (c: nat)
      requires Shaped() && n < |nodes|
      modifies this`nodes, this`level
      ensures Shaped()
      ensures c == |old(nodes)| && nodes == Linked(old(nodes), n)
      ensures level == old(level) + [old(level[n])]
    {
      ghost var s0 := nodes;
      FitsAt(nodes, level, height, n);
      c := |nodes|;
      nodes := nodes + [EmptyNode()];
      level := level + [level[n]];
      SetRightBrother(c, nodes[n].rightBrother);
      assert nodes == s0 + [EmptyNode<T>().(rightBrother := s0[n].rightBrother)];
      ghost var s1 := nodes;
      match nodes[n].rightBrother {
        case Null =>
        case At(b) => SetLeftBrother(b, nodes[n].leftBrother);
      }
      ghost var s2 := nodes;
      SetRightBrother(n, At(c));
      ghost var s3 := nodes;
      SetLeftBrother(c, At(n));
      assert nodes == s3[c := s3[c].(leftBrother := At(n))];
      LinkedWellFormed(old(nodes), old(level), height, n);
    }

    /** `Split`: divide n between itself and a fresh node c (`Divide`); then, when n is the root,
        put a new root above both, and otherwise insert the middle key and c into the parent and
        split the parent in turn once it holds 2t keys. An exception ends the split where it
        arises. */
    method Split(n: nat) returns (r: Outcome<()>)
      requires Valid() && n < |nodes| && |nodes[n].keys| == 2 * branchingRatio as int
      requires ReachesParent(n) ==> AncestorsInternal(nodes, level, height, n)
      modifies this`nodes, this`root, this`level, this`height
      decreases height - level[n], 1
      ensures Valid() && !r.Hang?
      ensures |old(nodes)| < |nodes| && old(level) <= level
      ensures forall j :: 0 <= j < |old(nodes)| && old(nodes[j].parent) != Null ==> nodes[j].parent == old(nodes[j].parent)
      ensures !old(ReachesParent(n)) ==>
                && nodes[n].rightBrother == At(|old(nodes)|)
                && nodes[|old(nodes)|].leftBrother == At(n)
                && nodes[|old(nodes)|].rightBrother == old(nodes[n].rightBrother)
      ensures old(ReachesParent(n)) ==> nodes[|old(nodes)|].parent == old(nodes[n].parent)
      ensures old(nodes[n].IsLeaf()) && !old(nodes[n].IsRoot()) ==>
                && r == Throw(NotImplementedException) && root == old(root)
                && nodes == Linked(old(nodes), n)[n := Cleared(Linked(old(nodes), n)[n])]
      ensures !old(nodes[n].IsLeaf()) && old(nodes[n].IsRoot()) ==>
                && r == Throw(ArgumentException) && root == old(root)
                && nodes == Linked(old(nodes), n)[n := Cleared(Linked(old(nodes), n)[n])]
      ensures !old(nodes[n].IsLeaf()) ==> |old(nodes[n].childs)| == |old(nodes[n].keys)|
      ensures !old(nodes[n].IsLeaf()) && !old(nodes[n].IsRoot()) && 1 < branchingRatio ==>
                && r == Throw(ArgumentException) && root == old(root)
                && var d := RunEnd(old(nodes[n].keys), 0, 0, branchingRatio as nat);
                   nodes == Linked(old(nodes), n)[n := Cleared(Linked(old(nodes), n)[n]).(keys := old(nodes[n].keys)[..d],
                                                                                        childs := old(nodes[n].childs)[..d])]
      ensures old(nodes[n].IsLeaf()) && old(nodes[n].IsRoot()) ==>
                && r == Return(())
                && |old(nodes[n].pointers)| == |old(nodes[n].keys)| && StrictlySorted(old(nodes[n].keys))
                && RootLeafSplit(old(nodes), nodes, root, n, branchingRatio as nat)
    {
      ghost var x0, level0 := nodes, level;
      var c, middleKey;
      r, c, middleKey := Divide(n);
      if r.Throw? {
        return;
      }
      if nodes[n].IsRoot() {
        if x0[n].IsLeaf() {
          assert x0[n].keys[0] < x0[n].keys[branchingRatio];
        }
        r := GrowRoot(n, c, middleKey);
      } else {
        AncestorsInternalFrame(x0, level0, height, nodes, level, height, n);
        r := AttachToParent(n, c, middleKey);
      }
    }

    /** The parent branch of `Split`: c is adopted by n's parent p (`Adopt`), and p is split in
        turn when it then holds 2t keys. */
    method AttachToParent(n: nat, c: nat, middleKey: i32) returns (r: Outcome<()>)
      requires Valid() && n < |nodes| && c < |nodes| && c != root && level[c] == level[n] && nodes[n].parent.At?
      requires nodes[c].parent == Null && AncestorsInternal(nodes, level, height, n)
      modifies this`nodes, this`root, this`level, this`height
      decreases height - level[n], 0
      ensures Valid() && !r.Hang?
      ensures |old(nodes)| <= |nodes| && old(level) <= level
      ensures forall j :: 0 <= j < |old(nodes)| && old(nodes[j].parent) != Null ==> nodes[j].parent == old(nodes[j].parent)
      ensures nodes[c].parent == old(nodes[n].parent)
      ensures var p := old(nodes[n].parent.index);
                && p < |old(nodes)| && |old(nodes)[p].childs| == |old(nodes)[p].keys|
                && (|old(nodes)| < |nodes| <==> |old(nodes)[p].keys| + 1 == Wrap(2 * branchingRatio as int) as int)
                && (|old(nodes)[p].keys| + 1 != Wrap(2 * branchingRatio as int) as int ==>
                      && r == Return(()) && root == old(root)
                      && nodes == old(nodes)[c := old(nodes)[c].(parent := At(p))][p := WithChild(old(nodes)[p], middleKey, c)])
    {
      ghost var x0 := nodes;
      var p, i := Adopt(n, c, middleKey);
      ghost var x1 := nodes;
      assert |x1| == |x0| && |x1[p].keys| == |x0[p].keys| + 1;
      r := SplitIfFull(p);
      forall j | 0 <= j < |x0| && x0[j].parent != Null
        ensures nodes[j].parent == x0[j].parent
      {
        assert x1[j].parent == x0[j].parent;
      }
    }

    /** The test after the parent insertion: p is split exactly when it holds
        `2 * BranchingRatio` keys, computed in 32 bits. */
    method SplitIfFull(p: nat) returns (r: Outcome<()>)
      requires Valid() && p < |nodes| && AncestorsInternal(nodes, level, height, p)
      modifies this`nodes, this`root, this`level, this`height
      decreases height - level[p], 2
      ensures Valid() && !r.Hang?
      ensures |old(nodes)| <= |nodes| && old(level) <= level
      ensures forall j :: 0 <= j < |old(nodes)| && old(nodes[j].parent) != Null ==> nodes[j].parent == old(nodes[j].parent)
      ensures |old(nodes)| < |nodes| <==> |old(nodes[p].keys)| == Wrap(2 * branchingRatio as int) as int
      ensures |old(nodes[p].keys)| != Wrap(2 * branchingRatio as int) as int ==>
                r == Return(()) && nodes == old(nodes) && root == old(root)
    {
      r := Return(());
      if |nodes[p].keys| == Wrap(2 * branchingRatio as int) as int {
        DoubledRatio(branchingRatio);
        r := Split(p);
      }
    }

    /** The parent insertion of `Split`: c's parent becomes n's parent p, and the middle key and c
        are inserted in order into p, at index i. */
    method Adopt(n: nat, c: nat, middleKey: i32) returns (p: nat, i: nat)
      requires Valid() && n < |nodes| && c < |nodes| && c != root && level[c] == level[n] && nodes[n].parent.At?
      requires nodes[c].parent == Null && AncestorsInternal(nodes, level, height, n)
      modifies this`nodes
      ensures Valid() && At(p) == old(nodes[n].parent) && p < |nodes| && p != c
      ensures level[c] == level[n] < level[p] <= height
      ensures i <= |old(nodes[p].keys)|
      ensures forall j :: i <= j < |old(nodes[p].keys)| ==> middleKey <= old(nodes[p].keys[j])
      ensures 0 < i ==> old(nodes[p].keys[i - 1]) < middleKey
      ensures nodes == old(nodes)[c := old(nodes[c]).(parent := At(p))]
                                 [p := old(nodes[p]).(keys := InsertAt(old(nodes[p].keys), i, middleKey),
                                                      childs := InsertAt(old(nodes[p].childs), i, c))]
      ensures |old(nodes[p].childs)| == |old(nodes[p].keys)|
      ensures nodes == old(nodes)[c := old(nodes[c]).(parent := At(p))][p := WithChild(old(nodes[p]), middleKey, c)]
      ensures AncestorsInternal(nodes, level, height, p)
    {
      ghost var x0 := nodes;
      FitsAt(nodes, level, height, n);
      FitsAt(nodes, level, height, c);
      p := nodes[n].parent.index;
      Replace(nodes, level, height, c, nodes[c].(parent := nodes[n].parent));
      nodes := nodes[c := nodes[c].(parent := nodes[n].parent)];
      ghost var x1 := nodes;
      FitsAt(nodes, level, height, p);
      i := InsertKeyChild(p, middleKey, c);
      InsertAtIn(x1[p].childs, i, c);
      FitsRefilled(x1[p], level[p], level, height, nodes[p].keys, [], nodes[p].childs);
      Replace(x1, level, height, p, nodes[p]);
      AncestorsInternalFrame(x0, level, height, nodes, level, height, p);
      InsertionPointUnique(x0[p].keys, middleKey, i);
      forall j | 0 <= j < |nodes|
        ensures Ordered(nodes[j])
      {
        if j != p {
          assert Ordered(x0[j]);
        }
      }
    }

    /** The root branch of `Split`: a new root holding `int.MinValue` over n and the middle key
        over c, both added with force, becomes the parent of n and c. */
    method GrowRoot(n: nat, c: nat, middleKey: i32) returns (r: Outcome<()>)
      requires Valid() && n < |nodes| && c < |nodes| && n != c && level[n] == level[c]
      modifies this`nodes, this`root, this`level, this`height
      ensures Valid() && !r.Hang?
      ensures root == |old(nodes)| && level == old(level) + [old(level[n]) + 1]
      ensures middleKey != MinValue ==> r == Return(()) && nodes == Grown(old(nodes), n, c, middleKey)
      ensures middleKey == MinValue ==>
                r == Throw(ArgumentException) && nodes == old(nodes) + [Node([MinValue], [], [n], Null, Null, Null)]
    {
      GrownWellFormed(nodes, level, height, n, c, middleKey);
      GrownSorted(nodes, n, c, middleKey);
      ghost var x0 := nodes;
      var top := |nodes|;
      nodes := nodes + [EmptyNode()];
      level := level + [level[n] + 1];
      height := if height < level[n] + 1 then level[n] + 1 else height;
      root := top;
      assert nodes[root] == EmptyNode();
      var first := AddChild(root, MinValue, At(n), true);
      assert first.Return?;
      assert nodes[root] == Node([MinValue], [], [n], Null, Null, Null);
      assert nodes == x0 + [Node([MinValue], [], [n], Null, Null, Null)];
      r := AddChild(root, middleKey, At(c), true);
      if r.Throw? {
        return;
      }
      assert nodes[root] == Node([MinValue, middleKey], [], [n, c], Null, Null, Null);
      assert nodes == x0 + [Node([MinValue, middleKey], [], [n, c], Null, Null, Null)];
      nodes := nodes[n := nodes[n].(parent := At(root))];
      nodes := nodes[c := nodes[c].(parent := At(root))];
      assert nodes == Grown(x0, n, c, middleKey);
    }

    /** `Split` up to the attachment to a parent: link the fresh node c in, copy and clear n,
        give n back its first t entries and c those after the middle one, stopping at the first
        exception, and for a leaf insert the middle key with its pointer into c. */
    method Divide(n: nat) returns (r: Outcome<()>, c: nat, middleKey: i32)
      requires Valid() && n < |nodes| && |nodes[n].keys| == 2 * branchingRatio as int
      modifies this`nodes, this`level
      ensures Valid() && !r.Hang?
      ensures c == |old(nodes)| && |nodes| == c + 1 && level == old(level) + [old(level[n])]
      ensures middleKey == old(nodes[n].keys[branchingRatio])
      ensures forall j :: 0 <= j < |old(nodes)| && j != n ==> nodes[j] == Linked(old(nodes), n)[j]
      ensures nodes[n].parent == old(nodes[n].parent) && nodes[n].leftBrother == old(nodes[n].leftBrother)
      ensures nodes[n].rightBrother == At(c)
      ensures nodes[c].parent == Null && nodes[c].leftBrother == At(n)
      ensures nodes[c].rightBrother == old(nodes[n].rightBrother)
      ensures old(nodes[n].IsLeaf()) && !old(nodes[n].IsRoot()) ==>
                r == Throw(NotImplementedException) && nodes == Linked(old(nodes), n)[n := Cleared(Linked(old(nodes), n)[n])]
      ensures !old(nodes[n].IsLeaf()) && old(nodes[n].IsRoot()) ==>
                r == Throw(ArgumentException) && nodes == Linked(old(nodes), n)[n := Cleared(Linked(old(nodes), n)[n])]
      ensures !old(nodes[n].IsLeaf()) ==> |old(nodes[n].childs)| == |old(nodes[n].keys)|
      ensures !old(nodes[n].IsLeaf()) && !old(nodes[n].IsRoot()) && 1 < branchingRatio ==>
                && r == Throw(ArgumentException) && nodes[c] == Linked(old(nodes), n)[c] && nodes[n].pointers == []
                && var d := RunEnd(old(nodes[n].keys), 0, 0, branchingRatio as nat);
                   nodes == Linked(old(nodes), n)[n := Cleared(Linked(old(nodes), n)[n]).(keys := old(nodes[n].keys)[..d],
                                                                                        childs := old(nodes[n].childs)[..d])]
      ensures old(nodes[n].IsLeaf()) && old(nodes[n].IsRoot()) ==>
                && r == Return(()) && |old(nodes[n].pointers)| == |old(nodes[n].keys)| && StrictlySorted(old(nodes[n].keys))
                && nodes[n].keys == old(nodes[n].keys[..branchingRatio]) && nodes[n].childs == []
                && nodes[n].pointers == old(nodes[n].pointers[..branchingRatio])
                && nodes[c].keys == old(nodes[n].keys[branchingRatio..]) && nodes[c].childs == []
                && nodes[c].pointers == old(nodes[n].pointers[branchingRatio..])
      ensures old(ReachesParent(n)) ==>
                && r == Return(()) && |old(nodes[n].childs)| == |old(nodes[n].keys)|
                && nodes[n].keys == old(nodes[n].keys[..1]) && nodes[n].childs == old(nodes[n].childs[..1])
                && nodes[n].pointers == [] && nodes[c] == Cleared(nodes[c])
    {
      FitsAt(nodes, level, height, n);
      ghost var x0 := nodes;
      assert Ordered(x0[n]);
      var isLeaf := nodes[n].IsLeaf();
      var movedKeys, movedPointers, movedChilds;
      c, middleKey, movedKeys, movedPointers, movedChilds := Prepare(n);
      if isLeaf {
        r := RefillLeafHalves(n, c, movedKeys, movedPointers);
        if x0[n].IsRoot() {
          StrictlySortedSlice(movedKeys, 0, branchingRatio as nat);
          StrictlySortedSlice(movedKeys, branchingRatio as nat, |movedKeys|);
        }
      } else {
        r := RefillInternalHalves(n, c, movedKeys, movedChilds);
      }
      DividedSorted(x0, nodes, n);
    }

    /** The copying steps of `Split`: link the fresh node c in, take the middle key, copy the
        entries of n and clear its lists. */
    method Prepare(n: nat) returns (c: nat, middleKey: i32, movedKeys: seq<i32>, movedPointers: seq<T>, movedChilds: seq<nat>)
      requires Shaped() && n < |nodes| && branchingRatio as int < |nodes[n].keys|
      modifies this`nodes, this`level
      ensures Shaped()
      ensures c == |old(nodes)| && level == old(level) + [old(level[n])]
      ensures nodes == Linked(old(nodes), n)[n := Cleared(Linked(old(nodes), n)[n])]
      ensures middleKey == old(nodes[n].keys[branchingRatio])
      ensures movedKeys == old(nodes[n].keys)
      ensures movedPointers == if old(nodes[n].IsLeaf()) then old(nodes[n].pointers) else []
      ensures movedChilds == if old(nodes[n].IsLeaf()) then [] else old(nodes[n].childs)
    {
      c := LinkCreated(n);
      middleKey := nodes[n].keys[branchingRatio];
      FitsAt(nodes, level, height, n);
      movedKeys, movedPointers, movedChilds := Snapshot(n);
      FitsRefilled(nodes[n], level[n], level, height, [], [], []);
      Replace(nodes, level, height, n, Cleared(nodes[n]));
      nodes := nodes[n := Cleared(nodes[n])];
    }

    /** The two refill loops of a leaf split and the reinsertion of the middle entry: n gets the
        first t entries through AddPointer, c those after the middle one, then the middle key and
        its pointer are inserted in order into c. */
    method RefillLeafHalves(n: nat, c: nat, keys: seq<i32>, pointers: seq<T>) returns (r: Outcome<()>)
      requires Shaped() && n < |nodes| && c < |nodes| && n != c
      requires nodes[n] == Cleared(nodes[n]) && nodes[c] == Cleared(nodes[c])
      requires |keys| == |pointers| == 2 * branchingRatio as int
      modifies this`nodes
      ensures Shaped() && !r.Hang? && OnlyRefilled(old(nodes), nodes, n, c)
      ensures !old(nodes[n].IsLeaf()) ==> r == Throw(NotImplementedException) && nodes == old(nodes)
      ensures old(nodes[n].IsLeaf()) && old(nodes[c].IsLeaf()) && StrictlySorted(keys) ==>
                && r == Return(())
                && nodes == old(nodes)[n := old(nodes[n]).(keys := keys[..branchingRatio], pointers := pointers[..branchingRatio])]
                                      [c := old(nodes[c]).(keys := keys[branchingRatio..], pointers := pointers[branchingRatio..])]
    {
      var t: nat := branchingRatio as nat;
      if StrictlySorted(keys) {
        StrictlySortedSlice(keys, 0, t);
      }
      ghost var x0 := nodes;
      var done: nat;
      r, done := RefillLeaf(n, keys, pointers, 0, t);
      FitsRefilled(x0[n], level[n], level, height, keys[0..done], pointers[0..done], []);
      Replace(x0, level, height, n, nodes[n]);
      RefilledOne(x0, n, c, n, nodes[n]);
      if r.Throw? {
        return;
      }
      ghost var x1 := nodes;
      r := FillCreatedLeaf(c, keys, pointers);
      RefilledTrans(x0, x1, nodes, n, c);
    }

    /** The second refill loop of a leaf split and the reinsertion of the middle key: the fresh
        node c receives the entries after the middle one through AddPointer, then the middle key and
        its pointer in order. */
    method FillCreatedLeaf(c: nat, keys: seq<i32>, pointers: seq<T>) returns (r: Outcome<()>)
      requires Shaped() && c < |nodes| && nodes[c] == Cleared(nodes[c])
      requires |keys| == |pointers| == 2 * branchingRatio as int
      modifies this`nodes
      ensures Shaped() && !r.Hang? && OnlyRefilled(old(nodes), nodes, c, c)
      ensures old(nodes[c].IsLeaf()) && StrictlySorted(keys) ==>
                r == Return(()) && nodes == old(nodes)[c := old(nodes[c]).(keys := keys[branchingRatio..], pointers := pointers[branchingRatio..])]
    {
      var t: nat := branchingRatio as nat;
      if StrictlySorted(keys) {
        StrictlySortedSlice(keys, t + 1, |keys|);
        StrictlySortedSlice(keys, t, |keys|);
      }
      ghost var x1 := nodes;
      var done: nat;
      r, done := RefillLeaf(c, keys, pointers, t + 1, |keys|);
      FitsRefilled(x1[c], level[c], level, height, keys[t + 1..done], pointers[t + 1..done], []);
      Replace(x1, level, height, c, nodes[c]);
      RefilledOne(x1, c, c, c, nodes[c]);
      if r.Throw? {
        return;
      }
      ghost var x2 := nodes;
      var i := ReinsertMiddle(c, keys[t], pointers[t]);
      RefilledTrans(x1, x2, nodes, c, c);
      if x1[c].IsLeaf() && StrictlySorted(keys) {
        assert keys[t..][1..] == keys[t + 1..] && keys[t..][0] == keys[t];
        FrontPosition(keys[t..], i);
        InsertFront(keys, t);
        InsertFront(pointers, t);
        assert keys[t + 1..done] == keys[t + 1..] && pointers[t + 1..done] == pointers[t + 1..];
      }
    }

    /** The reinsertion of the middle key of a leaf split into the fresh node c, in order. */
    method ReinsertMiddle(c: nat, key: i32, data: T) returns (i: nat)
      requires Shaped() && c < |nodes| && |nodes[c].pointers| == |nodes[c].keys| && nodes[c].childs == []
      modifies this`nodes
      ensures Shaped() && OnlyRefilled(old(nodes), nodes, c, c)
      ensures i <= |old(nodes[c].keys)| && (0 < i ==> old(nodes[c].keys[i - 1]) < key)
      ensures nodes == old(nodes)[c := old(nodes[c]).(keys := InsertAt(old(nodes[c].keys), i, key),
                                                    pointers := InsertAt(old(nodes[c].pointers), i, data))]
    {
      ghost var x := nodes;
      i := InsertKeyPointer(c, key, data);
      FitsRefilled(x[c], level[c], level, height, nodes[c].keys, nodes[c].pointers, []);
      Replace(x, level, height, c, nodes[c]);
      RefilledOne(x, c, c, c, nodes[c]);
    }

    /** The two refill loops of an internal split: n gets the first t entries and c those after the
        middle one, both through AddChild without force. */
    method RefillInternalHalves(n: nat, c: nat, keys: seq<i32>, childs: seq<nat>) returns (r: Outcome<()>)
      requires Shaped() && n < |nodes| && c < |nodes| && n != c && level[n] == level[c]
      requires nodes[n] == Cleared(nodes[n]) && nodes[c] == Cleared(nodes[c])
      requires |keys| == |childs| == 2 * branchingRatio as int
      requires forall x :: x in childs ==> x < |nodes| && level[x] < level[n]
      modifies this`nodes
      ensures Shaped() && OnlyRefilled(old(nodes), nodes, n, c)
      ensures !r.Hang? && (r.Throw? ==> r.exception == ArgumentException)
      ensures nodes[n].pointers == [] && nodes[c].pointers == []
      ensures old(nodes[n].IsLeaf()) ==> r == Throw(ArgumentException) && nodes == old(nodes)
      ensures old(nodes[c].IsLeaf()) && 1 < branchingRatio ==> r == Throw(ArgumentException) && nodes[c] == old(nodes[c])
      ensures !old(nodes[n].IsLeaf()) && old(nodes[c].IsLeaf()) && 1 < branchingRatio ==>
                var d := RunEnd(keys, 0, 0, branchingRatio as nat);
                nodes == old(nodes)[n := old(nodes[n]).(keys := keys[..d], childs := childs[..d])]
      ensures StrictlySorted(keys[..branchingRatio]) ==> RunEnd(keys, 0, 0, branchingRatio as nat) == branchingRatio as nat
      ensures !old(nodes[n].IsLeaf()) && branchingRatio == 1 ==>
                r == Return(()) && nodes == old(nodes)[n := old(nodes[n]).(keys := keys[..1], childs := childs[..1])]
    {
      var t: nat := branchingRatio as nat;
      ghost var x0 := nodes;
      if StrictlySorted(keys[..t]) {
        assert keys[0..t] == keys[..t];
        SortedRunEnd(keys, 0, 0, t);
      }
      if t == 1 {
        assert StrictlySorted(keys[0..1]);
      }
      var first: nat, done: nat;
      r, first := RefillInternal(n, keys, childs, 0, t);
      SliceIn(childs, 0, first);
      FitsRefilled(x0[n], level[n], level, height, keys[0..first], [], childs[0..first]);
      Replace(x0, level, height, n, nodes[n]);
      RefilledOne(x0, n, c, n, nodes[n]);
      if r.Throw? {
        return;
      }
      ghost var x1 := nodes;
      r := FillCreatedInternal(c, keys, childs);
      RefilledTrans(x0, x1, nodes, n, c);
      if !x0[n].IsLeaf() && t == 1 {
        assert keys[0..first] == keys[..1] && childs[0..first] == childs[..1];
      }
      assert keys[0..first] == keys[..first] && childs[0..first] == childs[..first];
    }

    /** The second refill loop of an internal split: the fresh node c receives the entries after
        the middle one through AddChild without force. */
    method FillCreatedInternal(c: nat, keys: seq<i32>, childs: seq<nat>) returns (r: Outcome<()>)
      requires Shaped() && c < |nodes| && nodes[c] == Cleared(nodes[c])
      requires |keys| == |childs| == 2 * branchingRatio as int
      requires forall x :: x in childs ==> x < |nodes| && level[x] < level[c]
      modifies this`nodes
      ensures Shaped() && OnlyRefilled(old(nodes), nodes, c, c)
      ensures !r.Hang? && (r.Throw? ==> r.exception == ArgumentException)
      ensures nodes[c].pointers == []
      ensures old(nodes[c].IsLeaf()) && 1 < branchingRatio ==> r == Throw(ArgumentException) && nodes == old(nodes)
      ensures branchingRatio == 1 ==> r == Return(()) && nodes == old(nodes)
    {
      var t: nat := branchingRatio as nat;
      ghost var x1 := nodes;
      var done: nat;
      r, done := RefillInternal(c, keys, childs, t + 1, |keys|);
      SliceIn(childs, t + 1, done);
      FitsRefilled(x1[c], level[c], level, height, keys[t + 1..done], [], childs[t + 1..done]);
      Replace(x1, level, height, c, nodes[c]);
      RefilledOne(x1, c, c, c, nodes[c]);
      if t == 1 || (x1[c].IsLeaf() && 1 < t) {
        assert keys[t + 1..done] == [] && childs[t + 1..done] == [];
        assert nodes[c] == x1[c];
        assert nodes == x1;
      }
    }

    /** One refill loop of `Split` for a leaf: hands the moved entries from .. to-1 to the emptied
        node id through AddPointer and stops at the first exception. done counts the entries added. */
    method RefillLeaf(id: nat, keys: seq<i32>, pointers: seq<T>, from: nat, to: nat)
      returns (r: Outcome<()>, done: nat)
      requires id < |nodes|
      requires nodes[id].keys == [] && nodes[id].pointers == [] && nodes[id].childs == []
      requires from <= to <= |keys| && to <= |pointers|
      modifies this`nodes
      ensures from <= done <= to && !r.Hang? && (r == Return(()) <==> done == to)
      ensures nodes == old(nodes)[id := old(nodes[id]).(keys := keys[from..done], pointers := pointers[from..done])]
      ensures from < to && !old(nodes[id]).IsLeaf() ==> r == Throw(NotImplementedException) && done == from
      ensures old(nodes[id]).IsLeaf() && StrictlySorted(keys[from..to]) ==> r == Return(())
    {
      ghost var x := nodes[id];
      done := from;
      assert x.(keys := keys[from..done], pointers := pointers[from..done]) == x;
      r := Return(());
      while done < to
        invariant from <= done <= to
        invariant nodes == old(nodes)[id := x.(keys := keys[from..done], pointers := pointers[from..done])]
        invariant x.IsLeaf() ==> nodes[id].IsLeaf()
        invariant !x.IsLeaf() ==> done == from
      {
        assert nodes[id].keys == keys[from..done];
        if StrictlySorted(keys[from..to]) {
          SortedFresh(keys, from, done, to);
        }
        var res := AddPointer(id, keys[done], pointers[done]);
        if res.Throw? {
          assert res.exception == NotImplementedException || res.exception == ArgumentException;
          r := res;
          break;
        }
        assert keys[from..done + 1] == keys[from..done] + [keys[done]];
        assert pointers[from..done + 1] == pointers[from..done] + [pointers[done]];
        done := done + 1;
      }
    }

    /** One refill loop of `Split` for an internal node: hands the moved entries from .. to-1 to the
        emptied node id through AddChild without force and stops at the first exception. */
    method RefillInternal(id: nat, keys: seq<i32>, childs: seq<nat>, from: nat, to: nat)
      returns (r: Outcome<()>, done: nat)
      requires id < |nodes|
      requires nodes[id].keys == [] && nodes[id].pointers == [] && nodes[id].childs == []
      requires from <= to <= |keys| && to <= |childs|
      modifies this`nodes
      ensures from <= done <= to && !r.Hang? && (r == Return(()) <==> done == to)
      ensures nodes == old(nodes)[id := old(nodes[id]).(keys := keys[from..done], childs := childs[from..done])]
      ensures from < to && old(nodes[id]).IsLeaf() ==> r == Throw(ArgumentException) && done == from
      ensures r.Throw? ==> r.exception == ArgumentException
      ensures !old(nodes[id]).IsLeaf() ==> done == RunEnd(keys, from, from, to)
    {
      ghost var x := nodes[id];
      done := from;
      assert x.(keys := keys[from..done], childs := childs[from..done]) == x;
      r := Return(());
      while done < to
        invariant from <= done <= to
        invariant nodes == old(nodes)[id := x.(keys := keys[from..done], childs := childs[from..done])]
        invariant !x.IsLeaf() ==> !nodes[id].IsLeaf()
        invariant !x.IsLeaf() ==> RunEnd(keys, from, done, to) == RunEnd(keys, from, from, to)
        invariant x.IsLeaf() ==> done == from
      {
        assert nodes[id].keys == keys[from..done];
        var res := AddChild(id, keys[done], At(childs[done]), false);
        if res.Throw? {
          r := res;
          break;
        }
        assert keys[from..done + 1] == keys[from..done] + [keys[done]];
        assert childs[from..done + 1] == childs[from..done] + [childs[done]];
        done := done + 1;
      }
    }
  }

  /** Key order after `Divide`: every old node other than n is as `Linked` leaves it, and n and
      the fresh node are ordered. */
  lemma DividedSorted<T>(nodes: seq<Node<T>>, nodes': seq<Node<T>>, n: nat)
    requires LeavesSorted(nodes) && n < |nodes| && |nodes'| == |nodes| + 1
    requires forall j :: 0 <= j < |nodes| && j != n ==> nodes'[j] == Linked(nodes, n)[j]
    requires Ordered(nodes'[n]) && Ordered(nodes'[|nodes|])
    ensures LeavesSorted(nodes')
  {
    LinkedSorted(nodes, n);
    forall j | 0 <= j < |nodes'|
      ensures Ordered(nodes'[j])
    {
      if j < |nodes| && j != n {
        assert Ordered(Linked(nodes, n)[j]);
      }
    }
  }
}
