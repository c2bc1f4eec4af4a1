/** The tree's nodes, held in an arena and addressed by index, and the descent that finds a leaf. */
module Nodes {
  import opened Int32
  import opened Sequences

  /** A nullable node reference: `null`, or the index of a node in the arena. */
  datatype NodeRef = Null | At(index: nat)

  /** A node: ascending keys with either data pointers (a leaf) or child indices (an internal
      node) aligned with them, a parent link and the two sibling links. */
  datatype Node<T> = Node(
    keys: seq<i32>,
    pointers: seq<T>,
    childs: seq<nat>,
    parent: NodeRef,
    leftBrother: NodeRef,
    rightBrother: NodeRef)
  {
    function KeyCount(): nat {
      |keys|
    }

    predicate IsRoot() {
      parent == Null
    }

    /** The role is inferred from the data: a node is a leaf when it holds pointers, or when it is
        a root without children. */
    predicate IsLeaf() {
      |pointers| != 0 || (IsRoot() && |childs| == 0)
    }

    predicate ContainsKey(key: i32) {
      key in keys
    }

    /** The paired list is as long as the keys and the other one is empty. */
    predicate Aligned() {
      || (|pointers| == |keys| && childs == [])
      || (|childs| == |keys| && pointers == [])
    }
  }

  /** `new Node()`: no entries and no links, hence a root leaf. */
  function EmptyNode<T>(): (x: Node<T>)
    ensures x.IsRoot() && x.IsLeaf() && x.KeyCount() == 0 && x.Aligned()
    ensures x.leftBrother == Null && x.rightBrother == Null
  {
    Node([], [], [], Null, Null, Null)
  }

  /** A node's role after its lists have been cleared: it is a leaf exactly when it is a root. */
  lemma ClearedRole<T>(x: Node<T>)
    requires x.pointers == [] && x.childs == []
    ensures x.IsLeaf() <==> x.parent == Null
  {
  }

  /** A node with keys that is not a leaf holds no pointers and one child per key. */
  lemma InternalIsAligned<T>(x: Node<T>)
    requires x.Aligned() && !x.IsLeaf() && |x.keys| > 0
    ensures |x.childs| == |x.keys| && x.pointers == []
  {
  }

  ghost predicate RefIn(r: NodeRef, count: nat) {
    r.Null? || r.index < count
  }

  /** Node x, at height lv, fits an arena whose nodes have the heights in level: its links stay
      inside the arena, its children sit lower and its parent higher. */
  ghost predicate Fits<T>(x: Node<T>, lv: nat, level: seq<nat>, height: nat) {
    && lv <= height
    && x.Aligned()
    && (forall c :: c in x.childs ==> c < |level| && level[c] < lv)
    && (x.parent.At? ==> x.parent.index < |level| && lv < level[x.parent.index])
    && RefIn(x.leftBrother, |level|)
    && RefIn(x.rightBrother, |level|)
  }

  /** The structural arena invariant: every node fits. Heights only serve termination; key order
      is the separate `LeavesSorted`, and parent links may be stale. */
  ghost predicate WellFormed<T>(nodes: seq<Node<T>>, level: seq<nat>, height: nat) {
    && |level| == |nodes|
    && forall j {:trigger Fits(nodes[j], level[j], level, height)} :: 0 <= j < |nodes| ==> Fits(nodes[j], level[j], level, height)
  }

  /** A node that holds data pointers has strictly ascending keys. */
  predicate Ordered<T>(x: Node<T>) {
    x.pointers != [] ==> StrictlySorted(x.keys)
  }

  /** Key order in the arena: every node that holds data has strictly ascending keys. Ordered
      inserts of new keys and the splits of such nodes keep it; internal nodes are not
      constrained. */
  ghost predicate LeavesSorted<T>(nodes: seq<Node<T>>) {
    forall j :: 0 <= j < |nodes| ==> Ordered(nodes[j])
  }

  /** In a well-formed arena with key order, a leaf has one pointer per key and strictly
      ascending keys (an empty root leaf has neither). */
  lemma LeafSorted<T>(nodes: seq<Node<T>>, level: seq<nat>, height: nat, leaf: nat)
    requires WellFormed(nodes, level, height) && LeavesSorted(nodes) && leaf < |nodes| && nodes[leaf].IsLeaf()
    ensures |nodes[leaf].pointers| == |nodes[leaf].keys| && StrictlySorted(nodes[leaf].keys)
  {
    FitsAt(nodes, level, height, leaf);
    assert Ordered(nodes[leaf]);
  }

  lemma FitsGrow<T>(x: Node<T>, lv: nat, level: seq<nat>, height: nat, extra: seq<nat>, height': nat)
    requires Fits(x, lv, level, height) && height <= height'
    ensures Fits(x, lv, level + extra, height')
  {
    assert forall c :: c in x.childs ==> (level + extra)[c] == level[c];
  }

  /** In a well-formed arena node j fits. */
  lemma FitsAt<T>(nodes: seq<Node<T>>, level: seq<nat>, height: nat, j: nat)
    requires WellFormed(nodes, level, height) && j < |nodes|
    ensures Fits(nodes[j], level[j], level, height)
  {
  }

  /** Appending a node that fits keeps the arena well formed. */
  lemma Append<T>(nodes: seq<Node<T>>, level: seq<nat>, height: nat, x: Node<T>, lv: nat, height': nat)
    requires WellFormed(nodes, level, height) && height <= height'
    requires Fits(x, lv, level + [lv], height')
    ensures WellFormed(nodes + [x], level + [lv], height')
  {
    forall j | 0 <= j < |nodes| ensures Fits((nodes + [x])[j], (level + [lv])[j], level + [lv], height') {
      FitsGrow(nodes[j], level[j], level, height, [lv], height');
    }
  }

  /** Replacing a node by one that fits keeps the arena well formed. */
  lemma Replace<T>(nodes: seq<Node<T>>, level: seq<nat>, height: nat, id: nat, x: Node<T>)
    requires WellFormed(nodes, level, height) && id < |nodes|
    requires Fits(x, level[id], level, height)
    ensures WellFormed(nodes[id := x], level, height)
  {
  }

  /** A node refilled with aligned entries whose children lie one level down still fits. */
  lemma FitsRefilled<T>(x: Node<T>, lv: nat, level: seq<nat>, height: nat, ks: seq<i32>, ps: seq<T>, cs: seq<nat>)
    requires Fits(x, lv, level, height)
    requires (|ps| == |ks| && cs == []) || (|cs| == |ks| && ps == [])
    requires forall c :: c in cs ==> c < |level| && level[c] < lv
    ensures Fits(x.(keys := ks, pointers := ps, childs := cs), lv, level, height)
  {
  }

  /** The node with its three lists cleared, as `Split` leaves it before refilling. */
  function Cleared<T>(x: Node<T>): (r: Node<T>)
    ensures r.keys == [] && r.pointers == [] && r.childs == []
    ensures r.parent == x.parent && r.leftBrother == x.leftBrother && r.rightBrother == x.rightBrother
  {
    x.(keys := [], pointers := [], childs := [])
  }

  /** The arena after the first steps of `Split`: a fresh empty node c is appended and hooked in to
      the right of n, and the old right brother of n is given n's left brother as its left link
      (rather than c). */
  function Linked<T>(nodes: seq<Node<T>>, n: nat): (r: seq<Node<T>>)
    requires n < |nodes|
    ensures |r| == |nodes| + 1
    ensures r[n] == nodes[n].(rightBrother := At(|nodes|))
    ensures r[|nodes|] == EmptyNode<T>().(leftBrother := At(n), rightBrother := nodes[n].rightBrother)
    ensures forall j :: 0 <= j < |nodes| && j != n ==>
              r[j] == if nodes[n].rightBrother == At(j) then nodes[j].(leftBrother := nodes[n].leftBrother) else nodes[j]
  {
    var c := |nodes|;
    var s1 := nodes + [EmptyNode<T>().(rightBrother := nodes[n].rightBrother)];
    var s2 := match nodes[n].rightBrother
      case Null => s1
      case At(b) => if b < |s1| then s1[b := s1[b].(leftBrother := s1[n].leftBrother)] else s1;
    var s3 := s2[n := s2[n].(rightBrother := At(c))];
    s3[c := s3[c].(leftBrother := At(n))]
  }

  /** Linking in the fresh node at n's height keeps the arena well formed. */
  lemma LinkedWellFormed<T>(nodes: seq<Node<T>>, level: seq<nat>, height: nat, n: nat)
    requires WellFormed(nodes, level, height) && n < |nodes|
    ensures WellFormed(Linked(nodes, n), level + [level[n]], height)
  {
    var r := Linked(nodes, n);
    var level' := level + [level[n]];
    FitsAt(nodes, level, height, n);
    forall j | 0 <= j < |r|
      ensures Fits(r[j], level'[j], level', height)
    {
      if j < |nodes| {
        FitsAt(nodes, level, height, j);
        FitsGrow(nodes[j], level[j], level, height, [level[n]], height);
      }
    }
  }

  /** Relinking changes no keys and no pointers and adds a node without pointers, so key order
      is kept, also once n is cleared. */
  lemma LinkedSorted<T>(nodes: seq<Node<T>>, n: nat)
    requires LeavesSorted(nodes) && n < |nodes|
    ensures LeavesSorted(Linked(nodes, n))
    ensures LeavesSorted(Linked(nodes, n)[n := Cleared(Linked(nodes, n)[n])])
  {
    var r := Linked(nodes, n);
    forall j | 0 <= j < |r|
      ensures Ordered(r[j])
    {
      if j < |nodes| {
        assert Ordered(nodes[j]);
      }
    }
  }

  /** The arena after the root branch of `Split`: a new root |nodes| holding `int.MinValue` over
      n and the middle key over c becomes the parent of both. */
  function Grown<T>(nodes: seq<Node<T>>, n: nat, c: nat, middleKey: i32): (r: seq<Node<T>>)
    requires n < |nodes| && c < |nodes| && n != c
    ensures |r| == |nodes| + 1
    ensures r[|nodes|] == Node([MinValue, middleKey], [], [n, c], Null, Null, Null)
    ensures r[n] == nodes[n].(parent := At(|nodes|)) && r[c] == nodes[c].(parent := At(|nodes|))
    ensures forall j :: 0 <= j < |nodes| && j != n && j != c ==> r[j] == nodes[j]
  {
    (nodes + [Node([MinValue, middleKey], [], [n, c], Null, Null, Null)])
      [n := nodes[n].(parent := At(|nodes|))][c := nodes[c].(parent := At(|nodes|))]
  }

  /** A new root one level above n and c keeps the arena well formed, whether it received both
      children or only n. */
  lemma GrownWellFormed<T>(nodes: seq<Node<T>>, level: seq<nat>, height: nat, n: nat, c: nat, middleKey: i32)
    requires WellFormed(nodes, level, height) && n < |nodes| && c < |nodes| && n != c && level[n] == level[c]
    ensures WellFormed(Grown(nodes, n, c, middleKey), level + [level[n] + 1], if height < level[n] + 1 then level[n] + 1 else height)
    ensures WellFormed(nodes + [Node([MinValue], [], [n], Null, Null, Null)], level + [level[n] + 1],
                       if height < level[n] + 1 then level[n] + 1 else height)
  {
    var h := if height < level[n] + 1 then level[n] + 1 else height;
    var level' := level + [level[n] + 1];
    Append(nodes, level, height, Node([MinValue], [], [n], Null, Null, Null), level[n] + 1, h);
    Append(nodes, level, height, Node([MinValue, middleKey], [], [n, c], Null, Null, Null), level[n] + 1, h);
    var r1 := nodes + [Node([MinValue, middleKey], [], [n, c], Null, Null, Null)];
    FitsAt(nodes, level, height, n);
    FitsAt(nodes, level, height, c);
    FitsGrow(nodes[n], level[n], level, height, [level[n] + 1], h);
    FitsGrow(nodes[c], level[c], level, height, [level[n] + 1], h);
    Replace(r1, level', h, n, nodes[n].(parent := At(|nodes|)));
    Replace(r1[n := nodes[n].(parent := At(|nodes|))], level', h, c, nodes[c].(parent := At(|nodes|)));
  }

  /** A new root has no pointers and n and c only change parents, so key order is kept. */
  lemma GrownSorted<T>(nodes: seq<Node<T>>, n: nat, c: nat, middleKey: i32)
    requires LeavesSorted(nodes) && n < |nodes| && c < |nodes| && n != c
    ensures LeavesSorted(Grown(nodes, n, c, middleKey))
    ensures LeavesSorted(nodes + [Node([MinValue], [], [n], Null, Null, Null)])
  {
    var r := Grown(nodes, n, c, middleKey);
    forall j | 0 <= j < |r|
      ensures Ordered(r[j])
    {
      if j < |nodes| {
        assert Ordered(nodes[j]);
      }
    }
    var r1 := nodes + [Node([MinValue], [], [n], Null, Null, Null)];
    forall j | 0 <= j < |r1|
      ensures Ordered(r1[j])
    {
      if j < |nodes| {
        assert Ordered(nodes[j]);
      }
    }
  }

  /** Two nodes agree on their parent and sibling links. */
  ghost predicate SameLinks<T>(a: Node<T>, b: Node<T>) {
    a.parent == b.parent && a.leftBrother == b.leftBrother && a.rightBrother == b.rightBrother
  }

  /** Only the lists of nodes n and c differ between the two arenas. */
  ghost predicate OnlyRefilled<T>(nodes: seq<Node<T>>, nodes': seq<Node<T>>, n: nat, c: nat) {
    && |nodes'| == |nodes|
    && forall j :: 0 <= j < |nodes| ==> if j == n || j == c then SameLinks(nodes[j], nodes'[j]) else nodes'[j] == nodes[j]
  }

  /** Refilling n or c keeps to the frame of `OnlyRefilled`. */
  lemma RefilledOne<T>(nodes: seq<Node<T>>, n: nat, c: nat, id: nat, y: Node<T>)
    requires id < |nodes| && (id == n || id == c) && SameLinks(nodes[id], y)
    ensures OnlyRefilled(nodes, nodes[id := y], n, c)
  {
  }

  lemma RefilledTrans<T>(a: seq<Node<T>>, b: seq<Node<T>>, d: seq<Node<T>>, n: nat, c: nat)
    requires OnlyRefilled(a, b, n, c) && OnlyRefilled(b, d, n, c)
    ensures OnlyRefilled(a, d, n, c)
  {
  }

  /** Two nodes agree on everything but their sibling links. */
  ghost predicate SameShape<T>(a: Node<T>, b: Node<T>) {
    a.keys == b.keys && a.pointers == b.pointers && a.childs == b.childs && a.parent == b.parent
  }

  /** Every proper ancestor of j, along the parent links, is an internal node whose children are
      aligned with its keys. */
  ghost predicate AncestorsInternal<T>(nodes: seq<Node<T>>, level: seq<nat>, height: nat, j: nat)
    requires WellFormed(nodes, level, height) && j < |nodes|
    decreases height - level[j]
  {
    FitsAt(nodes, level, height, j);
    match nodes[j].parent
    case Null => true
    case At(p) =>
      && nodes[p].pointers == []
      && |nodes[p].childs| == |nodes[p].keys|
      && AncestorsInternal(nodes, level, height, p)
  }

  /** AncestorsInternal depends only on the shape of j's parent link and of the nodes above j. */
  lemma {:induction false} AncestorsInternalFrame<T>(
    nodes: seq<Node<T>>, level: seq<nat>, height: nat,
    nodes': seq<Node<T>>, level': seq<nat>, height': nat, j: nat)
    requires WellFormed(nodes, level, height) && WellFormed(nodes', level', height')
    requires j < |nodes| <= |nodes'| && level == level'[..|level|]
    requires nodes'[j].parent == nodes[j].parent
    requires forall k :: 0 <= k < |nodes| && level[j] < level[k] ==> SameShape(nodes'[k], nodes[k])
    requires AncestorsInternal(nodes, level, height, j)
    ensures AncestorsInternal(nodes', level', height', j)
    decreases height - level[j]
  {
    FitsAt(nodes, level, height, j);
    match nodes[j].parent
    case Null =>
    case At(p) =>
      FitsAt(nodes', level', height', j);
      assert level[j] < level[p] && level'[p] == level[p];
      AncestorsInternalFrame(nodes, level, height, nodes', level', height', p);
  }

  /** Index of the first separator not above key (`key >= Keys[i]`), or |keys| when there is none. */
  function FirstMatch(keys: seq<i32>, key: i32): (i: nat)
    ensures i <= |keys|
    ensures forall j :: 0 <= j < i ==> key < keys[j]
    ensures i < |keys| ==> keys[i] <= key
  {
    if |keys| == 0 then 0
    else if key >= keys[0] then 0
    else 1 + FirstMatch(keys[1..], key)
  }

  /** A first separator equal to `int.MinValue` takes every key. */
  lemma SentinelFirstMatch(keys: seq<i32>, key: i32)
    requires |keys| > 0 && keys[0] == MinValue
    ensures FirstMatch(keys, key) == 0
  {
  }

  datatype Descent = Reached(leaf: nat) | Stuck

  /** Where the descent from cur ends: at the first leaf, following at every internal node the
      child of the first separator not above key, or Stuck when no separator qualifies (the
      source's loop then repeats forever on the same node). */
  ghost function Descend<T>(nodes: seq<Node<T>>, level: seq<nat>, height: nat, cur: nat, key: i32): (d: Descent)
    requires WellFormed(nodes, level, height) && cur < |nodes|
    ensures d.Reached? ==> d.leaf < |nodes| && nodes[d.leaf].IsLeaf()
    ensures d.Stuck? ==> !nodes[cur].IsLeaf()
    decreases level[cur]
  {
    FitsAt(nodes, level, height, cur);
    var x := nodes[cur];
    if x.IsLeaf() then Reached(cur)
    else
      var i := FirstMatch(x.keys, key);
      if i == |x.keys| then Stuck
      else
        assert x.childs[i] in x.childs;
        Descend(nodes, level, height, x.childs[i], key)
  }

  /** A leaf ends the descent at once; in particular an empty root does. */
  lemma DescendLeaf<T>(nodes: seq<Node<T>>, level: seq<nat>, height: nat, cur: nat, key: i32)
    requires WellFormed(nodes, level, height) && cur < |nodes| && nodes[cur].IsLeaf()
    ensures Descend(nodes, level, height, cur, key) == Reached(cur)
  {
    FitsAt(nodes, level, height, cur);
  }

  /** An internal node whose first separator is `int.MinValue` sends every key to its first child. */
  lemma DescendThroughSentinel<T>(nodes: seq<Node<T>>, level: seq<nat>, height: nat, cur: nat, key: i32)
    requires WellFormed(nodes, level, height) && cur < |nodes|
    requires !nodes[cur].IsLeaf() && |nodes[cur].keys| > 0 && nodes[cur].keys[0] == MinValue
    ensures |nodes[cur].childs| > 0 && nodes[cur].childs[0] < |nodes|
    ensures Descend(nodes, level, height, cur, key) == Descend(nodes, level, height, nodes[cur].childs[0], key)
  {
    FitsAt(nodes, level, height, cur);
    assert nodes[cur].childs[0] in nodes[cur].childs;
    SentinelFirstMatch(nodes[cur].keys, key);
  }
}
