# B+ tree (C#) — a Dafny model

This project models the B+ tree of `BplusTree/Tree/BplusTree.cs` and proves what its code does.
That code covers creation with a branching ratio t, insertion with leaf overflow, splitting, and
lookup. The model follows the code as written, defects included. It does not follow the behaviour
a textbook B+ tree would have.

The model is built from these pieces:

- **Nodes** (`nodes.dfy`) are values of the datatype `Node`. A node has keys, data pointers,
  children, a parent link and two sibling links. The nodes live in an arena, `seq<Node<T>>`, so a
  node reference is `Null` or an arena index.
- **Node predicates.** The pure ones are functions: `KeyCount`, `IsRoot`, `IsLeaf` and
  `ContainsKey`. `IsLeaf` is inferred from data, as in the source (line 43): a node is a leaf when
  it has pointers, or when it is a root without children.
- **The tree** (`bplus_tree.dfy`) is the class `BplusTree<T>`. Its fields are the arena, the root
  index and the constant ratio.
- **Node operations.** The source's node methods are class methods that take the node's index and
  update the arena in place. They are `AddChild`, `AddPointer`, `InsertKeyPointer`,
  `InsertKeyChild`, `SetLeftBrother` and `SetRightBrother`.
- **Loops.** The right-shift loop `ShiftInsert`, the copy loop and the refill loops of `Split`, and
  the descent loop of `FindLeaf` are `while`/`for` loops with invariants.
- **Heights (ghost).** The arena carries ghost heights (`level`, `height`). In a well-formed
  arena (`WellFormed`) every child sits strictly lower than its node and every parent strictly
  higher; sibling links are only required to stay inside the arena. This is what makes the descent
  and the upward recursion of `Split` terminate.
- **Key order.** The tree invariant `Valid` adds to the structure (`Shaped`) that every node
  holding data has strictly ascending keys (`LeavesSorted`). Insertion of a new key and every split
  keep it; the keys of internal nodes are not constrained.
- **Keys and counts** are C# `int`: the newtype `i32`.
  - `int.MinValue` is the sentinel separator of a new root.
  - `int.MaxValue` is the placeholder of the shift.
  - `BranchingRatio * 2` is computed with 32-bit wrap-around (`Wrap`).
- **Outcomes.** An exception is an outcome, `Throw(ArgumentException)` or
  `Throw(NotImplementedException)`. The descent loop that makes no progress is the outcome `Hang`.

Consequences of the code that the model proves:

- **Before any split,** the root leaf holds exactly the keys added, and `Contains` finds every
  one. See `InsertIntoRootLeaf` and `Scenarios.FiveKeysFound`.
- **Splitting a root leaf**, whose 2t keys are ascending by the invariant, does the following
  (`RootLeafSplit`):
  - n keeps the first t entries;
  - the fresh node gets the middle key and the rest;
  - a new root holds `int.MinValue` and the middle key.
- **After that split,** every descent takes child 0. This is because the root's first separator is
  `int.MinValue` and the descent takes the first separator not above the key. So keys
  t .. 2t-1 are no longer found (`RightHalfHidden`, `Scenarios.FirstSplit`).
- **Splitting a non-root leaf** clears it. The cleared node no longer counts as a leaf, so its
  first `AddPointer` throws `NotImplementedException`. After that the descent for a key routed to
  it never ends (`Scenarios.SecondSplit`).
- **Splitting an internal root** throws `ArgumentException`: once cleared it looks like an empty
  root leaf.
- **Splitting an internal non-root node with t ≥ 2** throws `ArgumentException` at the fresh
  node's first child, because that node also looks like an empty root leaf. Node n keeps its first
  keys and children up to the first repeated key (`RunEnd`), which for ascending keys is all t of
  them, and the fresh node stays empty. Only with t = 1 does the split reach the parent insertion.
  When it does, the middle child is dropped and the fresh node stays empty (`Divide`). The parent
  is split in turn exactly when it then holds `2 * BranchingRatio` keys (`AttachToParent`).
- **Sibling relinking** sets the old right brother's left link to n's left brother instead of the
  fresh node (`Linked`, `LinkedSkipsCreated`).

## Model

| member | source | states |
|---|---|---|
| Int32.Wrap | BplusTree/Tree/BplusTree.cs:203 | the result is congruent to x modulo 2^32, equals x inside the `int` range, and equals x - 2^32 just above it |
| Int32.DoubledRatio | BplusTree/Tree/BplusTree.cs:203 | for a positive ratio, `BranchingRatio * 2` is 2t below 2^30 and negative from there on, so a key count can never reach it |
| Sequences.InsertionPoint | BplusTree/Tree/BplusTree.cs:89-95 | the index where the shift stops: every entry from it on is at least x, and the entry before it is below x |
| Sequences.InsertionPointUnique | BplusTree/Tree/BplusTree.cs:89-95 | those two properties determine the index, whatever the order of the list |
| Sequences.InsertAtMultiset | BplusTree/Tree/BplusTree.cs:80-96 | an ordered insert adds exactly one occurrence of the value and loses none |
| Sequences.InsertKeepsSorted | BplusTree/Tree/BplusTree.cs:80-96 | inserting at the insertion point keeps ascending keys ascending |
| Sequences.InsertKeepsStrictlySorted | BplusTree/Tree/BplusTree.cs:80-96 | inserting a new key there keeps strictly ascending keys strictly ascending |
| Sequences.InsertionPointExtremes | BplusTree/Tree/BplusTree.cs:89 | a key below every entry goes to the front; a key above every entry goes to the end |
| Sequences.RunEnd | BplusTree/Tree/BplusTree.cs:243-257 | where a refill loop that rejects a key it already added stops: no key before that point repeats an earlier one, and the key there does |
| Sequences.SortedRunEnd | BplusTree/Tree/BplusTree.cs:243-257 | strictly ascending keys never repeat, so such a loop adds all of them |
| Sequences.FrontPosition | BplusTree/Tree/BplusTree.cs:260 | in strictly ascending keys, a position before which every entry of the tail would have to be below the head is position 0 |
| Nodes.Node.KeyCount | BplusTree/Tree/BplusTree.cs:27 | the number of keys |
| Nodes.Node.IsRoot | BplusTree/Tree/BplusTree.cs:41 | a node is a root when its parent link is null |
| Nodes.Node.IsLeaf | BplusTree/Tree/BplusTree.cs:43 | a node is a leaf when it has pointers, or when it is a root without children; `ClearedRole` and `InternalIsAligned` state what this means for cleared and for internal nodes |
| Nodes.Node.ContainsKey | BplusTree/Tree/BplusTree.cs:51-53 | whether key is among the node's keys |
| Nodes.EmptyNode | BplusTree/Tree/BplusTree.cs:45-49 | `new Node()` has no keys, pointers, children or links, so it is a root and a leaf, and aligned |
| Nodes.LeafSorted | BplusTree/Tree/BplusTree.cs:43 | under the invariant, a leaf has one pointer per key and strictly ascending keys; an empty root leaf has neither |
| Nodes.LinkedSorted | BplusTree/Tree/BplusTree.cs:214-241 | relinking and then clearing n keep the key order of every node with data |
| Nodes.GrownSorted | BplusTree/Tree/BplusTree.cs:263-268 | a new root, with one or two children, keeps the key order |
| Nodes.ClearedRole | BplusTree/Tree/BplusTree.cs:239-241 | a node with no pointers and no children is a leaf exactly when it has no parent |
| Nodes.InternalIsAligned | BplusTree/Tree/BplusTree.cs:43 | a non-leaf node with keys has one child per key and no pointers |
| Nodes.Cleared | BplusTree/Tree/BplusTree.cs:239-241 | the three lists are emptied and the parent and sibling links are kept |
| Nodes.Linked | BplusTree/Tree/BplusTree.cs:214-221 | the fresh node is appended; n's right link points to it; its links are n and n's old right brother; that brother's left link becomes n's left brother; no other node changes |
| Nodes.LinkedWellFormed | BplusTree/Tree/BplusTree.cs:214-221 | the relinked arena, with the fresh node at n's height, is well formed |
| Nodes.Grown | BplusTree/Tree/BplusTree.cs:264-268 | a new root with keys `[int.MinValue, middleKey]` and children `[n, c]` is appended; n and c get it as parent; nothing else changes |
| Nodes.GrownWellFormed | BplusTree/Tree/BplusTree.cs:264-268 | the arena stays well formed with the new root one level above n and c, also when only the first child was added |
| Nodes.FirstMatch | BplusTree/Tree/BplusTree.cs:167-171 | the first separator not above key: every separator before it is above key |
| Nodes.SentinelFirstMatch | BplusTree/Tree/BplusTree.cs:265 | a first separator `int.MinValue` is taken by every key |
| Nodes.Descend | BplusTree/Tree/BplusTree.cs:164-175 | the descent either ends at a node that is a leaf, or is Stuck; it can be Stuck only when the node it starts from is not a leaf |
| Nodes.DescendLeaf | BplusTree/Tree/BplusTree.cs:166 | a descent starting at a leaf ends there at once |
| Nodes.DescendThroughSentinel | BplusTree/Tree/BplusTree.cs:167-171 | at an internal node whose first separator is `int.MinValue`, every key continues at child 0 |
| BplusTrees.ShiftInsert | BplusTree/Tree/BplusTree.cs:86-95 | the right-shift loop returns an index i where every old key from i on is at least key and the key before i is below key; the lists are the old ones with key and the value inserted at i (the placeholder never survives) |
| BplusTrees.WithEntry | BplusTree/Tree/BplusTree.cs:80-96 | the leaf has one more key and pointer: the key and data are added, nothing is lost, and the links and children are kept |
| BplusTrees.WithChild | BplusTree/Tree/BplusTree.cs:98-114 | the internal node has one more key and child: the key and child are added, nothing is lost, and the links and pointers are kept |
| BplusTrees.DividedSorted | BplusTree/Tree/BplusTree.cs:213-261 | after the division the key order holds when n and the fresh node are ordered and every other node is as relinking left it |
| BplusTrees.WithEntryOrdered | BplusTree/Tree/BplusTree.cs:80-96 | the ordered insert keeps ascending keys ascending, and keeps them strictly ascending for a new key |
| BplusTrees.BplusTree.constructor | BplusTree/Tree/BplusTree.cs:337-343 | for t > 0 the ratio is t and the arena is one empty root, which is a leaf |
| BplusTrees.BplusTree.Create | BplusTree/Tree/BplusTree.cs:337-343 | throws `ArgumentException` for t ≤ 0; otherwise returns a fresh valid tree with ratio t and an empty root |
| BplusTrees.BplusTree.CreateDefault | BplusTree/Tree/BplusTree.cs:337 | `new BplusTree()` returns a fresh valid tree with the default ratio 3 and an empty root |
| BplusTrees.BplusTree.AddChild | BplusTree/Tree/BplusTree.cs:55-67 | throws `ArgumentException` exactly when the node is a leaf and force is off, or the key is present, or the child is null; the node is then unchanged; otherwise key and child are appended |
| BplusTrees.BplusTree.AddPointer | BplusTree/Tree/BplusTree.cs:69-78 | throws `NotImplementedException` exactly when the node is not a leaf, and `ArgumentException` exactly when the key is present; the node is then unchanged; otherwise key and data are appended |
| BplusTrees.BplusTree.InsertKeyPointer | BplusTree/Tree/BplusTree.cs:80-96 | the returned index holds key and data; before it the entries are unchanged and below key; from it on they are the old ones shifted right, each at least key |
| BplusTrees.BplusTree.InsertKeyChild | BplusTree/Tree/BplusTree.cs:98-114 | the same over keys and children, including for the empty node |
| BplusTrees.BplusTree.SetLeftBrother | BplusTree/Tree/BplusTree.cs:116-118 | only the left link of that node changes |
| BplusTrees.BplusTree.SetRightBrother | BplusTree/Tree/BplusTree.cs:120-122 | only the right link of that node changes |
| BplusTrees.BplusTree.FindLeaf | BplusTree/Tree/BplusTree.cs:164-175 | the loop's result is the descent `Descend` from the root; when it ends, it ends at a leaf |
| BplusTrees.BplusTree.Contains | BplusTree/Tree/BplusTree.cs:304-307 | Hang exactly when the descent is stuck; otherwise whether the leaf reached holds key; for a root leaf, whether the root holds key |
| BplusTrees.BplusTree.InsertKey | BplusTree/Tree/BplusTree.cs:183-207 | the tree stays valid, key order included, and `InsertedAs` holds: Hang with nothing changed when the descent is stuck; false with nothing changed when the leaf holds key; otherwise `EntryAdded`, with the exact new state for every outcome |
| BplusTrees.BplusTree.AddToLeaf | BplusTree/Tree/BplusTree.cs:201-206 | `EntryAdded`: the leaf gains the entry in order and true is returned. The leaf is split exactly when it then holds `BranchingRatio * 2` keys in 32 bits, and the arena grows exactly then. A non-root leaf throws `NotImplementedException` and is left cleared and relinked. A root leaf is divided as `RootLeafSplit` and true is returned |
| BplusTrees.BplusTree.PlaceEntry | BplusTree/Tree/BplusTree.cs:201 | the leaf becomes `WithEntry` of itself, nothing else changes, and for a new key the key order is kept |
| BplusTrees.BplusTree.Add | BplusTree/Tree/BplusTree.cs:286-288 | the outcome of `InsertKey` on the item's key, with the boolean dropped |
| BplusTrees.BplusTree.Snapshot | BplusTree/Tree/BplusTree.cs:228-238 | the copies are the node's keys, plus its pointers for a leaf or its children otherwise |
| BplusTrees.BplusTree.LinkCreated | BplusTree/Tree/BplusTree.cs:214-221 | the arena becomes `Linked` of the old one and stays well formed (`Shaped`); key order after relinking is `LinkedSorted` |
| BplusTrees.BplusTree.Prepare | BplusTree/Tree/BplusTree.cs:214-241 | the arena is relinked and n cleared; the middle key is `Keys[t]`; the copies are n's lists |
| BplusTrees.BplusTree.RefillLeaf | BplusTree/Tree/BplusTree.cs:243-253 | `AddPointer` loop: entries from..done-1 are added and it returns exactly when all are done; a cleared non-root node throws `NotImplementedException` at the first entry; strictly ascending keys into a leaf all go in |
| BplusTrees.BplusTree.RefillInternal | BplusTree/Tree/BplusTree.cs:243-255 | `AddChild` loop: entries from..done-1 are added and it returns exactly when all are done; a node that looks like a leaf throws `ArgumentException` at the first entry; otherwise it stops exactly at the first repeated key (`RunEnd`); only `ArgumentException` can arise |
| BplusTrees.BplusTree.RefillLeafHalves | BplusTree/Tree/BplusTree.cs:243-260 | a cleared non-root n throws with nothing refilled; for a leaf and strictly ascending keys, n gets entries 0..t-1 and c gets t..2t-1, middle key first |
| BplusTrees.BplusTree.FillCreatedLeaf | BplusTree/Tree/BplusTree.cs:251-260 | a leaf c gets entries t+1..2t-1 and then the middle entry in front, which is entries t..2t-1 in order |
| BplusTrees.BplusTree.ReinsertMiddle | BplusTree/Tree/BplusTree.cs:259-261 | the middle key and its pointer are inserted in order into c |
| BplusTrees.BplusTree.RefillInternalHalves | BplusTree/Tree/BplusTree.cs:243-257 | neither node gains pointers; a cleared root throws `ArgumentException` with nothing refilled; for t ≥ 2 the fresh node throws `ArgumentException` and stays empty while n holds its entries up to the first repeated key (`RunEnd`), which is all t when the first t keys ascend strictly; for t = 1, n gets its first key and child and c stays empty |
| BplusTrees.BplusTree.FillCreatedInternal | BplusTree/Tree/BplusTree.cs:250-257 | the fresh node gains no pointers; when t ≥ 2 it rejects its first child and the arena is unchanged; for t = 1 there is nothing to add |
| BplusTrees.BplusTree.Divide | BplusTree/Tree/BplusTree.cs:213-261 | the split up to the attachment, keeping the tree valid. Links: those of `Linked` on every other node, n → c and c → old right brother. The exact state is given for each outcome: a non-root leaf throws `NotImplementedException`; an internal root throws `ArgumentException`; an internal non-root node with t ≥ 2 throws `ArgumentException` with n holding its entries up to the first repeated key (`RunEnd`, all t for strictly ascending keys by `SortedRunEnd`) and c empty; a root leaf is divided into halves; with t = 1, n keeps one entry and c stays empty |
| BplusTrees.BplusTree.GrowRoot | BplusTree/Tree/BplusTree.cs:263-268 | the new root is the appended node. When the middle key is not `int.MinValue`, the arena becomes `Grown`. Otherwise the second `AddChild` throws `ArgumentException` with only the first child added |
| BplusTrees.BplusTree.Adopt | BplusTree/Tree/BplusTree.cs:270-273 | c's parent becomes n's parent p; p becomes `WithChild` of itself (the middle key and c in order, at the returned index); nothing else changes; the tree stays valid and p's ancestors stay internal |
| BplusTrees.BplusTree.AttachToParent | BplusTree/Tree/BplusTree.cs:269-278 | c's parent is n's old parent p; the arena grows exactly when p then holds `2 * BranchingRatio` keys in 32 bits, which is when p is split; otherwise it returns with only c's parent and p (`WithChild`) changed; the tree stays valid; no existing parent link changes; the recursion never hangs |
| BplusTrees.BplusTree.SplitIfFull | BplusTree/Tree/BplusTree.cs:275-277 | the parent is split exactly when it holds `2 * BranchingRatio` keys in 32 bits, and the arena grows exactly then; otherwise nothing changes |
| BplusTrees.BplusTree.Split | BplusTree/Tree/BplusTree.cs:213-280 | the outcome, and the new state: a root leaf is divided as `RootLeafSplit` and returns; a non-root leaf throws `NotImplementedException`; an internal root throws `ArgumentException`; an internal non-root node with t ≥ 2 throws `ArgumentException`, n holding its entries up to the first repeated key; each with the exact arena; the tree stays valid; sibling links and existing parent links as above |
| TreeProperties.InsertIntoRootLeaf | BplusTree/Tree/BplusTree.cs:183-207 | on a root leaf that does not split, the result is true exactly for a new key; the root stays a leaf and afterwards holds exactly the old keys and key |
| TreeProperties.AppendLargest | BplusTree/Tree/BplusTree.cs:89-95 | an entry above every key is appended at the end |
| TreeProperties.DescentAfterRootSplit | BplusTree/Tree/BplusTree.cs:263-268 | after a root-leaf split every descent ends in the left leaf, which holds only the first t keys |
| TreeProperties.RightHalfHidden | BplusTree/Tree/BplusTree.cs:167-171 | after a split of a strictly ascending root leaf, a key of the right half is in the fresh leaf, yet its descent ends in the left leaf, which lacks it |
| TreeProperties.FreshTreeDescent | BplusTree/Tree/BplusTree.cs:166 | in a tree as its constructor leaves it (valid, only an empty root) every descent ends at the root at once |
| TreeProperties.LinkedSkipsCreated | BplusTree/Tree/BplusTree.cs:219 | after relinking, the fresh node's right brother b has as left brother n's old left brother, not the fresh node |
| Scenarios.CreateChecks | BplusTreeTest/BplusTreeTests.cs:10-16 | a tree of strings made with the default ratio is created, with ratio 3; ratio 6 is kept with an empty root |
| Scenarios.CreateRefused | BplusTree/Tree/BplusTree.cs:338-340 | ratios 0 and -1 are refused with `ArgumentException` |
| Scenarios.AddAscending | BplusTreeTest/BplusTreeTests.cs:21-24 | adding 0 .. count-1 below 2t keys leaves the root leaf holding them in order |
| Scenarios.FiveKeysFound | BplusTreeTest/BplusTreeTests.cs:19-28 | with ratio 3, adding 0 to 4 returns and `Contains` finds each of them |
| Scenarios.FirstSplit | BplusTree/Tree/BplusTree.cs:213-268 | with ratio 3, adding 0 to 5 gives root `[int.MinValue, 3]` over leaves `[0, 1, 2]` and `[3, 4, 5]`, and `Contains(3)` is false |
| Scenarios.AddToLeft | BplusTree/Tree/BplusTree.cs:183-207 | after that split, a key above the left leaf's keys is appended to the left leaf and true is returned |
| Scenarios.TwoMoreKeys | BplusTree/Tree/BplusTree.cs:167-171 | 6 and 7 then land in the left leaf, which becomes `[0, 1, 2, 6, 7]` |
| Scenarios.SecondSplit | BplusTree/Tree/BplusTree.cs:239-245 | adding 8 then throws `NotImplementedException`, and `Contains(0)` never returns |

## Left out

- `GetKey` (`GetHashCode`, a call into the runtime): the key is a parameter of `Add` and `Contains`. For `int` items, as in the scenarios, the key is the item itself.
- The enumerator, `Remove`, `Clear`, `CopyTo` and `GetEnumerator`: each only throws `NotImplementedException`.
- `BplusTree/Tree/Tree.cs`: an abstract collection base with auto-properties only. It is not part of this model.
- The `keyNewPosition` scan of `InsertKey` and the commented-out block after it: the result is never used, so the state does not change.
- Object identity and aliasing of nodes: nodes are arena entries addressed by index. The children an internal split drops from n keep `Parent = n`, as `Split`'s parent-link ensures states; no child is ever moved into the fresh node, since for t ≥ 2 its first `AddChild` throws and for t = 1 the second refill loop runs zero times.
- Index exceptions of the .NET lists are not modelled. `InsertKeyPointer` and `InsertKeyChild` require the paired list to be as long as the keys; the descent and the split only call them on such nodes.
- BplusTrees.BplusTree.Split: requires, only for the parent branch (t = 1, internal, non-root), that n's ancestors are internal nodes with one child per key. That is what `InsertKeyChild` needs.
- BplusTrees.BplusTree.AttachToParent: when the parent is split in turn, it states validity, the growth, the new parent of c and the preserved parent links, not the arena after the recursive split.
- BplusTrees.BplusTree.Split: for an internal non-root node with t = 1, the parent branch, it states validity, the growth, c's parent and the preserved parent links; the exact parent state is stated one level down, by `AttachToParent`.
- C# default arguments become explicit: `AddChild`'s `force`, false unless given, is passed at every call, and the constructor's default ratio 3 is `DefaultRatio`, used by `CreateDefault`.
- Global lookup correctness, occupancy bounds after repeated splits, deletion and rebalancing are not stated: the code provides none of them.
