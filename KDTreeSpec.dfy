/**
 * Functional specification of the game's 2-d k-d tree (KDTree<T>).
 *
 * The tree's nodes live in an arena: slot i holds the i-th node of the
 * insertion-order thread, and the links Left, Right and Next are slot
 * indices, -1 standing for null. Positions are not stored in the tree:
 * every operation reads them through `pos`, as the source reads
 * `transform.position` live.
 */
module KDTreeSpec {
  import opened Geometry

  /** KDTree<T>.Node. */
  datatype Node<T> = Node(value: T, level: nat, left: int, right: int, next: int)

  /** GetSplitValue: the coordinate compared at a level, x on even levels and z on odd ones. */
  function SplitValue(level: nat, p: Vec3): real {
    if level % 2 == 0 then p.x else p.z
  }

  /** GetDistance: the squared distance on the (x, z) plane. */
  function SqDistance(a: Vec3, b: Vec3): real {
    (a.x - b.x) * (a.x - b.x) + (a.z - b.z) * (a.z - b.z)
  }

  /** The items in insertion order, i.e. along the Next thread. */
  function ItemsOf<T>(nodes: seq<Node<T>>): (s: seq<T>)
    ensures |s| == |nodes| && forall i :: 0 <= i < |nodes| ==> s[i] == nodes[i].value
  {
    seq(|nodes|, i requires 0 <= i < |nodes| => nodes[i].value)
  }

  /** The split value of node i itself. */
  function NodeKey<T>(nodes: seq<Node<T>>, pos: T -> Vec3, i: int): real
    requires 0 <= i < |nodes|
  {
    SplitValue(nodes[i].level, pos(nodes[i].value))
  }

  /** A search for q turns left at node i: its split value is strictly below the node's; ties go right. */
  predicate GoesLeft<T>(nodes: seq<Node<T>>, pos: T -> Vec3, i: int, q: Vec3)
    requires 0 <= i < |nodes|
  {
    SplitValue(nodes[i].level, q) < NodeKey(nodes, pos, i)
  }

  /** The child of node i on q's side. */
  function Toward<T>(nodes: seq<Node<T>>, pos: T -> Vec3, i: int, q: Vec3): int
    requires 0 <= i < |nodes|
  {
    if GoesLeft(nodes, pos, i, q) then nodes[i].left else nodes[i].right
  }

  // ---------------------------------------------------------------- shape

  predicate LinkOk<T>(nodes: seq<Node<T>>, i: int, c: int) {
    c == -1 || i < c < |nodes|
  }

  /** Every link points to a later slot or is null. */
  predicate LinksForward<T>(nodes: seq<Node<T>>) {
    forall i :: 0 <= i < |nodes| ==> LinkOk(nodes, i, nodes[i].left) && LinkOk(nodes, i, nodes[i].right)
  }

  predicate IsChild<T>(nodes: seq<Node<T>>, p: int, c: int) {
    0 <= p < |nodes| && c != -1 && (nodes[p].left == c || nodes[p].right == c)
  }

  /** j lies in the subtree rooted at i (i itself included). */
  predicate Ancestor<T>(nodes: seq<Node<T>>, i: int, j: int)
    decreases |nodes| - i
  {
    0 <= i < |nodes| &&
    (i == j
     || (i < nodes[i].left && Ancestor(nodes, nodes[i].left, j))
     || (i < nodes[i].right && Ancestor(nodes, nodes[i].right, j)))
  }

  predicate DistinctChildren<T>(nodes: seq<Node<T>>) {
    forall i :: 0 <= i < |nodes| && nodes[i].left != -1 ==> nodes[i].left != nodes[i].right
  }

  ghost predicate UniqueParents<T>(nodes: seq<Node<T>>) {
    forall p, q, c :: IsChild(nodes, p, c) && IsChild(nodes, q, c) ==> p == q
  }

  predicate LevelsOk<T>(nodes: seq<Node<T>>, i: int)
    requires 0 <= i < |nodes|
  {
    (0 <= nodes[i].left < |nodes| ==> nodes[nodes[i].left].level == nodes[i].level + 1) &&
    (0 <= nodes[i].right < |nodes| ==> nodes[nodes[i].right].level == nodes[i].level + 1)
  }

  /**
   * The shape every KDTree keeps: a binary tree rooted at slot 0 whose
   * levels count the depth, threaded by Next in slot order.
   */
  ghost predicate WellFormed<T>(nodes: seq<Node<T>>) {
    LinksForward(nodes)
    && DistinctChildren(nodes)
    && UniqueParents(nodes)
    && (forall i :: 0 <= i < |nodes| ==> LevelsOk(nodes, i))
    && (|nodes| > 0 ==> nodes[0].level == 0)
    && (forall i :: 0 <= i < |nodes| ==> nodes[i].next == if i + 1 < |nodes| then i + 1 else -1)
    && (forall j :: 0 <= j < |nodes| ==> Ancestor(nodes, 0, j))
  }

  // ---------------------------------------------------------------- order

  /** Node j respects the split of node i: left subtree strictly below, right subtree at or above. */
  ghost predicate Separated<T>(nodes: seq<Node<T>>, pos: T -> Vec3, i: int, j: int)
    requires 0 <= i < |nodes| && 0 <= j < |nodes|
  {
    var keyJ := SplitValue(nodes[i].level, pos(nodes[j].value));
    (Ancestor(nodes, nodes[i].left, j) ==> keyJ < NodeKey(nodes, pos, i)) &&
    (Ancestor(nodes, nodes[i].right, j) ==> keyJ >= NodeKey(nodes, pos, i))
  }

  /**
   * The k-d ordering under positions `pos`. It holds when no item has moved
   * since it was inserted or the tree was last rebuilt.
   */
  ghost predicate Ordered<T>(nodes: seq<Node<T>>, pos: T -> Vec3) {
    forall i, j :: 0 <= i < |nodes| && 0 <= j < |nodes| ==> Separated(nodes, pos, i, j)
  }

  // ---------------------------------------------------------------- insertion

  /** FindParent's walk from node i: follow q's side until that side is null. */
  function Descend<T>(nodes: seq<Node<T>>, pos: T -> Vec3, i: int, q: Vec3): (p: int)
    requires LinksForward(nodes) && 0 <= i < |nodes|
    ensures 0 <= p < |nodes| && Ancestor(nodes, i, p) && Toward(nodes, pos, p, q) == -1
    decreases |nodes| - i
  {
    var c := Toward(nodes, pos, i, q);
    if c == -1 then i else Descend(nodes, pos, c, q)
  }

  /** FindParent: the node a new item at q hangs from, or -1 for an empty tree. */
  function ParentFor<T>(nodes: seq<Node<T>>, pos: T -> Vec3, q: Vec3): (p: int)
    requires LinksForward(nodes)
    ensures p == -1 <==> |nodes| == 0
    ensures p != -1 ==> 0 <= p < |nodes| && Ancestor(nodes, 0, p) && Toward(nodes, pos, p, q) == -1
  {
    if |nodes| == 0 then -1 else Descend(nodes, pos, 0, q)
  }

  /**
   * AddNode: append x to the thread and hang it below its parent, left iff
   * its split value is strictly below the parent's, one level deeper.
   */
  function Insert<T>(nodes: seq<Node<T>>, x: T, pos: T -> Vec3): (r: seq<Node<T>>)
    requires LinksForward(nodes)
    ensures |r| == |nodes| + 1 && LinksForward(r)
    ensures ItemsOf(r) == ItemsOf(nodes) + [x]
  {
    var n := |nodes|;
    var p := ParentFor(nodes, pos, pos(x));
    var threaded := if n == 0 then nodes else nodes[n - 1 := nodes[n - 1].(next := n)];
    if p == -1 then threaded + [Node(x, 0, -1, -1, -1)]
    else
      var linked :=
        if GoesLeft(nodes, pos, p, pos(x)) then threaded[p := threaded[p].(left := n)]
        else threaded[p := threaded[p].(right := n)];
      linked + [Node(x, nodes[p].level + 1, -1, -1, -1)]
  }

  /** Adding every item of s in order (AddRange, and the re-adding loops of a rebuild). */
  function InsertAll<T>(nodes: seq<Node<T>>, s: seq<T>, pos: T -> Vec3): (r: seq<Node<T>>)
    requires LinksForward(nodes)
    ensures |r| == |nodes| + |s| && LinksForward(r)
    ensures ItemsOf(r) == ItemsOf(nodes) + s
    decreases |s|
  {
    if s == [] then nodes
    else
      assert s == s[..|s| - 1] + [s[|s| - 1]];
      Insert(InsertAll(nodes, s[..|s| - 1], pos), s[|s| - 1], pos)
  }

  /** The tree obtained by adding the items of s, in order, to an empty tree. */
  function Build<T>(s: seq<T>, pos: T -> Vec3): (r: seq<Node<T>>)
    ensures LinksForward(r)
  {
    InsertAll([], s, pos)
  }

  /** The items satisfying keep, in their original order (FindAll; RemoveAll keeps the complement). */
  function Filter<T(==)>(s: seq<T>, keep: T -> bool): (r: seq<T>)
    ensures |r| <= |s|
  {
    if s == [] then []
    else
      assert s == s[..|s| - 1] + [s[|s| - 1]];
      if keep(s[|s| - 1]) then Filter(s[..|s| - 1], keep) + [s[|s| - 1]]
      else Filter(s[..|s| - 1], keep)
  }

  /** The negation of a predicate: what RemoveAll keeps. */
  function Not<T>(pred: T -> bool): T -> bool {
    x => !pred(x)
  }

  /** Enumerable.Count(match). */
  function CountMatching<T>(s: seq<T>, pred: T -> bool): (c: nat)
    ensures c <= |s|
  {
    if s == [] then 0
    else CountMatching(s[..|s| - 1], pred) + (if pred(s[|s| - 1]) then 1 else 0)
  }

  /** The index of the first item satisfying pred, or -1. */
  function FirstMatch<T>(s: seq<T>, pred: T -> bool): (k: int)
    ensures -1 <= k < |s|
    ensures k == -1 <==> forall i :: 0 <= i < |s| ==> !pred(s[i])
    ensures k != -1 ==> pred(s[k]) && forall i :: 0 <= i < k ==> !pred(s[i])
    decreases |s|
  {
    if s == [] then -1
    else if pred(s[0]) then 0
    else
      var k := FirstMatch(s[1..], pred);
      if k == -1 then -1 else k + 1
  }
}
