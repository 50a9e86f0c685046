/**
 * The nodes of a conjoined twin tree, held in an arena keyed by node id.
 *
 * Two root nodes (ids 0 and 1) start a row axis and a column axis. Branch nodes hang
 * under a root or another branch of the same axis; a leaf node has one parent branch in
 * each axis and is listed in the children of both. A node id stands for the identity of a
 * Java node object; ids are handed out in increasing order, so every child has a larger id
 * than each of its parents.
 */
module TreeNodes {
  import opened Sequences

  datatype Option<T> = None | Some(value: T)

  /** The exceptions the node operations throw. */
  datatype Error = Unsupported | IndexOutOfBounds

  datatype Result<T> = Ok(value: T) | Err(error: Error)

  type NodeId = nat

  const RootNode1: NodeId := 0
  const RootNode2: NodeId := 1

  /**
   * What equality, predicates and comparators observe of a node: its class and its value
   * (a root is a branch object with a null value).
   */
  datatype Item<V> = RootItem | BranchItem(value: V) | LeafItem(value: V)

  /**
   * One node object. Roots and branches carry the children list, the `updated` flag and
   * the cache of accumulated values keyed by the other-axis branch; a leaf carries its two
   * parents.
   */
  datatype Node<V, A> =
    | Root(visible: bool, children: seq<NodeId>, updated: bool, cache: map<NodeId, A>)
    | Branch(value: V, visible: bool, parent: NodeId, children: seq<NodeId>,
             updated: bool, cache: map<NodeId, A>)
    | Leaf(value: V, visible: bool, parent1: NodeId, parent2: NodeId)

  type Nodes<V, A> = map<NodeId, Node<V, A>>

  /** A root: no value, not visible, no parent, no children. */
  function NewRoot<V, A>(): Node<V, A> {
    Root(false, [], false, map[])
  }

  /** `new BranchNode(value, parent)`: visible, no children, clean, empty cache. */
  function NewBranch<V, A>(value: V, parent: NodeId): Node<V, A> {
    Branch(value, true, parent, [], false, map[])
  }

  /** `new LeafNode(value, parent1, parent2)`: visible. */
  function NewLeaf<V, A>(value: V, parent1: NodeId, parent2: NodeId): Node<V, A> {
    Leaf(value, true, parent1, parent2)
  }

  /** The children list of `x`; a leaf, or an id that is not a node, has none. */
  function Kids<V, A>(nodes: Nodes<V, A>, x: NodeId): seq<NodeId> {
    if x in nodes && !nodes[x].Leaf? then nodes[x].children else []
  }

  predicate IsLeaf<V, A>(nodes: Nodes<V, A>, x: NodeId) {
    x in nodes && nodes[x].Leaf?
  }

  predicate IsBranch<V, A>(nodes: Nodes<V, A>, x: NodeId) {
    x in nodes && nodes[x].Branch?
  }

  predicate IsRoot<V, A>(nodes: Nodes<V, A>, x: NodeId) {
    x in nodes && nodes[x].Root?
  }

  predicate IsVisible<V, A>(nodes: Nodes<V, A>, x: NodeId) {
    x in nodes && nodes[x].visible
  }

  /** The children list is non-empty and starts with a branch. */
  predicate FirstChildIsBranch<V, A>(nodes: Nodes<V, A>, x: NodeId) {
    |Kids(nodes, x)| > 0 && IsBranch(nodes, Kids(nodes, x)[0])
  }

  function ItemOf<V, A>(n: Node<V, A>): Item<V> {
    match n
    case Root(_, _, _, _) => RootItem
    case Branch(v, _, _, _, _, _) => BranchItem(v)
    case Leaf(v, _, _, _) => LeafItem(v)
  }

  function ItemAt<V, A>(nodes: Nodes<V, A>, x: NodeId): Item<V> {
    if x in nodes then ItemOf(nodes[x]) else RootItem
  }

  /** `equals`: two nodes are equal when they have the same class and the same value. */
  predicate Equals<V(==), A>(a: Node<V, A>, b: Node<V, A>) {
    ItemOf(a) == ItemOf(b)
  }

  /** `getBranchValue` of the two-type-parameter variant: null unless the node is a branch. */
  function BranchValue<V, A>(n: Node<V, A>): (r: Option<V>)
    ensures r.Some? <==> n.Branch?
  {
    if n.Branch? then Some(n.value) else None
  }

  /** `getLeafValue` of the two-type-parameter variant: null unless the node is a leaf. */
  function LeafValue<V, A>(n: Node<V, A>): (r: Option<V>)
    ensures r.Some? <==> n.Leaf?
  {
    if n.Leaf? then Some(n.value) else None
  }

  /** Equality is decided by the class and by the two value getters. */
  lemma EqualsByValues<V, A>(a: Node<V, A>, b: Node<V, A>)
    ensures Equals(a, b) <==>
      (a.Leaf? == b.Leaf? && BranchValue(a) == BranchValue(b) && LeafValue(a) == LeafValue(b))
  {
  }

  /**
   * The branches from the top-level branch down to `x` inclusive, following parent links;
   * empty for a root. This is what getParents returns for a child of `x`, and what
   * getParents1 and getParents2 return for a leaf whose parent is `x`.
   */
  function Ancestry<V, A>(nodes: Nodes<V, A>, x: NodeId): seq<NodeId>
    decreases x
  {
    if x in nodes && nodes[x].Branch? && nodes[x].parent < x then
      Ancestry(nodes, nodes[x].parent) + [x]
    else []
  }

  /** The root whose axis `x` belongs to, following parent links. */
  function Axis<V, A>(nodes: Nodes<V, A>, x: NodeId): NodeId
    decreases x
  {
    if x in nodes && nodes[x].Branch? && nodes[x].parent < x then Axis(nodes, nodes[x].parent)
    else x
  }

  /** The parent of leaf `l` other than `from` (reference comparison with parent1). */
  function OtherParent<V, A>(nodes: Nodes<V, A>, from: NodeId, l: NodeId): NodeId
    requires IsLeaf(nodes, l)
  {
    if nodes[l].parent1 == from then nodes[l].parent2 else nodes[l].parent1
  }

  /** `c` may appear in the children list of `x`. */
  predicate ParentLink<V, A>(nodes: Nodes<V, A>, x: NodeId, c: NodeId)
    requires c in nodes
  {
    match nodes[c]
    case Root(_, _, _, _) => false
    case Branch(_, _, p, _, _, _) => p == x
    case Leaf(_, _, p1, p2) => x == p1 || x == p2
  }

  /** All children are leaves or all are not. */
  predicate UniformKids<V, A>(nodes: Nodes<V, A>, cs: seq<NodeId>) {
    forall i :: 0 <= i < |cs| ==> (IsLeaf(nodes, cs[i]) <==> IsLeaf(nodes, cs[0]))
  }

  ghost predicate ChildrenOk<V, A>(nodes: Nodes<V, A>, x: NodeId, cs: seq<NodeId>) {
    && NoDup(cs)
    && (forall c :: c in cs ==> c in nodes && x < c && ParentLink(nodes, x, c))
    && UniformKids(nodes, cs)
  }

  ghost predicate NodeOk<V, A>(nodes: Nodes<V, A>, x: NodeId)
    requires x in nodes
  {
    match nodes[x]
    case Root(_, cs, _, _) => ChildrenOk(nodes, x, cs)
    case Branch(_, _, p, cs, _, _) =>
      && p in nodes && p < x && !nodes[p].Leaf?
      && ChildrenOk(nodes, x, cs)
    case Leaf(_, _, p1, p2) =>
      && IsBranch(nodes, p1) && IsBranch(nodes, p2) && p1 < x && p2 < x
      && Axis(nodes, p1) != Axis(nodes, p2)
      && (x in nodes[p1].children <==> x in nodes[p2].children)
  }

  /**
   * Well-formedness of the arena: the two roots exist and are the only roots, every id is
   * below `next`, a branch's parent is a root or a branch of smaller id, a leaf's parents
   * are two branches of different axes that list it both or neither, and every children
   * list is duplicate-free, of one kind, and holds only nodes that name the list's owner as
   * a parent. Acyclicity follows from child ids exceeding parent ids.
   */
  ghost predicate Wf<V, A>(nodes: Nodes<V, A>, next: NodeId) {
    && IsRoot(nodes, RootNode1) && IsRoot(nodes, RootNode2)
    && (forall x :: x in nodes ==> x < next && (nodes[x].Root? <==> x < 2))
    && (forall x {:trigger NodeOk(nodes, x)} :: x in nodes ==> NodeOk(nodes, x))
  }

  /** The node with its flags, visibility and cache reset: what the structure consists of. */
  function Strip<V, A>(n: Node<V, A>): Node<V, A> {
    match n
    case Root(_, cs, _, _) => Root(false, cs, false, map[])
    case Branch(v, _, p, cs, _, _) => Branch(v, false, p, cs, false, map[])
    case Leaf(v, _, p1, p2) => Leaf(v, false, p1, p2)
  }

  /** The node with its visibility set to `v`. */
  function WithVisible<V, A>(n: Node<V, A>, v: bool): Node<V, A> {
    match n
    case Root(_, cs, u, m) => Root(v, cs, u, m)
    case Branch(x, _, p, cs, u, m) => Branch(x, v, p, cs, u, m)
    case Leaf(x, _, p1, p2) => Leaf(x, v, p1, p2)
  }

  /** The node with its children list replaced by `cs`; a leaf has no such list. */
  function WithChildren<V, A>(n: Node<V, A>, cs: seq<NodeId>): Node<V, A> {
    match n
    case Root(v, _, u, m) => Root(v, cs, u, m)
    case Branch(x, v, p, _, u, m) => Branch(x, v, p, cs, u, m)
    case Leaf(_, _, _, _) => n
  }

  /** The node with its `updated` flag set; a leaf has no such flag. */
  function Flagged<V, A>(n: Node<V, A>): Node<V, A> {
    match n
    case Root(v, cs, _, m) => Root(v, cs, true, m)
    case Branch(x, v, p, cs, _, m) => Branch(x, v, p, cs, true, m)
    case Leaf(_, _, _, _) => n
  }

  /** Same nodes, same values, parents and children lists. */
  ghost predicate SameStructure<V, A>(a: Nodes<V, A>, b: Nodes<V, A>) {
    a.Keys == b.Keys && forall x :: x in a ==> Strip(a[x]) == Strip(b[x])
  }
}
