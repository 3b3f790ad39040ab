/** Openings of Merkle trees: computing a root from a node and its path, and what that proves. */
module MerklePaths {
  import opened Results
  import opened Powers
  import opened MerkleIndexes
  import opened MerkleTrees

  /** The root that a node and its path lead to. */
  function RootFrom<D>(merge: (D, D) -> D, value: nat, node: D, path: seq<D>): D
    decreases |path|
  {
    if path == [] then node
    else
      var (l, r) := Inputs(value, node, path[0]);
      RootFrom(merge, value / 2, merge(l, r), path[1..])
  }

  /** The left and the right input of the merge above a node. */
  function Inputs<D>(value: nat, node: D, sibling: D): (D, D) {
    if value % 2 == 1 then (sibling, node) else (node, sibling)
  }

  /** A path as long as a tree is deep; its depth is stored in a byte. */
  function PathDepth(length: nat): nat {
    length % 256
  }

  method ComputeRoot<D>(merge: (D, D) -> D, path: seq<D>, value: nat, node: D) returns (r: Result<D, MerkleError>)
    requires value < U64
    ensures r == if value < Pow2(PathDepth(|path|)) then Ok(RootFrom(merge, value, node, path))
                 else Err(InvalidIndex(PathDepth(|path|), value))
  {
    var index :- NewIndex(PathDepth(|path|), value);
    var root := node;
    for k := 0 to |path|
      invariant RootFrom(merge, index.value, root, path[k..]) == RootFrom(merge, value, node, path)
    {
      var (left, right) := index.BuildNode(root, path[k]);
      assert path[k..][1..] == path[k + 1..];
      index := index.MoveUp();
      root := merge(left, right);
    }
    r := Ok(root);
  }

  predicate Verifies<D(==)>(merge: (D, D) -> D, path: seq<D>, value: nat, node: D, root: D) {
    value < Pow2(PathDepth(|path|)) && RootFrom(merge, value, node, path) == root
  }

  method Verify<D(==)>(merge: (D, D) -> D, path: seq<D>, value: nat, node: D, root: D) returns (r: bool)
    requires value < U64
    ensures r == Verifies(merge, path, value, node, root)
  {
    var computed := ComputeRoot(merge, path, value, node);
    r := computed.Ok? && computed.value == root;
  }

  // Completeness

  /** Levels above the path do not matter. */
  lemma {:induction false} HighBitsIgnored<D>(merge: (D, D) -> D, depth: nat, value: nat, node: D, path: seq<D>)
    requires |path| <= depth
    ensures RootFrom(merge, Pow2(depth) + value, node, path) == RootFrom(merge, value, node, path)
    decreases |path|
  {
    if path != [] {
      var (l, r) := Inputs(value, node, path[0]);
      HighBitsIgnored(merge, depth - 1, value / 2, merge(l, r), path[1..]);
    }
  }

  predicate MergedAt<D(==)>(merge: (D, D) -> D, nodes: seq<D>, i: nat)
    requires 2 * i + 1 < |nodes|
  {
    nodes[i] == merge(nodes[2 * i], nodes[2 * i + 1])
  }

  /** Every node is the merge of its children. */
  ghost predicate AllMerged<D>(merge: (D, D) -> D, nodes: seq<D>) {
    |nodes| % 2 == 0 && forall i :: 1 <= i < |nodes| / 2 ==> MergedAt(merge, nodes, i)
  }

  lemma TreeMerged<D>(merge: (D, D) -> D, default: D, nodes: seq<D>, leaves: seq<D>)
    requires HoldsTree(merge, default, nodes, leaves)
    ensures AllMerged(merge, nodes)
  {
    forall i | 1 <= i < |leaves|
      ensures MergedAt(merge, nodes, i)
    {
      assert NodeHolds(merge, leaves, nodes, i);
      assert NodeHolds(merge, leaves, nodes, 2 * i) && NodeHolds(merge, leaves, nodes, 2 * i + 1);
    }
  }

  lemma {:induction false} SiblingsLeadToRoot<D>(merge: (D, D) -> D, nodes: seq<D>, i: nat)
    requires AllMerged(merge, nodes) && 1 <= i < |nodes|
    ensures RootFrom(merge, i, nodes[i], SiblingsFrom(nodes, i)) == nodes[1]
  {
    if i > 1 {
      SiblingsLeadToRoot(merge, nodes, i / 2);
      assert MergedAt(merge, nodes, i / 2);
      assert SiblingsFrom(nodes, i)[1..] == SiblingsFrom(nodes, i / 2);
    }
  }

  lemma {:induction false} SiblingCount<D>(nodes: seq<D>, i: NodeIndex)
    requires i.Valid() && i.ToScalarIndex() < |nodes| && |nodes| % 2 == 0
    ensures |SiblingsFrom(nodes, i.ToScalarIndex())| == i.depth
    decreases i.depth
  {
    if i.depth > 0 {
      ScalarMoves(i);
      SiblingCount(nodes, i.MoveUp());
    } else {
      assert i.ToScalarIndex() == 1;
    }
  }

  /** Opening completeness: every node of a tree verifies with its path against the root. */
  lemma OpeningComplete<D>(merge: (D, D) -> D, default: D, leaves: seq<D>, nodes: seq<D>, i: NodeIndex)
    requires HoldsTree(merge, default, nodes, leaves)
    requires i.Valid() && i.ToScalarIndex() < |nodes|
    ensures Verifies(merge, SiblingsFrom(nodes, i.ToScalarIndex()), i.value, nodes[i.ToScalarIndex()], nodes[1])
    ensures |SiblingsFrom(nodes, i.ToScalarIndex())| == i.depth
  {
    TreeMerged(merge, default, nodes, leaves);
    NodeVerifies(merge, nodes, i);
  }

  lemma NodeVerifies<D>(merge: (D, D) -> D, nodes: seq<D>, i: NodeIndex)
    requires AllMerged(merge, nodes)
    requires i.Valid() && i.ToScalarIndex() < |nodes|
    ensures Verifies(merge, SiblingsFrom(nodes, i.ToScalarIndex()), i.value, nodes[i.ToScalarIndex()], nodes[1])
    ensures |SiblingsFrom(nodes, i.ToScalarIndex())| == i.depth
  {
    SiblingsLeadToRoot(merge, nodes, i.ToScalarIndex());
    SiblingCount(nodes, i);
    HighBitsIgnored(merge, i.depth, i.value, nodes[i.ToScalarIndex()], SiblingsFrom(nodes, i.ToScalarIndex()));
  }

  /** Opens a node of a tree and checks the opening, which cannot fail. */
  method OpenAndVerify<D>(tree: MerkleTree<D>, index: NodeIndex) returns (ok: bool)
    requires tree.Valid() && index.Valid() && !index.IsRoot() && Pow2(index.depth) <= |tree.Leaves()|
    ensures ok
  {
    var path := tree.GetPath(index);
    var node := tree.GetNode(index);
    var root := tree.Root();
    OpeningComplete(tree.merge, tree.default, tree.Leaves(), tree.nodes[..], index);
    ok := Verify(tree.merge, path.value, index.value, node.value, root);
  }

  // Binding

  /** Two different pairs that merge to the same value. */
  predicate IsCollision<D(==)>(merge: (D, D) -> D, x: (D, D), y: (D, D)) {
    x != y && merge(x.0, x.1) == merge(y.0, y.1)
  }

  /**
   Opening binding: from two different openings that verify at one index against one root, a
   collision is found by walking up until they agree.
   */
  function FindCollision<D(==)>(merge: (D, D) -> D, value: nat, a: D, pathA: seq<D>, b: D, pathB: seq<D>): (c: ((D, D), (D, D)))
    requires |pathA| == |pathB| && (a != b || pathA != pathB)
    requires RootFrom(merge, value, a, pathA) == RootFrom(merge, value, b, pathB)
    ensures IsCollision(merge, c.0, c.1)
    decreases |pathA|
  {
    var x, y := Inputs(value, a, pathA[0]), Inputs(value, b, pathB[0]);
    var up, vp := merge(x.0, x.1), merge(y.0, y.1);
    assert pathA == [pathA[0]] + pathA[1..] && pathB == [pathB[0]] + pathB[1..];
    if x != y && up == vp then (x, y)
    else FindCollision(merge, value / 2, up, pathA[1..], vp, pathB[1..])
  }

  // Inner nodes

  /** The nodes above a node, with their children. */
  function InnerFrom<D>(merge: (D, D) -> D, value: nat, node: D, path: seq<D>): seq<InnerNodeInfo<D>>
    decreases |path|
  {
    if path == [] then []
    else
      var (l, r) := Inputs(value, node, path[0]);
      [InnerNodeInfo(merge(l, r), l, r)] + InnerFrom(merge, value / 2, merge(l, r), path[1..])
  }

  /** Each node is the merge of its children, and each but the first has the one before as a child. */
  predicate Chained<D(==)>(merge: (D, D) -> D, value: nat, node: D, inner: seq<InnerNodeInfo<D>>)
    decreases |inner|
  {
    inner != [] ==>
      && inner[0].value == merge(inner[0].left, inner[0].right)
      && node == (if value % 2 == 1 then inner[0].right else inner[0].left)
      && Chained(merge, value / 2, inner[0].value, inner[1..])
  }

  /** The inner nodes, one for each level, lead to the computed root. */
  lemma {:induction false} InnerNodesLeadToRoot<D>(merge: (D, D) -> D, value: nat, node: D, path: seq<D>)
    ensures var inner := InnerFrom(merge, value, node, path);
            && |inner| == |path| && Chained(merge, value, node, inner)
            && RootFrom(merge, value, node, path) == if inner == [] then node else inner[|inner| - 1].value
    decreases |path|
  {
    if path != [] {
      var (l, r) := Inputs(value, node, path[0]);
      InnerNodesLeadToRoot(merge, value / 2, merge(l, r), path[1..]);
    }
  }

  class InnerNodeIterator<D> {
    const merge: (D, D) -> D
    const nodes: seq<D>
    var index: NodeIndex
    var value: D

    ghost predicate Valid()
      reads this
    {
      index.depth <= |nodes|
    }

    /** What is still to be returned. */
    ghost function Remaining(): seq<InnerNodeInfo<D>>
      requires Valid()
      reads this
    {
      InnerFrom(merge, index.value, value, nodes[|nodes| - index.depth..])
    }

    /** All inner nodes are returned exactly if the length of the path fits its depth byte. */
    constructor (merge: (D, D) -> D, path: seq<D>, index: NodeIndex, node: D)
      requires index.depth == PathDepth(|path|)
      ensures Valid() && this.merge == merge && nodes == path
      ensures Remaining() == InnerFrom(merge, index.value, node, path[|path| - PathDepth(|path|)..])
    {
      this.merge, nodes, this.index, value := merge, path, index, node;
    }

    method Next() returns (r: Option<InnerNodeInfo<D>>)
      requires Valid()
      modifies this
      ensures Valid()
      ensures match r
              case Some(info) => old(Remaining()) == [info] + Remaining()
              case None => old(Remaining()) == [] == Remaining()
    {
      if index.IsRoot() {
        return None;
      }
      ghost var rest := nodes[|nodes| - index.depth..];
      var siblingPos := |nodes| - index.depth;
      var (left, right) := if index.IsValueOdd() then (nodes[siblingPos], value) else (value, nodes[siblingPos]);
      value := merge(left, right);
      index := index.MoveUp();
      assert rest[1..] == nodes[|nodes| - index.depth..];
      r := Some(InnerNodeInfo(value, left, right));
    }
  }

  method InnerNodes<D>(merge: (D, D) -> D, path: seq<D>, value: nat, node: D) returns (r: Result<InnerNodeIterator<D>, MerkleError>)
    requires value < U64
    ensures r.Ok? <==> value < Pow2(PathDepth(|path|))
    ensures r.Ok? ==> fresh(r.value) && r.value.Valid() && r.value.merge == merge
    ensures r.Ok? && |path| < 256 ==> r.value.Remaining() == InnerFrom(merge, value, node, path)
    ensures r.Ok? ==> |r.value.Remaining()| == |path| % 256
  {
    var index :- NewIndex(PathDepth(|path|), value);
    var it := new InnerNodeIterator(merge, path, index, node);
    InnerNodesLeadToRoot(merge, value, node, path[|path| - PathDepth(|path|)..]);
    assert |path| < 256 ==> path[|path| - PathDepth(|path|)..] == path;
    r := Ok(it);
  }
}
