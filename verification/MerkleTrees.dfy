/** Merkle trees in one array: node `i` is the parent of nodes `2 * i` and `2 * i + 1`. */
module MerkleTrees {
  import opened Results
  import opened Powers
  import opened MerkleIndexes

  // Reference definitions

  /** The root over a list of leaves: that of its two halves, merged. */
  function RootOf<D>(merge: (D, D) -> D, leaves: seq<D>, depth: nat): D
    requires |leaves| == Pow2(depth)
    decreases depth
  {
    if depth == 0 then leaves[0]
    else
      var half := Pow2(depth - 1);
      merge(RootOf(merge, leaves[..half], depth - 1), RootOf(merge, leaves[half..], depth - 1))
  }

  /** Node number `i` over these leaves. */
  function NodeOf<D>(merge: (D, D) -> D, leaves: seq<D>, i: nat): D
    requires 1 <= i < 2 * |leaves|
    decreases 2 * |leaves| - i
  {
    if i >= |leaves| then leaves[i - |leaves|]
    else merge(NodeOf(merge, leaves, 2 * i), NodeOf(merge, leaves, 2 * i + 1))
  }

  /** The leaves below an index: one half of those below its parent. */
  function Below<D>(leaves: seq<D>, depth: nat, i: NodeIndex): (r: seq<D>)
    requires |leaves| == Pow2(depth) && i.depth <= depth
    ensures |r| == Pow2(depth - i.depth)
    decreases i.depth
  {
    if i.depth == 0 then leaves
    else
      var parent, half := Below(leaves, depth, i.MoveUp()), Pow2(depth - i.depth);
      if i.IsValueOdd() then parent[half..] else parent[..half]
  }

  /** There is a `k`th part of this length. */
  predicate HasPart<D>(s: seq<D>, k: nat, len: nat) {
    k * len <= (k + 1) * len <= |s|
  }

  function Part<D>(s: seq<D>, k: nat, len: nat): seq<D>
    requires HasPart(s, k, len)
  {
    s[k * len..(k + 1) * len]
  }

  /** The leaves below an index are contiguous. */
  lemma {:induction false} BelowIsPart<D>(leaves: seq<D>, depth: nat, i: NodeIndex)
    requires |leaves| == Pow2(depth) && i.depth <= depth && i.value < Pow2(i.depth)
    ensures HasPart(leaves, i.value, Pow2(depth - i.depth))
    ensures Below(leaves, depth, i) == Part(leaves, i.value, Pow2(depth - i.depth))
    decreases i.depth
  {
    if i.depth > 0 {
      var half := Pow2(depth - i.depth);
      BelowIsPart(leaves, depth, i.MoveUp());
      assert Pow2(depth - i.MoveUp().depth) == 2 * half;
      PartHalves(leaves, i.value / 2, half);
      assert i.value == 2 * (i.value / 2) + (if i.IsValueOdd() then 1 else 0);
    }
  }

  lemma PartHalves<D>(s: seq<D>, v: nat, half: nat)
    requires HasPart(s, v, 2 * half)
    ensures HasPart(s, 2 * v, half) && Part(s, v, 2 * half)[..half] == Part(s, 2 * v, half)
    ensures HasPart(s, 2 * v + 1, half) && Part(s, v, 2 * half)[half..] == Part(s, 2 * v + 1, half)
  {
    Halves(v, half);
  }

  /** The node at an index is the root over the leaves below it. */
  lemma {:induction false} NodeIsRootOfLeaves<D>(merge: (D, D) -> D, leaves: seq<D>, depth: nat, i: NodeIndex)
    requires |leaves| == Pow2(depth) && i.depth <= depth && i.value < Pow2(i.depth)
    ensures 1 <= i.ToScalarIndex() < 2 * |leaves|
    ensures NodeOf(merge, leaves, i.ToScalarIndex()) == RootOf(merge, Below(leaves, depth, i), depth - i.depth)
    decreases depth - i.depth
  {
    ScalarFits(depth, i);
    if i.depth < depth {
      var l, r := i.LeftChild(), i.RightChild();
      NodeIsRootOfLeaves(merge, leaves, depth, l);
      NodeIsRootOfLeaves(merge, leaves, depth, r);
      BelowChildren(leaves, depth, i);
    } else {
      BelowLeaf(leaves, depth, i);
    }
  }

  /** The leaves below the children are the halves of those below the node. */
  lemma BelowChildren<D>(leaves: seq<D>, depth: nat, i: NodeIndex)
    requires |leaves| == Pow2(depth) && i.depth < depth
    ensures var l, r, half := i.LeftChild(), i.RightChild(), Pow2(depth - i.depth - 1);
            && Below(leaves, depth, l) == Below(leaves, depth, i)[..half] && Below(leaves, depth, r) == Below(leaves, depth, i)[half..]
            && l.ToScalarIndex() == 2 * i.ToScalarIndex() && r.ToScalarIndex() == 2 * i.ToScalarIndex() + 1
  {
    assert i.LeftChild().MoveUp() == i && i.RightChild().MoveUp() == i;
  }

  lemma BelowLeaf<D>(leaves: seq<D>, depth: nat, i: NodeIndex)
    requires |leaves| == Pow2(depth) && i.depth == depth && i.value < Pow2(depth)
    ensures Below(leaves, depth, i) == [leaves[i.value]]
  {
    BelowIsPart(leaves, depth, i);
    assert Pow2(0) == 1;
  }

  lemma ScalarFits(depth: nat, i: NodeIndex)
    requires i.depth <= depth && i.value < Pow2(i.depth)
    ensures if i.depth < depth then i.ToScalarIndex() < Pow2(depth) else i.ToScalarIndex() < 2 * Pow2(depth)
  {
    if i.depth < depth {
      Pow2Monotone(i.depth + 1, depth);
    }
  }

  lemma Halves(v: nat, half: nat)
    ensures 2 * v * half == v * (2 * half)
    ensures (2 * v + 1) * half == v * (2 * half) + half
    ensures (2 * v + 1 + 1) * half == (v + 1) * (2 * half) == v * (2 * half) + 2 * half
  {
  }

  // Ancestors

  /** Node `i` is node `j` or above it. */
  predicate IsAncestor(i: nat, j: nat) {
    i == j || (0 < i < j && IsAncestor(i, j / 2))
  }

  lemma {:induction false} ParentOfAncestor(i: nat, j: nat)
    requires i > 1 && IsAncestor(i, j)
    ensures IsAncestor(i / 2, j)
  {
    if i < j {
      ParentOfAncestor(i, j / 2);
    } else {
      assert IsAncestor(i / 2, j / 2);
    }
  }

  /** Between a node and its parent there is no other ancestor of what is below the node. */
  lemma {:induction false} NoAncestorBetween(i: nat, p: nat, j: nat)
    requires IsAncestor(p, j) && p / 2 < i < p
    ensures !IsAncestor(i, j)
    decreases j
  {
    if p < j {
      NoAncestorBetween(i, p, j / 2);
    }
  }

  /** A leaf matters only to the nodes above it. */
  lemma {:induction false} OnlyAncestorsChange<D>(merge: (D, D) -> D, leaves: seq<D>, k: nat, value: D, i: nat)
    requires k < |leaves| && 1 <= i < 2 * |leaves|
    requires !IsAncestor(i, |leaves| + k)
    ensures NodeOf(merge, leaves[k := value], i) == NodeOf(merge, leaves, i)
    decreases 2 * |leaves| - i
  {
    if i < |leaves| {
      forall c | c == 2 * i || c == 2 * i + 1
        ensures NodeOf(merge, leaves[k := value], c) == NodeOf(merge, leaves, c)
      {
        if IsAncestor(c, |leaves| + k) {
          ParentOfAncestor(c, |leaves| + k);
        }
        OnlyAncestorsChange(merge, leaves, k, value, c);
      }
    }
  }

  // Openings

  /** The siblings on the way from a node to the root. */
  function SiblingsFrom<D>(nodes: seq<D>, i: nat): (path: seq<D>)
    requires 1 <= i < |nodes| && |nodes| % 2 == 0
  {
    if i == 1 then [] else [nodes[SiblingOf(i)]] + SiblingsFrom(nodes, i / 2)
  }

  datatype InnerNodeInfo<D> = InnerNodeInfo(value: D, left: D, right: D)

  predicate NodeHolds<D(==)>(merge: (D, D) -> D, leaves: seq<D>, nodes: seq<D>, i: nat)
    requires 1 <= i < |nodes| == 2 * |leaves|
  {
    nodes[i] == NodeOf(merge, leaves, i)
  }

  /** The array holds the nodes over some leaves. */
  ghost predicate HoldsTree<D>(merge: (D, D) -> D, default: D, nodes: seq<D>, leaves: seq<D>) {
    && |nodes| == 2 * |leaves|
    && (|nodes| > 0 ==> nodes[0] == default)
    && forall i :: 1 <= i < |nodes| ==> NodeHolds(merge, leaves, nodes, i)
  }

  class MerkleTree<D(==)> {
    const merge: (D, D) -> D
    const default: D
    const nodes: array<D>

    function Leaves(): seq<D>
      reads this, nodes
    {
      nodes[nodes.Length / 2..]
    }

    /** The array is what is built from its leaves, whose number is a power of two. */
    ghost predicate Valid()
      reads this, nodes
    {
      && 4 <= nodes.Length < U64 && nodes.Length == 2 * |Leaves()|
      && IsPowerOfTwo(|Leaves()|)
      && HoldsTree(merge, default, nodes[..], Leaves())
    }

    constructor Internal(merge: (D, D) -> D, default: D, n: nat)
      ensures this.merge == merge && this.default == default
      ensures fresh(nodes) && nodes.Length == 2 * n
    {
      this.merge, this.default := merge, default;
      nodes := new D[2 * n](_ => default);
    }

    /** Builds a tree; the number of leaves must be a power of two and more than one. */
    static method New(merge: (D, D) -> D, default: D, leaves: seq<D>) returns (r: Result<MerkleTree<D>, MerkleError>)
      requires 2 * |leaves| < U64
      ensures r.Ok? <==> |leaves| > 1 && IsPowerOfTwo(|leaves|)
      ensures r.Err? ==> r.error == if |leaves| <= 1 then DepthTooSmall(|leaves|) else NumLeavesNotPowerOfTwo(|leaves|)
      ensures r.Ok? ==> fresh(r.value) && fresh(r.value.nodes) && r.value.merge == merge && r.value.default == default
      ensures r.Ok? ==> r.value.Valid() && r.value.Leaves() == leaves
    {
      var n := |leaves|;
      if n <= 1 {
        return Err(DepthTooSmall(n));
      } else if !IsPowerOfTwo(n) {
        return Err(NumLeavesNotPowerOfTwo(n));
      }
      var tree := new MerkleTree.Internal(merge, default, n);
      tree.Fill(leaves);
      r := Ok(tree);
    }

    method Fill(leaves: seq<D>)
      requires nodes.Length == 2 * |leaves| && |leaves| > 0
      modifies nodes
      ensures HoldsTree(merge, default, nodes[..], leaves) && Leaves() == leaves
    {
      var n := |leaves|;
      nodes[0] := default;
      for i := 0 to n
        invariant nodes[0] == default
        invariant forall j :: 0 <= j < i ==> nodes[n + j] == leaves[j]
      {
        nodes[n + i] := leaves[i];
      }
      assert nodes[n..] == leaves;
      FillInner(leaves);
    }

    /** Calculates all internal nodes, the last first. */
    method FillInner(leaves: seq<D>)
      requires nodes.Length == 2 * |leaves| && |leaves| > 0 && nodes[|leaves|..] == leaves
      modifies nodes
      ensures nodes[0] == old(nodes[0]) && nodes[|leaves|..] == leaves
      ensures forall i :: 1 <= i < nodes.Length ==> NodeHolds(merge, leaves, nodes[..], i)
    {
      var n := |leaves|;
      for i := n downto 1
        invariant nodes[0] == old(nodes[0]) && nodes[n..] == leaves
        invariant forall j :: i <= j < 2 * n ==> NodeHolds(merge, leaves, nodes[..], j)
      {
        assert NodeHolds(merge, leaves, nodes[..], 2 * i) && NodeHolds(merge, leaves, nodes[..], 2 * i + 1);
        ghost var was := nodes[..];
        nodes[i] := merge(nodes[2 * i], nodes[2 * i + 1]);
        forall j | i < j < 2 * n
          ensures NodeHolds(merge, leaves, nodes[..], j)
        {
          assert NodeHolds(merge, leaves, was, j);
        }
      }
    }

    method Root() returns (r: D)
      requires Valid()
      ensures r == nodes[1] && r == RootOf(merge, Leaves(), Log2(|Leaves()|))
    {
      r := nodes[1];
      assert NodeHolds(merge, Leaves(), nodes[..], 1);
      ghost var n := |Leaves()|;
      NodeIsRootOfLeaves(merge, Leaves(), Log2(n), NodeIndex(0, 0));
      assert Below(Leaves(), Log2(n), NodeIndex(0, 0)) == Leaves();
    }

    method Depth() returns (d: nat)
      requires Valid()
      ensures |Leaves()| == Pow2(d) && 1 <= d < 64
    {
      DepthFits(nodes.Length / 2);
      d := Log2(nodes.Length / 2) % 256;
    }

    /** A node other than the root: the root over the leaves below it. */
    method GetNode(index: NodeIndex) returns (r: Result<D, MerkleError>)
      requires Valid() && index.Valid()
      ensures r.Err? <==> index.IsRoot() || Pow2(index.depth) > |Leaves()|
      ensures r.Err? ==> r.error == if index.IsRoot() then DepthTooSmall(0) else DepthTooBig(index.depth)
      ensures r.Ok? ==> index.ToScalarIndex() < nodes.Length && r.value == nodes[index.ToScalarIndex()]
    {
      var depth := Depth();
      InTree(depth, index);
      if index.IsRoot() {
        return Err(DepthTooSmall(index.depth));
      } else if index.depth > depth {
        return Err(DepthTooBig(index.depth));
      }
      r := Ok(nodes[index.ToScalarIndex()]);
    }

    /** The siblings from a node up to the root. */
    method GetPath(start: NodeIndex) returns (r: Result<seq<D>, MerkleError>)
      requires Valid() && start.Valid()
      ensures r.Err? <==> start.IsRoot() || Pow2(start.depth) > |Leaves()|
      ensures r.Err? ==> r.error == if start.IsRoot() then DepthTooSmall(0) else DepthTooBig(start.depth)
      ensures r.Ok? ==> start.ToScalarIndex() < nodes.Length && |r.value| == start.depth
      ensures r.Ok? ==> r.value == SiblingsFrom(nodes[..], start.ToScalarIndex())
    {
      var depth := Depth();
      InTree(depth, start);
      if start.IsRoot() {
        return Err(DepthTooSmall(start.depth));
      } else if start.depth > depth {
        return Err(DepthTooBig(start.depth));
      }
      var path, index := [], start;
      for k := 0 to start.depth
        invariant index.Valid() && index.depth == start.depth - k && |path| == k
        invariant index.ToScalarIndex() < nodes.Length
        invariant path + SiblingsFrom(nodes[..], index.ToScalarIndex()) == SiblingsFrom(nodes[..], start.ToScalarIndex())
      {
        ScalarMoves(index);
        SiblingInTree(index.ToScalarIndex(), nodes.Length);
        Associate(path, [nodes[index.Sibling().ToScalarIndex()]], SiblingsFrom(nodes[..], index.MoveUp().ToScalarIndex()));
        path := path + [nodes[index.Sibling().ToScalarIndex()]];
        index := index.MoveUp();
      }
      r := Ok(path);
    }

    /** Replaces a leaf: the array becomes what is built from the leaves with that one replaced. */
    method UpdateLeaf(indexValue: nat, value: D) returns (r: Result<(), MerkleError>)
      requires Valid() && indexValue < U64
      modifies nodes
      ensures r.Ok? <==> indexValue < |old(Leaves())|
      ensures r.Err? ==> nodes[..] == old(nodes[..])
      ensures r.Err? ==> r.error.InvalidIndex? && r.error.value == indexValue && Pow2(r.error.depth) == |old(Leaves())|
      ensures r.Ok? ==> Valid() && Leaves() == old(Leaves())[indexValue := value]
      ensures r.Ok? ==> UnchangedExceptAbove(old(nodes[..]), nodes[..], nodes.Length / 2 + indexValue)
    {
      var depth := Depth();
      var index :- NewIndex(depth, indexValue);
      assert nodes.Length / 2 == |Leaves()| && index.ToScalarIndex() == |Leaves()| + indexValue;
      ghost var before := Leaves();
      UpdatedLeaf(merge, before, indexValue, value, nodes[..]);
      nodes[index.ToScalarIndex()] := value;
      Propagate(index, before, indexValue, value);
      UpdateComplete(merge, before, indexValue, value, nodes[..], old(nodes[..]));
      r := Ok(());
    }

    /** Recomputes the nodes above a leaf, up to the root. */
    method Propagate(leaf: NodeIndex, ghost before: seq<D>, ghost k: nat, ghost value: D)
      requires leaf.Valid() && k < |before| && nodes.Length == 2 * |before|
      requires leaf.ToScalarIndex() == |before| + k
      requires Updated(merge, before, before[k := value], |before| + k, |before| + k, nodes[..])
      modifies nodes
      ensures Updated(merge, before, before[k := value], |before| + k, 1, nodes[..]) && nodes[0] == old(nodes[0])
    {
      var index := leaf;
      for i := 0 to leaf.depth
        invariant index.Valid() && index.depth == leaf.depth - i
        invariant Updated(merge, before, before[k := value], |before| + k, index.ToScalarIndex(), nodes[..])
        invariant nodes[0] == old(nodes[0])
      {
        ScalarMoves(index);
        UpdateParent(merge, before, k, value, index.ToScalarIndex(), nodes[..]);
        index := index.MoveUp();
        var pos := index.ToScalarIndex();
        ghost var was := nodes[..];
        nodes[pos] := merge(nodes[2 * pos], nodes[2 * pos + 1]);
        assert nodes[..] == was[pos := merge(was[2 * pos], was[2 * pos + 1])];
      }
    }
  }

  lemma DepthFits(n: nat)
    requires 1 < n < U64 && IsPowerOfTwo(n)
    ensures 1 <= Log2(n) < 64
  {
    if Log2(n) >= 64 {
      Pow2Monotone(64, Log2(n));
      Pow2Values();
    }
  }

  lemma InTree(depth: nat, i: NodeIndex)
    requires i.Valid()
    ensures i.depth <= depth <==> Pow2(i.depth) <= Pow2(depth)
    ensures i.depth <= depth ==> 1 <= i.ToScalarIndex() < 2 * Pow2(depth)
  {
    if i.depth <= depth {
      Pow2Monotone(i.depth, depth);
    } else {
      Pow2Monotone(depth, i.depth);
    }
  }

  lemma SiblingInTree(i: nat, n: nat)
    requires 1 < i < n && n % 2 == 0
    ensures 1 < SiblingOf(i) < n
  {
  }

  /** Only nodes above a leaf, and the leaf itself, may have changed. */
  predicate UnchangedExceptAbove<D(==)>(was: seq<D>, nodes: seq<D>, leaf: nat) {
    |nodes| == |was| && forall i :: 0 <= i < |nodes| && !IsAncestor(i, leaf) ==> nodes[i] == was[i]
  }

  predicate UpdatedAt<D(==)>(merge: (D, D) -> D, before: seq<D>, after: seq<D>, p: nat, nodes: seq<D>, i: nat)
    requires 1 <= i < |nodes| == 2 * |before| == 2 * |after|
  {
    nodes[i] == NodeOf(merge, if i >= p then after else before, i)
  }

  /** An update has reached node `p`: from there on nodes are as over the new leaves. */
  ghost predicate Updated<D>(merge: (D, D) -> D, before: seq<D>, after: seq<D>, leaf: nat, p: nat, nodes: seq<D>)
    requires |before| == |after|
  {
    && |nodes| == 2 * |after| && IsAncestor(p, leaf) && 1 <= p < |nodes|
    && forall i :: 1 <= i < |nodes| ==> UpdatedAt(merge, before, after, p, nodes, i)
  }

  lemma {:induction false} UpdatedLeaf<D>(merge: (D, D) -> D, before: seq<D>, k: nat, value: D, nodes: seq<D>)
    requires k < |before| && |nodes| == 2 * |before|
    requires forall i :: 1 <= i < |nodes| ==> NodeHolds(merge, before, nodes, i)
    ensures Updated(merge, before, before[k := value], |before| + k, |before| + k, nodes[|before| + k := value])
  {
    var after, p := before[k := value], |before| + k;
    var next := nodes[p := value];
    forall i | 1 <= i < |nodes|
      ensures UpdatedAt(merge, before, after, p, next, i)
    {
      assert NodeHolds(merge, before, nodes, i);
    }
  }

  /** One level up: the parent is recomputed, and nothing between it and the node depends on the leaf. */
  lemma {:induction false} UpdateParent<D>(merge: (D, D) -> D, before: seq<D>, k: nat, value: D, p: nat, nodes: seq<D>)
    requires k < |before| && p > 1
    requires Updated(merge, before, before[k := value], |before| + k, p, nodes)
    ensures var q := p / 2;
            Updated(merge, before, before[k := value], |before| + k, q, nodes[q := merge(nodes[2 * q], nodes[2 * q + 1])])
  {
    var after, leaf, q := before[k := value], |before| + k, p / 2;
    ParentOfAncestor(p, leaf);
    AncestorSmaller(p, leaf);
    forall i | q < i < p
      ensures NodeOf(merge, after, i) == NodeOf(merge, before, i)
    {
      NoAncestorBetween(i, p, leaf);
      OnlyAncestorsChange(merge, before, k, value, i);
    }
    assert UpdatedAt(merge, before, after, p, nodes, 2 * q) && UpdatedAt(merge, before, after, p, nodes, 2 * q + 1);
    var next := nodes[q := merge(nodes[2 * q], nodes[2 * q + 1])];
    forall i | 1 <= i < |nodes|
      ensures UpdatedAt(merge, before, after, q, next, i)
    {
      assert UpdatedAt(merge, before, after, p, nodes, i);
    }
  }

  lemma {:induction false} AncestorSmaller(i: nat, j: nat)
    requires IsAncestor(i, j)
    ensures i <= j
  {
  }

  lemma {:induction false} UpdateComplete<D>(merge: (D, D) -> D, before: seq<D>, k: nat, value: D, nodes: seq<D>, was: seq<D>)
    requires k < |before| && |was| == 2 * |before|
    requires forall i :: 1 <= i < |was| ==> NodeHolds(merge, before, was, i)
    requires Updated(merge, before, before[k := value], |before| + k, 1, nodes)
    ensures nodes[|before|..] == before[k := value]
    ensures var after := before[k := value]; forall i :: 1 <= i < |nodes| ==> NodeHolds(merge, after, nodes, i)
    ensures nodes[0] == was[0] ==> UnchangedExceptAbove(was, nodes, |before| + k)
  {
    var after := before[k := value];
    forall i | 1 <= i < |nodes|
      ensures NodeHolds(merge, after, nodes, i)
    {
      assert UpdatedAt(merge, before, after, 1, nodes, i);
    }
    forall i | 0 <= i < |before|
      ensures nodes[|before|..][i] == after[i]
    {
      assert NodeHolds(merge, after, nodes, |before| + i);
    }
    forall i | 1 <= i < |nodes| && !IsAncestor(i, |before| + k)
      ensures nodes[i] == was[i]
    {
      assert NodeHolds(merge, after, nodes, i) && NodeHolds(merge, before, was, i);
      OnlyAncestorsChange(merge, before, k, value, i);
    }
  }
}
