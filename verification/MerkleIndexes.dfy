/** Positions in a binary tree: a depth and a value, or one scalar. */
module MerkleIndexes {
  import opened Results
  import opened Powers

  datatype MerkleError =
    | DepthTooSmall(depth: nat)
    | DepthTooBig(depth: nat)
    | NumLeavesNotPowerOfTwo(leaves: nat)
    | InvalidIndex(depth: nat, value: nat)

  const U64: nat := 0x1_0000_0000_0000_0000

  datatype NodeIndex = NodeIndex(depth: nat, value: nat) {
    predicate Valid() {
      depth < 256 && value < U64 && value < Pow2(depth)
    }

    predicate IsRoot() {
      depth == 0
    }

    predicate IsValueOdd() {
      value % 2 == 1
    }

    function Sibling(): NodeIndex {
      this.(value := if IsValueOdd() then value - 1 else value + 1)
    }

    function LeftChild(): NodeIndex {
      NodeIndex(depth + 1, 2 * value)
    }

    function RightChild(): NodeIndex {
      NodeIndex(depth + 1, 2 * value + 1)
    }

    function MoveUp(): NodeIndex {
      NodeIndex(if depth == 0 then 0 else depth - 1, value / 2)
    }

    /** Numbers the nodes of a tree level by level, the root being number one. */
    function ToScalarIndex(): nat {
      Pow2(depth) + value
    }

    function BuildNode<D>(self: D, sibling: D): (D, D) {
      if IsValueOdd() then (sibling, self) else (self, sibling)
    }
  }

  /** An index is valid if its value has no more bits than its depth. */
  function NewIndex(depth: nat, value: nat): (r: Result<NodeIndex, MerkleError>)
    requires depth < 256 && value < U64
    ensures r == if value < Pow2(depth) then Ok(NodeIndex(depth, value)) else Err(InvalidIndex(depth, value))
  {
    BitLengthBounds(value, depth);
    if BitLength(value) > depth then Err(InvalidIndex(depth, value)) else Ok(NodeIndex(depth, value))
  }

  /** Moves in the tree are simple arithmetic on scalar indexes, and valid indexes stay valid. */
  lemma ScalarMoves(i: NodeIndex)
    requires i.Valid() && !i.IsRoot()
    ensures i.MoveUp().Valid() && i.Sibling().Valid()
    ensures i.MoveUp().ToScalarIndex() == i.ToScalarIndex() / 2
    ensures i.Sibling().ToScalarIndex() == SiblingOf(i.ToScalarIndex())
    ensures i.ToScalarIndex() % 2 == i.value % 2
    ensures i.Sibling().Sibling() == i && i.Sibling().MoveUp() == i.MoveUp()
    ensures i == if i.IsValueOdd() then i.MoveUp().RightChild() else i.MoveUp().LeftChild()
  {
    assert Pow2(i.depth) == 2 * Pow2(i.depth - 1);
  }

  function SiblingOf(scalar: nat): nat {
    if scalar % 2 == 1 then scalar - 1 else scalar + 1
  }

  lemma {:induction false} ScalarUnique(i: NodeIndex, j: NodeIndex)
    requires i.Valid() && j.Valid() && i.ToScalarIndex() == j.ToScalarIndex()
    ensures i == j
  {
    if i.depth < j.depth {
      Pow2Monotone(i.depth + 1, j.depth);
    } else if j.depth < i.depth {
      Pow2Monotone(j.depth + 1, i.depth);
    }
  }
}
