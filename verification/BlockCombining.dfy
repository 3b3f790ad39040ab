/**
 How the assembler turns a list of blocks into one block: adjacent spans are merged and the rest
 is folded into a balanced tree of JOINs.
 */
module BlockCombining {
  import opened Mast
  import opened Execution
  import opened Powers

  // Merging spans

  function SpanOps(spans: seq<OpSpan>): seq<Operation> {
    if spans == [] then [] else SpanOps(spans[..|spans| - 1]) + spans[|spans| - 1].ops
  }

  function SpanDecorators(spans: seq<OpSpan>): DecoratorList {
    if spans == [] then [] else
      var init := spans[..|spans| - 1];
      SpanDecorators(init) + Shift(spans[|spans| - 1].decorators, |SpanOps(init)|)
  }

  /** One span with the operations of all of them and decorators moved along. */
  function Merged(spans: seq<OpSpan>): OpSpan {
    OpSpan(SpanOps(spans), SpanDecorators(spans))
  }

  /** Everything a list of spans says, decorators in place, in order. */
  function SpanItems(spans: seq<OpSpan>): seq<Item> {
    if spans == [] then [] else
      var last := spans[|spans| - 1];
      SpanItems(spans[..|spans| - 1]) + Interleave(last.ops, 0, last.decorators)
  }

  ghost predicate WellFormedSpans(spans: seq<OpSpan>) {
    forall i :: 0 <= i < |spans| ==> WellFormedSpan(spans[i])
  }

  lemma {:induction false} MergedOrdered(spans: seq<OpSpan>)
    requires WellFormedSpans(spans)
    ensures Ordered(0, |SpanOps(spans)|, SpanDecorators(spans))
    ensures spans != [] ==> SpanOps(spans) != []
  {
    if spans != [] {
      var init, last := spans[..|spans| - 1], spans[|spans| - 1];
      MergedOrdered(init);
      var n := |SpanOps(init)|;
      assert Ordered(n, n + |last.ops|, Shift(last.decorators, n));
    }
  }

  /**
   Merging keeps every decorator at its operation: the straight-line meaning of the merged span
   is that of the spans one after the other.
   */
  lemma {:induction false} MergedItems(spans: seq<OpSpan>)
    requires WellFormedSpans(spans)
    ensures Interleave(SpanOps(spans), 0, SpanDecorators(spans)) == SpanItems(spans)
  {
    if spans != [] {
      var init, last := spans[..|spans| - 1], spans[|spans| - 1];
      MergedItems(init);
      MergedOrdered(init);
      AppendedItems(SpanOps(init), SpanDecorators(init), last);
    }
  }

  lemma AppendedItems(ops: seq<Operation>, decorators: DecoratorList, last: OpSpan)
    requires Ordered(0, |ops|, decorators) && WellFormedSpan(last)
    ensures Interleave(ops + last.ops, 0, decorators + Shift(last.decorators, |ops|)) ==
            Interleave(ops, 0, decorators) + Interleave(last.ops, 0, last.decorators)
  {
    InterleaveAppend(ops, last.ops, 0, decorators, Shift(last.decorators, |ops|));
    ShiftInvariant(last.ops, 0, last.decorators, |ops|);
  }

  /** Executed, a merged span differs from its parts only by what its last part leaves over. */
  lemma {:induction false} MergedLinear(spans: seq<OpSpan>)
    requires spans != []
    requires WellFormedSpans(spans)
    ensures var init, last := spans[..|spans| - 1], spans[|spans| - 1];
            Linear(SpanOps(spans), 0, SpanDecorators(spans)) == SpanItems(init) + Linear(last.ops, 0, last.decorators)
  {
    var init, last := spans[..|spans| - 1], spans[|spans| - 1];
    MergedItems(init);
    MergedOrdered(init);
    AppendedLinear(SpanOps(init), SpanDecorators(init), last);
  }

  lemma AppendedLinear(ops: seq<Operation>, decorators: DecoratorList, last: OpSpan)
    requires Ordered(0, |ops|, decorators) && WellFormedSpan(last)
    ensures Linear(ops + last.ops, 0, decorators + Shift(last.decorators, |ops|)) ==
            Interleave(ops, 0, decorators) + Linear(last.ops, 0, last.decorators)
  {
    LinearAppend(ops, last.ops, 0, decorators, Shift(last.decorators, |ops|));
    ShiftInvariant(last.ops, 0, last.decorators, |ops|);
  }

  /** A merged span loses decorators exactly if its last part does. */
  lemma {:induction false} MergedTidy(spans: seq<OpSpan>)
    requires spans != [] && WellFormedSpans(spans)
    ensures var last := spans[|spans| - 1];
            Tidy(|SpanOps(spans)|, SpanDecorators(spans)) <==> Tidy(|last.ops|, last.decorators)
  {
    var init, last := spans[..|spans| - 1], spans[|spans| - 1];
    MergedOrdered(init);
    AppendedTidy(|SpanOps(init)|, SpanDecorators(init), last);
  }

  lemma AppendedTidy(n: nat, decorators: DecoratorList, last: OpSpan)
    requires Ordered(0, n, decorators) && WellFormedSpan(last)
    ensures Tidy(n + |last.ops|, decorators + Shift(last.decorators, n)) <==> Tidy(|last.ops|, last.decorators)
  {
    var all := decorators + Shift(last.decorators, n);
    if |all| >= 2 {
      var i := |all| - 2;
      if |last.decorators| >= 2 {
        assert all[i] == Shift(last.decorators, n)[|last.decorators| - 2];
      } else {
        assert all[i] == decorators[i];
      }
    }
  }

  lemma {:induction false} MergedSingle(span: OpSpan)
    ensures Merged([span]) == span
  {
    assert [span][..0] == [];
    assert SpanOps([span]) == SpanOps([]) + span.ops == span.ops;
    assert Shift(span.decorators, 0) == span.decorators;
    assert SpanDecorators([span]) == [] + Shift(span.decorators, 0) == span.decorators;
  }

  method CombineSpans(spans: seq<OpSpan>) returns (r: OpSpan)
    requires spans != []
    ensures r == Merged(spans)
  {
    if |spans| == 1 {
      assert spans == [spans[0]];
      MergedSingle(spans[0]);
      return spans[0];
    }
    var ops: seq<Operation>, decorators: DecoratorList := [], [];
    for k := 0 to |spans|
      invariant ops == SpanOps(spans[..k]) && decorators == SpanDecorators(spans[..k])
    {
      var span := spans[k];
      assert spans[..k + 1][..k] == spans[..k];
      for j := 0 to |span.decorators|
        invariant decorators == SpanDecorators(spans[..k]) + Shift(span.decorators, |ops|)[..j]
      {
        decorators := decorators + [(span.decorators[j].0 + |ops|, span.decorators[j].1)];
      }
      ops := ops + span.ops;
    }
    assert spans[..|spans|] == spans;
    r := OpSpan(ops, decorators);
  }

  // Merging the runs of a block list

  /** A maximal stretch of spans, or one block of another kind. */
  datatype Piece = Run(spans: seq<OpSpan>) | Other(block: CodeBlock)

  /** The list cut into pieces. */
  function Pieces(bs: seq<CodeBlock>): seq<Piece> {
    if bs == [] then [] else AddToPieces(Pieces(bs[..|bs| - 1]), bs[|bs| - 1])
  }

  function AddToPieces(ps: seq<Piece>, b: CodeBlock): seq<Piece> {
    if !b.Span? then ps + [Other(b)]
    else if ps != [] && ps[|ps| - 1].Run? then ps[..|ps| - 1] + [Run(ps[|ps| - 1].spans + [b.span])]
    else ps + [Run([b.span])]
  }

  function SpansAsBlocks(spans: seq<OpSpan>): seq<CodeBlock> {
    seq(|spans|, i requires 0 <= i < |spans| => Span(spans[i]))
  }

  function PieceBlocks(p: Piece): seq<CodeBlock> {
    match p
    case Run(spans) => SpansAsBlocks(spans)
    case Other(b) => [b]
  }

  function Glue(ps: seq<Piece>): seq<CodeBlock> {
    if ps == [] then [] else Glue(ps[..|ps| - 1]) + PieceBlocks(ps[|ps| - 1])
  }

  lemma GlueSnoc(ps: seq<Piece>, p: Piece)
    ensures Glue(ps + [p]) == Glue(ps) + PieceBlocks(p)
  {
    assert (ps + [p])[..|ps|] == ps;
  }

  /** Runs are not empty, other pieces are not spans, and no two runs are adjacent. */
  predicate Maximal(ps: seq<Piece>) {
    && (forall i :: 0 <= i < |ps| ==> if ps[i].Run? then ps[i].spans != [] else !ps[i].block.Span?)
    && (forall i :: 0 < i < |ps| ==> !(ps[i - 1].Run? && ps[i].Run?))
  }

  lemma {:induction false} AddToPiecesGlues(ps: seq<Piece>, b: CodeBlock)
    ensures Glue(AddToPieces(ps, b)) == Glue(ps) + [b]
  {
    if b.Span? && ps != [] && ps[|ps| - 1].Run? {
      var start, run := ps[..|ps| - 1], ps[|ps| - 1].spans;
      GlueSnoc(start, Run(run + [b.span]));
      assert SpansAsBlocks(run + [b.span]) == SpansAsBlocks(run) + [b];
    } else {
      var p := if b.Span? then Run([b.span]) else Other(b);
      GlueSnoc(ps, p);
      assert PieceBlocks(p) == [b];
    }
  }

  lemma AddToPiecesMaximal(ps: seq<Piece>, b: CodeBlock)
    requires Maximal(ps)
    ensures Maximal(AddToPieces(ps, b))
  {
  }

  lemma {:induction false} PiecesGlue(bs: seq<CodeBlock>)
    ensures Glue(Pieces(bs)) == bs
  {
    if bs != [] {
      PiecesGlue(bs[..|bs| - 1]);
      PiecesGlueSnoc(bs, Pieces(bs[..|bs| - 1]));
    }
  }

  lemma {:induction false} PiecesGlueSnoc(bs: seq<CodeBlock>, ps: seq<Piece>)
    requires bs != [] && Glue(ps) == bs[..|bs| - 1]
    ensures Glue(AddToPieces(ps, bs[|bs| - 1])) == bs
  {
    AddToPiecesGlues(ps, bs[|bs| - 1]);
  }

  /** The pieces make up the list and their runs cannot be extended. */
  lemma {:induction false} PiecesAreMaximal(bs: seq<CodeBlock>)
    ensures Glue(Pieces(bs)) == bs
    ensures Maximal(Pieces(bs))
  {
    PiecesGlue(bs);
    if bs != [] {
      PiecesAreMaximal(bs[..|bs| - 1]);
      AddToPiecesMaximal(Pieces(bs[..|bs| - 1]), bs[|bs| - 1]);
    }
  }

  function MergePiece(p: Piece): CodeBlock {
    match p
    case Run(spans) => Span(Merged(spans))
    case Other(b) => b
  }

  /** One block for each piece: runs of spans merged, other blocks as they are. */
  function MergePieces(ps: seq<Piece>): seq<CodeBlock> {
    if ps == [] then [] else MergePieces(ps[..|ps| - 1]) + [MergePiece(ps[|ps| - 1])]
  }

  function MergeRuns(bs: seq<CodeBlock>): seq<CodeBlock> {
    MergePieces(Pieces(bs))
  }

  lemma {:induction false} MergePiecesSnoc(ps: seq<Piece>, p: Piece)
    ensures MergePieces(ps + [p]) == MergePieces(ps) + [MergePiece(p)]
  {
    assert (ps + [p])[..|ps|] == ps;
  }

  /** The pieces seen so far: the closed ones and the open run of spans. */
  ghost function WithOpenRun(closed: seq<Piece>, run: seq<OpSpan>): seq<Piece> {
    if run == [] then closed else closed + [Run(run)]
  }

  lemma {:induction false} ExtendOpenRun(closed: seq<Piece>, run: seq<OpSpan>, b: CodeBlock)
    requires closed == [] || closed[|closed| - 1].Other?
    ensures AddToPieces(WithOpenRun(closed, run), b) ==
            if b.Span? then WithOpenRun(closed, run + [b.span]) else WithOpenRun(closed, run) + [Other(b)]
  {
    var ps := WithOpenRun(closed, run);
    if run == [] {
      assert b.Span? ==> run + [b.span] == [b.span];
    } else {
      assert ps[..|ps| - 1] == closed;
    }
  }

  method MergeConsecutiveSpans(blocks: seq<CodeBlock>) returns (merged: seq<CodeBlock>)
    ensures merged == MergeRuns(blocks)
  {
    merged := [];
    var contiguous: seq<OpSpan> := [];
    ghost var closed: seq<Piece> := [];
    for i := 0 to |blocks|
      invariant merged == MergePieces(closed)
      invariant Pieces(blocks[..i]) == WithOpenRun(closed, contiguous)
      invariant closed == [] || closed[|closed| - 1].Other?
    {
      var block := blocks[i];
      assert blocks[..i + 1][..i] == blocks[..i];
      ExtendOpenRun(closed, contiguous, block);
      if block.Span? {
        contiguous := contiguous + [block.span];
      } else {
        if contiguous != [] {
          var span := CombineSpans(contiguous);
          merged := merged + [Span(span)];
          MergePiecesSnoc(closed, Run(contiguous));
        }
        merged := merged + [block];
        MergePiecesSnoc(WithOpenRun(closed, contiguous), Other(block));
        closed, contiguous := WithOpenRun(closed, contiguous) + [Other(block)], [];
      }
    }
    assert blocks[..|blocks|] == blocks;
    if contiguous != [] {
      var span := CombineSpans(contiguous);
      merged := merged + [Span(span)];
      MergePiecesSnoc(closed, Run(contiguous));
    }
  }

  // Meaning of a merged list

  lemma {:induction false} SpansMean<S>(m: Machine<S>, t: Table, fuel: nat, spans: seq<OpSpan>, s: S)
    ensures MeaningSeq(m, t, fuel, SpansAsBlocks(spans), s) == RunItems(m, SpanItems(spans), s)
  {
    if spans != [] {
      var init, last := spans[..|spans| - 1], spans[|spans| - 1];
      SpansMean(m, t, fuel, init, s);
      assert SpansAsBlocks(spans) == SpansAsBlocks(init) + [Span(last)];
      MeaningSeqSnoc(m, t, fuel, SpansAsBlocks(init), Span(last), s);
      RunItemsConcat(m, SpanItems(init), Interleave(last.ops, 0, last.decorators), s);
    }
  }

  /** Spans of the list are well-formed, whatever the other blocks are. */
  ghost predicate SpansWellFormed(bs: seq<CodeBlock>) {
    forall i :: 0 <= i < |bs| && bs[i].Span? ==> WellFormedSpan(bs[i].span)
  }

  ghost predicate WellFormedPiece(p: Piece) {
    if p.Run? then p.spans != [] && WellFormedSpans(p.spans) else !p.block.Span?
  }

  ghost predicate WellFormedPieces(ps: seq<Piece>) {
    forall i :: 0 <= i < |ps| ==> WellFormedPiece(ps[i])
  }

  lemma {:induction false} MergePieceMeans<S>(m: Machine<S>, t: Table, fuel: nat, p: Piece, s: S)
    requires WellFormedPiece(p)
    ensures Meaning(m, t, fuel, MergePiece(p), s) == MeaningSeq(m, t, fuel, PieceBlocks(p), s)
  {
    match p
    case Run(spans) =>
      MergedItems(spans);
      SpansMean(m, t, fuel, spans, s);
    case Other(b) =>
      MeaningSeqSnoc(m, t, fuel, [], b, s);
      assert [] + [b] == [b];
  }

  lemma {:induction false} MergePiecesMean<S>(m: Machine<S>, t: Table, fuel: nat, ps: seq<Piece>, s: S)
    requires WellFormedPieces(ps)
    ensures MeaningSeq(m, t, fuel, MergePieces(ps), s) == MeaningSeq(m, t, fuel, Glue(ps), s)
  {
    if ps != [] {
      var init, p := ps[..|ps| - 1], ps[|ps| - 1];
      MergePiecesMean(m, t, fuel, init, s);
      MeaningSeqConcat(m, t, fuel, Glue(init), PieceBlocks(p), s);
      MeaningSeqSnoc(m, t, fuel, MergePieces(init), MergePiece(p), s);
      var r := MeaningSeq(m, t, fuel, Glue(init), s);
      if r.Done? {
        MergePieceMeans(m, t, fuel, p, r.state);
      }
    }
  }

  lemma AddToPiecesWellFormed(ps: seq<Piece>, b: CodeBlock)
    requires WellFormedPieces(ps)
    requires b.Span? ==> WellFormedSpan(b.span)
    ensures WellFormedPieces(AddToPieces(ps, b))
  {
    if b.Span? && ps != [] && ps[|ps| - 1].Run? {
      assert WellFormedPiece(Run(ps[|ps| - 1].spans + [b.span]));
    }
  }

  lemma {:induction false} PiecesWellFormed(bs: seq<CodeBlock>)
    requires SpansWellFormed(bs)
    ensures WellFormedPieces(Pieces(bs))
  {
    if bs != [] {
      var init, b := bs[..|bs| - 1], bs[|bs| - 1];
      PiecesWellFormed(init);
      AddToPiecesWellFormed(Pieces(init), b);
    }
  }

  /** Merging the runs of a list preserves its meaning. */
  lemma {:induction false} MergeRunsMean<S>(m: Machine<S>, t: Table, fuel: nat, bs: seq<CodeBlock>, s: S)
    requires SpansWellFormed(bs)
    ensures MeaningSeq(m, t, fuel, MergeRuns(bs), s) == MeaningSeq(m, t, fuel, bs, s)
  {
    PiecesWellFormed(bs);
    PiecesGlue(bs);
    MergePiecesMean(m, t, fuel, Pieces(bs), s);
  }

  // The JOIN tree

  /** One level of the tree: neighbours joined in pairs, an odd last block kept. */
  function PairUp(bs: seq<CodeBlock>): (r: seq<CodeBlock>)
    ensures |r| == (|bs| + 1) / 2
  {
    if |bs| < 2 then bs else [Join(bs[0], bs[1])] + PairUp(bs[2..])
  }

  lemma {:induction false} PairUpAt(bs: seq<CodeBlock>, i: nat)
    requires i < |PairUp(bs)|
    ensures 2 * i + 1 < |bs| ==> PairUp(bs)[i] == Join(bs[2 * i], bs[2 * i + 1])
    ensures 2 * i + 1 == |bs| ==> PairUp(bs)[i] == bs[2 * i]
  {
    if |bs| >= 2 && i > 0 {
      PairUpAt(bs[2..], i - 1);
    }
  }

  function JoinTree(bs: seq<CodeBlock>): CodeBlock
    requires bs != []
    decreases |bs|
  {
    if |bs| == 1 then bs[0] else JoinTree(PairUp(bs))
  }

  function Combined(bs: seq<CodeBlock>): CodeBlock
    requires bs != []
  {
    MergeRunsNonEmpty(bs);
    JoinTree(MergeRuns(bs))
  }

  lemma {:induction false} MergeRunsNonEmpty(bs: seq<CodeBlock>)
    ensures bs != [] ==> MergeRuns(bs) != []
  {
    if bs != [] {
      assert Pieces(bs) == AddToPieces(Pieces(bs[..|bs| - 1]), bs[|bs| - 1]);
      assert Pieces(bs) != [];
    }
  }

  lemma {:induction false} PairUpMeans<S>(m: Machine<S>, t: Table, fuel: nat, bs: seq<CodeBlock>, s: S)
    ensures MeaningSeq(m, t, fuel, PairUp(bs), s) == MeaningSeq(m, t, fuel, bs, s)
  {
    if |bs| >= 2 {
      var joined, rest := Join(bs[0], bs[1]), bs[2..];
      assert bs == ([bs[0]] + [bs[1]]) + rest;
      MeaningSeqConcat(m, t, fuel, [bs[0]] + [bs[1]], rest, s);
      MeaningSeqConcat(m, t, fuel, [joined], PairUp(rest), s);
      assert MeaningSeq(m, t, fuel, [joined], s) == MeaningSeq(m, t, fuel, [bs[0]] + [bs[1]], s) by {
        MeaningSeqSingle(m, t, fuel, joined, s);
        MeaningSeqSingle(m, t, fuel, bs[0], s);
        MeaningSeqSnoc(m, t, fuel, [bs[0]], bs[1], s);
      }
      var r := MeaningSeq(m, t, fuel, [joined], s);
      if r.Done? {
        PairUpMeans(m, t, fuel, rest, r.state);
      }
    }
  }

  lemma {:induction false} MeaningSeqSingle<S>(m: Machine<S>, t: Table, fuel: nat, b: CodeBlock, s: S)
    ensures MeaningSeq(m, t, fuel, [b], s) == Meaning(m, t, fuel, b, s)
  {
    MeaningSeqSnoc(m, t, fuel, [], b, s);
    assert [] + [b] == [b];
  }

  /** Running the tree is running its blocks in order. */
  lemma {:induction false} JoinTreeMeans<S>(m: Machine<S>, t: Table, fuel: nat, bs: seq<CodeBlock>, s: S)
    requires bs != []
    ensures Meaning(m, t, fuel, JoinTree(bs), s) == MeaningSeq(m, t, fuel, bs, s)
    decreases |bs|
  {
    if |bs| == 1 {
      assert bs == [bs[0]];
      MeaningSeqSingle(m, t, fuel, bs[0], s);
    } else {
      PairUpMeans(m, t, fuel, bs, s);
      JoinTreeMeans(m, t, fuel, PairUp(bs), s);
    }
  }

  /** Combining a list of blocks preserves its meaning. */
  lemma CombinedMeans<S>(m: Machine<S>, t: Table, fuel: nat, bs: seq<CodeBlock>, s: S)
    requires bs != [] && SpansWellFormed(bs)
    ensures Meaning(m, t, fuel, Combined(bs), s) == MeaningSeq(m, t, fuel, bs, s)
  {
    MergeRunsNonEmpty(bs);
    MergeRunsMean(m, t, fuel, bs, s);
    JoinTreeMeans(m, t, fuel, MergeRuns(bs), s);
  }

  method JoinPairs(blocks: seq<CodeBlock>) returns (level: seq<CodeBlock>)
    ensures level == PairUp(blocks)
  {
    level := [];
    for i := 0 to |blocks| / 2
      invariant level + PairUp(blocks[2 * i..]) == PairUp(blocks)
    {
      assert blocks[2 * i..][2..] == blocks[2 * (i + 1)..];
      level := level + [Join(blocks[2 * i], blocks[2 * i + 1])];
    }
    var rest := blocks[2 * (|blocks| / 2)..];
    level := level + rest;
  }

  method CombineBlocks(blocks: seq<CodeBlock>) returns (r: CodeBlock)
    requires blocks != []
    ensures r == Combined(blocks)
  {
    MergeRunsNonEmpty(blocks);
    var level := MergeConsecutiveSpans(blocks);
    while |level| > 1
      invariant level != []
      invariant JoinTree(level) == Combined(blocks)
      decreases |level|
    {
      level := JoinPairs(level);
    }
    r := level[0];
  }

  // Shape of the tree

  /** The leaves below the JOINs, in order. */
  function Leaves(b: CodeBlock): seq<CodeBlock> {
    match b
    case Join(first, second) => Leaves(first) + Leaves(second)
    case _ => [b]
  }

  function LeavesOf(bs: seq<CodeBlock>): seq<CodeBlock> {
    if bs == [] then [] else Leaves(bs[0]) + LeavesOf(bs[1..])
  }

  function JoinDepth(b: CodeBlock): nat {
    match b
    case Join(first, second) => 1 + Max(JoinDepth(first), JoinDepth(second))
    case _ => 0
  }

  function Max(x: nat, y: nat): nat {
    if x < y then y else x
  }

  function MaxJoinDepth(bs: seq<CodeBlock>): nat {
    if bs == [] then 0 else Max(JoinDepth(bs[0]), MaxJoinDepth(bs[1..]))
  }

  /** The least k with n <= 2^k. */
  function CeilLog2(n: nat): nat {
    if n <= 1 then 0 else 1 + CeilLog2((n + 1) / 2)
  }

  lemma {:induction false} CeilLog2IsLeast(n: nat)
    ensures n <= Pow2(CeilLog2(n))
    ensures n > 1 ==> Pow2(CeilLog2(n) - 1) < n
  {
    if n > 1 {
      CeilLog2IsLeast((n + 1) / 2);
    }
  }

  lemma {:induction false} PairUpShape(bs: seq<CodeBlock>)
    ensures LeavesOf(PairUp(bs)) == LeavesOf(bs)
    ensures MaxJoinDepth(PairUp(bs)) <= MaxJoinDepth(bs) + 1
  {
    if |bs| >= 2 {
      PairUpShape(bs[2..]);
      assert bs[1..][1..] == bs[2..];
      assert PairUp(bs)[1..] == PairUp(bs[2..]);
      assert LeavesOf(bs) == Leaves(bs[0]) + (Leaves(bs[1]) + LeavesOf(bs[2..]));
    }
  }

  /**
   The tree has the leaves of its blocks in order, and nests them in at most ceil(log2) of their
   number JOINs.
   */
  lemma {:induction false} JoinTreeShape(bs: seq<CodeBlock>)
    requires bs != []
    ensures Leaves(JoinTree(bs)) == LeavesOf(bs)
    ensures JoinDepth(JoinTree(bs)) <= MaxJoinDepth(bs) + CeilLog2(|bs|)
    decreases |bs|
  {
    if |bs| == 1 {
      assert bs[1..] == [];
    } else {
      PairUpShape(bs);
      JoinTreeShape(PairUp(bs));
    }
  }

  // Calls made by a combined block

  /** All static call targets are in `roots`, and the block is proper. */
  ghost predicate Safe(b: CodeBlock, roots: set<Digest>) {
    Targets(b) <= roots && ProperBlock(b)
  }

  ghost predicate AllSafe(bs: seq<CodeBlock>, roots: set<Digest>) {
    forall i :: 0 <= i < |bs| ==> Safe(bs[i], roots)
  }

  ghost predicate SafePiece(p: Piece, roots: set<Digest>) {
    match p
    case Run(spans) => spans != [] && WellFormedSpans(spans)
    case Other(b) => Safe(b, roots)
  }

  ghost predicate SafePieces(ps: seq<Piece>, roots: set<Digest>) {
    forall i :: 0 <= i < |ps| ==> SafePiece(ps[i], roots)
  }

  lemma AddToPiecesSafe(ps: seq<Piece>, b: CodeBlock, roots: set<Digest>)
    requires SafePieces(ps, roots) && Safe(b, roots)
    ensures SafePieces(AddToPieces(ps, b), roots)
  {
    if b.Span? && ps != [] && ps[|ps| - 1].Run? {
      assert SafePiece(ps[|ps| - 1], roots);
      assert SafePiece(Run(ps[|ps| - 1].spans + [b.span]), roots);
    }
  }

  lemma {:induction false} PiecesSafe(bs: seq<CodeBlock>, roots: set<Digest>)
    requires AllSafe(bs, roots)
    ensures SafePieces(Pieces(bs), roots)
  {
    if bs != [] {
      PiecesSafe(bs[..|bs| - 1], roots);
      AddToPiecesSafe(Pieces(bs[..|bs| - 1]), bs[|bs| - 1], roots);
    }
  }

  lemma {:induction false} MergePiecesSafe(ps: seq<Piece>, roots: set<Digest>)
    requires SafePieces(ps, roots)
    ensures AllSafe(MergePieces(ps), roots)
  {
    if ps != [] {
      var p := ps[|ps| - 1];
      MergePiecesSafe(ps[..|ps| - 1], roots);
      assert SafePiece(p, roots);
      if p.Run? {
        MergedOrdered(p.spans);
      }
    }
  }

  lemma {:induction false} PairUpSafe(bs: seq<CodeBlock>, roots: set<Digest>)
    requires AllSafe(bs, roots)
    ensures AllSafe(PairUp(bs), roots)
  {
    if |bs| >= 2 {
      PairUpSafe(bs[2..], roots);
      assert Safe(bs[0], roots) && Safe(bs[1], roots);
    }
  }

  lemma {:induction false} JoinTreeSafe(bs: seq<CodeBlock>, roots: set<Digest>)
    requires bs != [] && AllSafe(bs, roots)
    ensures Safe(JoinTree(bs), roots)
    decreases |bs|
  {
    if |bs| > 1 {
      PairUpSafe(bs, roots);
      JoinTreeSafe(PairUp(bs), roots);
    }
  }

  /** Combining adds no calls and keeps blocks proper. */
  lemma CombinedSafe(bs: seq<CodeBlock>, roots: set<Digest>)
    requires bs != [] && AllSafe(bs, roots)
    ensures Safe(Combined(bs), roots)
  {
    MergeRunsNonEmpty(bs);
    PiecesSafe(bs, roots);
    MergePiecesSafe(Pieces(bs), roots);
    JoinTreeSafe(MergeRuns(bs), roots);
  }
}
