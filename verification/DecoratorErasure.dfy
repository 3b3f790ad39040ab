/**
 Decorators that have no effect on the VM state: every body that compiles is executed as it says, and
 erasing all decorators commutes with compilation and changes no outcome.
 */
module DecoratorErasure {
  import opened Results
  import opened Mast
  import opened Execution
  import opened BlockCombining
  import opened SpanBuilding
  import opened BodyCompiler
  import opened DecoratorLoss

  ghost predicate Silent<S(!new)>(m: Machine<S>) {
    forall d: Decorator, s: S :: m.decorate(d, s) == Ok(s)
  }

  // Erasing decorators

  function Erase(span: OpSpan): OpSpan {
    OpSpan(span.ops, [])
  }

  function EraseBlock(b: CodeBlock): CodeBlock {
    match b
    case Span(span) => Span(Erase(span))
    case Join(first, second) => Join(EraseBlock(first), EraseBlock(second))
    case Split(onTrue, onFalse) => Split(EraseBlock(onTrue), EraseBlock(onFalse))
    case Loop(body) => Loop(EraseBlock(body))
    case Call(_, _) => b
    case Dyn => b
    case Proxy(_) => b
  }

  function EraseBlocks(bs: seq<CodeBlock>): (r: seq<CodeBlock>)
    ensures |r| == |bs|
  {
    if bs == [] then [] else EraseBlocks(bs[..|bs| - 1]) + [EraseBlock(bs[|bs| - 1])]
  }

  function EraseCode(c: Code): (r: Code)
    ensures r.Emit? <==> c.Emit?
    decreases c, 0
  {
    match c
    case Emit(items) => Emit(AsItems(OpsOf(items)))
    case Inline(b) => Inline(EraseBlock(b))
    case IfElse(trueCase, falseCase) => IfElse(EraseBody(trueCase), EraseBody(falseCase))
    case Repeat(times, body) => Repeat(times, EraseBody(body))
    case While(body) => While(EraseBody(body))
  }

  function EraseBody(nodes: seq<Code>): (r: seq<Code>)
    ensures |r| == |nodes|
    decreases nodes, 1
  {
    if nodes == [] then [] else EraseBody(nodes[..|nodes| - 1]) + [EraseCode(nodes[|nodes| - 1])]
  }

  // Erasing changes no outcome

  lemma {:induction false} OpsOfPlain(ops: seq<Operation>, k: nat)
    ensures OpsOf(AsItems(ops)) == ops && DecsOf(AsItems(ops), k) == []
  {
    if ops != [] {
      var init := ops[..|ops| - 1];
      OpsOfPlain(init, k);
      assert AsItems(ops)[..|ops| - 1] == AsItems(init);
    }
  }

  lemma {:induction false} AppendErased(open: OpSpan, items: seq<Item>)
    ensures Erase(Append(open, items)) == Append(Erase(open), AsItems(OpsOf(items)))
  {
    OpsOfPlain(OpsOf(items), |open.ops|);
  }

  lemma {:induction false} ItemsErased<S(!new)>(m: Machine<S>, items: seq<Item>, s: S)
    requires Silent(m)
    ensures RunItems(m, AsItems(OpsOf(items)), s) == RunItems(m, items, s)
  {
    if items != [] {
      var init, last := items[..|items| - 1], items[|items| - 1];
      ItemsErased(m, init, s);
      assert items == init + [last];
      RunItemsConcat(m, init, [last], s);
      match last
      case Op(op) =>
        assert AsItems(OpsOf(items)) == AsItems(OpsOf(init)) + [last];
        RunItemsConcat(m, AsItems(OpsOf(init)), [last], s);
      case Dec(d) =>
        var r := RunItems(m, init, s);
        if r.Done? {
          assert [last][1..] == [];
          assert m.decorate(d, r.state) == Ok(r.state);
        }
    }
  }

  lemma {:induction false} OpsOfCons(item: Item, items: seq<Item>)
    ensures OpsOf([item] + items) == OpsOf([item]) + OpsOf(items)
  {
    if items == [] {
      assert [item] + items == [item];
    } else {
      var init := items[..|items| - 1];
      OpsOfCons(item, init);
      assert ([item] + items)[..|items|] == [item] + init;
    }
  }

  lemma OpsOfOne(item: Item)
    ensures OpsOf([item]) == match item { case Op(op) => [op] case Dec(_) => [] }
  {
    assert [item][..0] == [];
  }

  lemma {:induction false} OpsOfLinear(ops: seq<Operation>, pos: nat, decs: DecoratorList)
    ensures OpsOf(Linear(ops, pos, decs)) == ops
    decreases |ops| + |decs|
  {
    if ops == [] {
      if decs != [] {
        OpsOfOne(Dec(decs[0].1));
      }
    } else if decs != [] && decs[0].0 == pos {
      OpsOfLinear(ops, pos, decs[1..]);
      OpsOfCons(Dec(decs[0].1), Linear(ops, pos, decs[1..]));
      OpsOfOne(Dec(decs[0].1));
    } else {
      OpsOfLinear(ops[1..], pos + 1, decs);
      OpsOfCons(Op(ops[0]), Linear(ops[1..], pos + 1, decs));
      OpsOfOne(Op(ops[0]));
    }
  }

  lemma {:induction false} SpanErased<S(!new)>(m: Machine<S>, span: OpSpan, s: S)
    requires Silent(m)
    ensures RunItems(m, Linear(span.ops, 0, []), s) == RunItems(m, Linear(span.ops, 0, span.decorators), s)
  {
    OpsOfLinear(span.ops, 0, []);
    OpsOfLinear(span.ops, 0, span.decorators);
    ItemsErased(m, Linear(span.ops, 0, []), s);
    ItemsErased(m, Linear(span.ops, 0, span.decorators), s);
  }

  lemma {:induction false} ExecErased<S(!new)>(m: Machine<S>, t: Table, fuel: nat, b: CodeBlock, s: S)
    requires Silent(m)
    ensures Exec(m, t, fuel, EraseBlock(b), s) == Exec(m, t, fuel, b, s)
    decreases fuel, b, 0
  {
    match b
    case Span(span) =>
      SpanErased(m, span, s);
    case Join(first, second) =>
      ExecErased(m, t, fuel, first, s);
      var r := Exec(m, t, fuel, first, s);
      if r.Done? {
        ExecErased(m, t, fuel, second, r.state);
      }
    case Split(onTrue, onFalse) =>
      var r := PopTop(m, s);
      if r.Done? {
        ExecErased(m, t, fuel, onTrue, r.state);
        ExecErased(m, t, fuel, onFalse, r.state);
      }
    case Loop(body) =>
      var r := PopTop(m, s);
      if r.Done? {
        ExecErased(m, t, fuel, body, r.state);
        var r1 := Exec(m, t, fuel, body, r.state);
        if r1.Done? {
          IterateErased(m, t, fuel, body, r1.state);
        }
      }
    case _ =>
  }

  lemma {:induction false} IterateErased<S(!new)>(m: Machine<S>, t: Table, fuel: nat, body: CodeBlock, s: S)
    requires Silent(m)
    ensures Iterate(m, t, fuel, EraseBlock(body), s) == Iterate(m, t, fuel, body, s)
    decreases fuel, body, 1
  {
    var r := PopTop(m, s);
    if r.Done? && m.peek(s) == ONE && fuel > 0 {
      ExecErased(m, t, fuel - 1, body, r.state);
      var r1 := Exec(m, t, fuel - 1, body, r.state);
      if r1.Done? {
        IterateErased(m, t, fuel - 1, body, r1.state);
      }
    }
  }

  // Erasing commutes with combining blocks

  lemma {:induction false} EraseBlocksAt(bs: seq<CodeBlock>, i: nat)
    requires i < |bs|
    ensures EraseBlocks(bs)[i] == EraseBlock(bs[i])
  {
    if i < |bs| - 1 {
      EraseBlocksAt(bs[..|bs| - 1], i);
    }
  }

  lemma {:induction false} EraseBlocksConcat(xs: seq<CodeBlock>, ys: seq<CodeBlock>)
    ensures EraseBlocks(xs + ys) == EraseBlocks(xs) + EraseBlocks(ys)
  {
    if ys == [] {
      assert xs + ys == xs;
    } else {
      assert (xs + ys)[..|xs + ys| - 1] == xs + ys[..|ys| - 1];
      EraseBlocksConcat(xs, ys[..|ys| - 1]);
    }
  }

  lemma {:induction false} EraseBlocksOne(b: CodeBlock)
    ensures EraseBlocks([b]) == [EraseBlock(b)]
  {
    assert [b][..0] == [];
  }

  function EraseSpans(spans: seq<OpSpan>): (r: seq<OpSpan>)
    ensures |r| == |spans|
  {
    if spans == [] then [] else EraseSpans(spans[..|spans| - 1]) + [Erase(spans[|spans| - 1])]
  }

  lemma {:induction false} MergedErased(spans: seq<OpSpan>)
    ensures SpanOps(EraseSpans(spans)) == SpanOps(spans) && SpanDecorators(EraseSpans(spans)) == []
  {
    if spans != [] {
      MergedErased(spans[..|spans| - 1]);
      assert EraseSpans(spans)[..|spans| - 1] == EraseSpans(spans[..|spans| - 1]);
    }
  }

  function ErasePiece(p: Piece): Piece {
    match p
    case Run(spans) => Run(EraseSpans(spans))
    case Other(b) => Other(EraseBlock(b))
  }

  function ErasePieces(ps: seq<Piece>): (r: seq<Piece>)
    ensures |r| == |ps|
  {
    if ps == [] then [] else ErasePieces(ps[..|ps| - 1]) + [ErasePiece(ps[|ps| - 1])]
  }

  lemma {:induction false} ErasePiecesSnoc(ps: seq<Piece>, p: Piece)
    ensures ErasePieces(ps + [p]) == ErasePieces(ps) + [ErasePiece(p)]
  {
    assert (ps + [p])[..|ps|] == ps;
  }

  lemma {:induction false} AddToPiecesErased(ps: seq<Piece>, b: CodeBlock)
    ensures AddToPieces(ErasePieces(ps), EraseBlock(b)) == ErasePieces(AddToPieces(ps, b))
  {
    if !b.Span? {
      ErasePiecesSnoc(ps, Other(b));
    } else if ps != [] && ps[|ps| - 1].Run? {
      var init, spans := ps[..|ps| - 1], ps[|ps| - 1].spans;
      assert (spans + [b.span])[..|spans|] == spans;
      assert ErasePieces(ps)[..|ps| - 1] == ErasePieces(init);
      ErasePiecesSnoc(init, Run(spans + [b.span]));
    } else {
      assert [b.span][..0] == [];
      assert EraseSpans([b.span]) == [Erase(b.span)];
      ErasePiecesSnoc(ps, Run([b.span]));
    }
  }

  lemma {:induction false} PiecesErased(bs: seq<CodeBlock>)
    ensures Pieces(EraseBlocks(bs)) == ErasePieces(Pieces(bs))
  {
    if bs != [] {
      var init, b := bs[..|bs| - 1], bs[|bs| - 1];
      PiecesErased(init);
      assert EraseBlocks(bs)[..|bs| - 1] == EraseBlocks(init);
      AddToPiecesErased(Pieces(init), b);
    }
  }

  lemma {:induction false} MergePiecesErased(ps: seq<Piece>)
    ensures MergePieces(ErasePieces(ps)) == EraseBlocks(MergePieces(ps))
  {
    if ps != [] {
      var init, p := ps[..|ps| - 1], ps[|ps| - 1];
      MergePiecesErased(init);
      MergePiecesSnoc(ErasePieces(init), ErasePiece(p));
      EraseBlocksConcat(MergePieces(init), [MergePiece(p)]);
      EraseBlocksOne(MergePiece(p));
      if p.Run? {
        MergedErased(p.spans);
      }
    }
  }

  lemma {:induction false} PairUpErased(bs: seq<CodeBlock>)
    ensures PairUp(EraseBlocks(bs)) == EraseBlocks(PairUp(bs))
    decreases |bs|
  {
    if |bs| >= 2 {
      var joined := Join(bs[0], bs[1]);
      PairUpErased(bs[2..]);
      assert bs == bs[..2] + bs[2..];
      EraseBlocksConcat(bs[..2], bs[2..]);
      EraseBlocksAt(bs, 0);
      EraseBlocksAt(bs, 1);
      assert EraseBlocks(bs)[2..] == EraseBlocks(bs[2..]);
      EraseBlocksConcat([joined], PairUp(bs[2..]));
      EraseBlocksOne(joined);
    }
  }

  lemma {:induction false} JoinTreeErased(bs: seq<CodeBlock>)
    requires bs != []
    ensures JoinTree(EraseBlocks(bs)) == EraseBlock(JoinTree(bs))
    decreases |bs|
  {
    if |bs| == 1 {
      EraseBlocksAt(bs, 0);
    } else {
      PairUpErased(bs);
      JoinTreeErased(PairUp(bs));
    }
  }

  lemma {:induction false} CombinedErased(bs: seq<CodeBlock>)
    requires bs != []
    ensures Combined(EraseBlocks(bs)) == EraseBlock(Combined(bs))
  {
    MergeRunsNonEmpty(bs);
    MergeRunsNonEmpty(EraseBlocks(bs));
    PiecesErased(bs);
    MergePiecesErased(Pieces(bs));
    JoinTreeErased(MergeRuns(bs));
  }

  // Erasing commutes with compilation

  lemma {:induction false} FlushErased(blocks: seq<CodeBlock>, open: OpSpan)
    requires Flush(blocks, open).Ok?
    ensures Flush(EraseBlocks(blocks), Erase(open)) == Ok(EraseBlocks(Flush(blocks, open).value))
  {
    if open.ops != [] {
      EraseBlocksConcat(blocks, [Span(open)]);
      EraseBlocksOne(Span(open));
    }
  }

  lemma {:induction false} ReplicateErased(b: CodeBlock, times: nat)
    ensures EraseBlocks(Replicate(b, times)) == Replicate(EraseBlock(b), times)
  {
    if times > 0 {
      ReplicateErased(b, times - 1);
      EraseBlocksConcat(Replicate(b, times - 1), [b]);
      EraseBlocksOne(b);
    }
  }

  lemma {:induction false} NodeCompilesErased(c: Code)
    requires !c.Emit? && NodeBlocks(c).Ok?
    ensures NodeBlocks(EraseCode(c)) == Ok(EraseBlocks(NodeBlocks(c).value))
    decreases c, 0
  {
    match c
    case Inline(b) =>
      EraseBlocksOne(b);
    case IfElse(trueCase, falseCase) =>
      CompilesErased(trueCase, NO_WRAPPER);
      if falseCase != [] {
        CompilesErased(falseCase, NO_WRAPPER);
      }
      EraseBlocksOne(NodeBlocks(c).value[0]);
    case Repeat(times, body) =>
      CompilesErased(body, NO_WRAPPER);
      ReplicateErased(CompileBody(body, NO_WRAPPER).value, times);
    case While(body) =>
      CompilesErased(body, NO_WRAPPER);
      EraseBlocksOne(NodeBlocks(c).value[0]);
  }

  function ErasePartial(p: Partial): Partial {
    Partial(EraseBlocks(p.blocks), Erase(p.open))
  }

  lemma {:induction false} NodesCompileErased(nodes: seq<Code>, start: OpSpan)
    requires CompileNodes(nodes, start).Ok? && start.decorators == []
    ensures CompileNodes(EraseBody(nodes), start) == Ok(ErasePartial(CompileNodes(nodes, start).value))
    decreases nodes, 0
  {
    if nodes != [] {
      var init, last := nodes[..|nodes| - 1], nodes[|nodes| - 1];
      assert EraseBody(nodes)[..|nodes| - 1] == EraseBody(init);
      NodesCompileErased(init, start);
      var p := CompileNodes(init, start).value;
      if last.Emit? {
        AppendErased(p.open, last.items);
      } else {
        FlushErased(p.blocks, p.open);
        NodeCompilesErased(last);
        EraseBlocksConcat(Flush(p.blocks, p.open).value, NodeBlocks(last).value);
      }
    }
  }

  /** Compiling the erased body gives the erased MAST. */
  lemma {:induction false} CompilesErased(nodes: seq<Code>, w: Wrapper)
    requires CompileBody(nodes, w).Ok?
    ensures CompileBody(EraseBody(nodes), w) == Ok(EraseBlock(CompileBody(nodes, w).value))
    decreases nodes, 1
  {
    var start := OpSpan(w.prologue, []);
    NodesCompileErased(nodes, start);
    var p := CompileNodes(nodes, start).value;
    var last := OpSpan(p.open.ops + w.epilogue, p.open.decorators);
    FlushErased(p.blocks, last);
    var blocks := Flush(p.blocks, last).value;
    if blocks != [] {
      CombinedErased(blocks);
    }
  }

  // Silent decorators do not get lost

  lemma {:induction false} OpsOfInterleave(ops: seq<Operation>, pos: nat, decs: DecoratorList)
    ensures OpsOf(Interleave(ops, pos, decs)) == ops
    decreases |ops| + |decs|
  {
    if decs != [] && (ops == [] || decs[0].0 == pos) {
      OpsOfInterleave(ops, pos, decs[1..]);
      OpsOfCons(Dec(decs[0].1), Interleave(ops, pos, decs[1..]));
      OpsOfOne(Dec(decs[0].1));
    } else if ops != [] {
      OpsOfInterleave(ops[1..], pos + 1, decs);
      OpsOfCons(Op(ops[0]), Interleave(ops[1..], pos + 1, decs));
      OpsOfOne(Op(ops[0]));
    }
  }

  lemma SilentSpan<S(!new)>(m: Machine<S>, span: OpSpan, s: S)
    requires Silent(m)
    ensures RunItems(m, Linear(span.ops, 0, span.decorators), s) == RunItems(m, Interleave(span.ops, 0, span.decorators), s)
  {
    OpsOfLinear(span.ops, 0, span.decorators);
    OpsOfInterleave(span.ops, 0, span.decorators);
    ItemsErased(m, Linear(span.ops, 0, span.decorators), s);
    ItemsErased(m, Interleave(span.ops, 0, span.decorators), s);
  }

  /** With silent decorators every block is executed as it says. */
  lemma {:induction false} SilentRuns<S(!new)>(m: Machine<S>, t: Table, fuel: nat, b: CodeBlock, s: S)
    requires Silent(m)
    ensures Exec(m, t, fuel, b, s) == Meaning(m, t, fuel, b, s)
    decreases fuel, b, 0
  {
    match b
    case Span(span) =>
      SilentSpan(m, span, s);
    case Join(first, second) =>
      SilentRuns(m, t, fuel, first, s);
      var r := Exec(m, t, fuel, first, s);
      if r.Done? {
        SilentRuns(m, t, fuel, second, r.state);
      }
    case Split(onTrue, onFalse) =>
      var r := PopTop(m, s);
      if r.Done? {
        SilentRuns(m, t, fuel, onTrue, r.state);
        SilentRuns(m, t, fuel, onFalse, r.state);
      }
    case Loop(body) =>
      var r := PopTop(m, s);
      if r.Done? {
        SilentRuns(m, t, fuel, body, r.state);
        var r1 := Exec(m, t, fuel, body, r.state);
        if r1.Done? {
          SilentAgain(m, t, fuel, body, r1.state);
        }
      }
    case _ =>
  }

  lemma {:induction false} SilentAgain<S(!new)>(m: Machine<S>, t: Table, fuel: nat, body: CodeBlock, s: S)
    requires Silent(m)
    ensures Iterate(m, t, fuel, body, s) == MeaningAgain(m, t, fuel, body, s)
    decreases fuel, body, 1
  {
    var r := PopTop(m, s);
    if r.Done? && m.peek(s) == ONE && fuel > 0 {
      SilentRuns(m, t, fuel - 1, body, r.state);
      var r1 := Exec(m, t, fuel - 1, body, r.state);
      if r1.Done? {
        SilentAgain(m, t, fuel - 1, body, r1.state);
      }
    }
  }

  /**
   Compiler correctness without any condition on decorators: if a body compiles, executing its MAST
   on a machine with silent decorators has the outcome of running the body directly.
   */
  lemma CompiledBodyRuns<S(!new)>(m: Machine<S>, t: Table, fuel: nat, nodes: seq<Code>, w: Wrapper, s: S)
    requires NoopIsIdentity(m) && Silent(m)
    requires ProperBody(nodes) && CompileBody(nodes, w).Ok?
    ensures Exec(m, t, fuel, CompileBody(nodes, w).value, s) == RunWrapped(m, t, fuel, nodes, w, s)
  {
    SilentRuns(m, t, fuel, CompileBody(nodes, w).value, s);
    BodyMeans(m, t, fuel, nodes, w, s);
  }
}
