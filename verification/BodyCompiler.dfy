/**
 The body compiler and its correctness: the MAST of a body means what the body says, and is executed
 so by every machine exactly if the last span of each run of spans is tidy.

 `Code` is a body whose instructions are already lowered, each to straight-line items or to a
 block of its own (an inlined procedure, a call); how an instruction is lowered is arbitrary.
 */
module BodyCompiler {
  import opened Results
  import opened Mast
  import opened Execution
  import opened BlockCombining
  import opened SpanBuilding
  import opened DecoratorLoss

  datatype Code =
    | Emit(items: seq<Item>)
    | Inline(block: CodeBlock)
    | IfElse(trueCase: seq<Code>, falseCase: seq<Code>)
    | Repeat(times: nat, body: seq<Code>)
    | While(body: seq<Code>)

  // Compilation

  /** Finished blocks and the span still open. */
  datatype Partial = Partial(blocks: seq<CodeBlock>, open: OpSpan)

  const EMPTY := OpSpan([], [])

  function Replicate(b: CodeBlock, times: nat): seq<CodeBlock> {
    if times == 0 then [] else Replicate(b, times - 1) + [b]
  }

  lemma {:induction false} ReplicatedBlocks(b: CodeBlock, times: nat)
    ensures |Replicate(b, times)| == times && forall i :: 0 <= i < times ==> Replicate(b, times)[i] == b
  {
    if times > 0 {
      ReplicatedBlocks(b, times - 1);
    }
  }

  /** The blocks a control node or an inlined block contributes. */
  function NodeBlocks(c: Code): Result<seq<CodeBlock>, AssemblyError>
    requires !c.Emit?
    decreases c, 0
  {
    match c
    case Inline(b) => Ok([b])
    case IfElse(trueCase, falseCase) =>
      var onTrue :- CompileBody(trueCase, NO_WRAPPER);
      var onFalse :- if falseCase == [] then Ok(NOOP_BLOCK) else CompileBody(falseCase, NO_WRAPPER);
      Ok([Split(onTrue, onFalse)])
    case Repeat(times, body) =>
      var b :- CompileBody(body, NO_WRAPPER);
      Ok(Replicate(b, times))
    case While(body) =>
      var b :- CompileBody(body, NO_WRAPPER);
      Ok([Loop(b)])
  }

  function CompileNode(p: Partial, c: Code): Result<Partial, AssemblyError>
    decreases c, 1
  {
    if c.Emit? then Ok(Partial(p.blocks, Append(p.open, c.items)))
    else
      var flushed :- Flush(p.blocks, p.open);
      var more :- NodeBlocks(c);
      Ok(Partial(flushed + more, EMPTY))
  }

  function CompileNodes(nodes: seq<Code>, start: OpSpan): Result<Partial, AssemblyError>
    decreases nodes, 0
  {
    if nodes == [] then Ok(Partial([], start)) else
      var p :- CompileNodes(nodes[..|nodes| - 1], start);
      CompileNode(p, nodes[|nodes| - 1])
  }

  function Finish(p: Partial, epilogue: seq<Operation>): Result<CodeBlock, AssemblyError> {
    var blocks :- Flush(p.blocks, OpSpan(p.open.ops + epilogue, p.open.decorators));
    Ok(if blocks == [] then NOOP_BLOCK else Combined(blocks))
  }

  function CompileBody(nodes: seq<Code>, w: Wrapper): Result<CodeBlock, AssemblyError>
    decreases nodes, 1
  {
    var p :- CompileNodes(nodes, OpSpan(w.prologue, []));
    Finish(p, w.epilogue)
  }

  // Direct meaning of a body; an inlined block means what it says, all its decorators included

  function RunBody<S>(m: Machine<S>, t: Table, fuel: nat, nodes: seq<Code>, s: S): Outcome<S>
    decreases fuel, nodes, 0, 0
  {
    if nodes == [] then Done(s) else
      var s1 :- RunBody(m, t, fuel, nodes[..|nodes| - 1], s);
      RunNode(m, t, fuel, nodes[|nodes| - 1], s1)
  }

  function RunNode<S>(m: Machine<S>, t: Table, fuel: nat, c: Code, s: S): Outcome<S>
    decreases fuel, c, 0, 0
  {
    match c
    case Emit(items) => RunItems(m, items, s)
    case Inline(b) => Meaning(m, t, fuel, b, s)
    case IfElse(trueCase, falseCase) =>
      var s1 :- PopTop(m, s);
      if m.peek(s) == ONE then RunBody(m, t, fuel, trueCase, s1)
      else if m.peek(s) == ZERO then RunBody(m, t, fuel, falseCase, s1)
      else Failed(NotBinaryValue(m.peek(s)))
    case Repeat(times, body) => RunTimes(m, t, fuel, times, body, s)
    case While(body) =>
      var s1 :- PopTop(m, s);
      if m.peek(s) == ONE then
        var s2 :- RunBody(m, t, fuel, body, s1);
        RunWhile(m, t, fuel, body, s2)
      else if m.peek(s) == ZERO then Done(s1)
      else Failed(NotBinaryValue(m.peek(s)))
  }

  function RunTimes<S>(m: Machine<S>, t: Table, fuel: nat, times: nat, body: seq<Code>, s: S): Outcome<S>
    decreases fuel, body, 1, times
  {
    if times == 0 then Done(s) else
      var s1 :- RunTimes(m, t, fuel, times - 1, body, s);
      RunBody(m, t, fuel, body, s1)
  }

  function RunWhile<S>(m: Machine<S>, t: Table, fuel: nat, body: seq<Code>, s: S): Outcome<S>
    decreases fuel, body, 1, 0
  {
    var s1 :- PopTop(m, s);
    if m.peek(s) != ONE then Done(s1)
    else if fuel == 0 then OutOfFuel
    else
      var s2 :- RunBody(m, t, fuel - 1, body, s1);
      RunWhile(m, t, fuel - 1, body, s2)
  }

  function AsItems(ops: seq<Operation>): seq<Item> {
    seq(|ops|, i requires 0 <= i < |ops| => Op(ops[i]))
  }

  /** Prologue, body, epilogue. */
  function RunWrapped<S>(m: Machine<S>, t: Table, fuel: nat, nodes: seq<Code>, w: Wrapper, s: S): Outcome<S> {
    var s1 :- RunItems(m, AsItems(w.prologue), s);
    var s2 :- RunBody(m, t, fuel, nodes, s1);
    RunItems(m, AsItems(w.epilogue), s2)
  }

  // Which bodies compile

  /** Closing the span does not panic. */
  predicate Closable(open: OpSpan) {
    open.ops == [] ==> open.decorators == []
  }

  /** The span open after some nodes. */
  function OpenAfter(nodes: seq<Code>, start: OpSpan): OpSpan {
    if nodes == [] then start else
      match nodes[|nodes| - 1]
      case Emit(items) => Append(OpenAfter(nodes[..|nodes| - 1], start), items)
      case _ => EMPTY
  }

  predicate CompilableNode(c: Code)
    decreases c
  {
    match c
    case Emit(_) => true
    case Inline(_) => true
    case IfElse(trueCase, falseCase) =>
      Compilable(trueCase, NO_WRAPPER) && (falseCase != [] ==> Compilable(falseCase, NO_WRAPPER))
    case Repeat(_, body) => Compilable(body, NO_WRAPPER)
    case While(body) => Compilable(body, NO_WRAPPER)
  }

  predicate CompilableNodes(nodes: seq<Code>, start: OpSpan)
    decreases nodes, 0
  {
    nodes != [] ==>
      var init, last := nodes[..|nodes| - 1], nodes[|nodes| - 1];
      && CompilableNodes(init, start)
      && CompilableNode(last)
      && (!last.Emit? ==> Closable(OpenAfter(init, start)))
  }

  /** No span with decorators but without operations has to be closed. */
  predicate Compilable(nodes: seq<Code>, w: Wrapper)
    decreases nodes, 1
  {
    var start := OpSpan(w.prologue, []);
    var open := OpenAfter(nodes, start);
    CompilableNodes(nodes, start) && Closable(OpSpan(open.ops + w.epilogue, open.decorators))
  }

  lemma {:induction false} NodeCompiles(c: Code)
    requires !c.Emit?
    ensures NodeBlocks(c).Ok? <==> CompilableNode(c)
    decreases c, 0
  {
    match c
    case Inline(_) =>
    case IfElse(trueCase, falseCase) =>
      BodyCompiles(trueCase, NO_WRAPPER);
      if falseCase != [] {
        BodyCompiles(falseCase, NO_WRAPPER);
      }
    case Repeat(_, body) =>
      BodyCompiles(body, NO_WRAPPER);
    case While(body) =>
      BodyCompiles(body, NO_WRAPPER);
  }

  lemma {:induction false} NodesCompile(nodes: seq<Code>, start: OpSpan)
    ensures CompileNodes(nodes, start).Ok? <==> CompilableNodes(nodes, start)
    ensures CompileNodes(nodes, start).Ok? ==> CompileNodes(nodes, start).value.open == OpenAfter(nodes, start)
    decreases nodes, 0
  {
    if nodes != [] {
      var init, last := nodes[..|nodes| - 1], nodes[|nodes| - 1];
      NodesCompile(init, start);
      if !last.Emit? {
        NodeCompiles(last);
      }
    }
  }

  /** A body compiles exactly if no span of decorators only has to be closed. */
  lemma {:induction false} BodyCompiles(nodes: seq<Code>, w: Wrapper)
    ensures CompileBody(nodes, w).Ok? <==> Compilable(nodes, w)
    decreases nodes, 1
  {
    NodesCompile(nodes, OpSpan(w.prologue, []));
  }

  // Compiled code is proper

  ghost predicate ProperNode(c: Code)
    decreases c, 0
  {
    match c
    case Emit(_) => true
    case Inline(b) => ProperBlock(b)
    case IfElse(trueCase, falseCase) => ProperBody(trueCase) && ProperBody(falseCase)
    case Repeat(_, body) => ProperBody(body)
    case While(body) => ProperBody(body)
  }

  /** Inlined blocks are proper, as all blocks are that the assembler has compiled before. */
  ghost predicate ProperBody(nodes: seq<Code>)
    decreases nodes, 1
  {
    nodes != [] ==> ProperBody(nodes[..|nodes| - 1]) && ProperNode(nodes[|nodes| - 1])
  }

  ghost predicate AllProper(bs: seq<CodeBlock>) {
    forall i :: 0 <= i < |bs| ==> ProperBlock(bs[i])
  }

  function AllTargets(bs: seq<CodeBlock>): set<Digest> {
    if bs == [] then {} else AllTargets(bs[..|bs| - 1]) + Targets(bs[|bs| - 1])
  }

  lemma {:induction false} ProperIsSafe(bs: seq<CodeBlock>)
    requires AllProper(bs)
    ensures AllSafe(bs, AllTargets(bs))
  {
    if bs != [] {
      ProperIsSafe(bs[..|bs| - 1]);
      forall i | 0 <= i < |bs|
        ensures Safe(bs[i], AllTargets(bs))
      {
        if i < |bs| - 1 {
          assert Safe(bs[..|bs| - 1][i], AllTargets(bs[..|bs| - 1]));
        }
      }
    }
  }

  lemma CombinedProper(bs: seq<CodeBlock>)
    requires bs != [] && AllProper(bs)
    ensures ProperBlock(Combined(bs))
  {
    ProperIsSafe(bs);
    CombinedSafe(bs, AllTargets(bs));
  }

  lemma {:induction false} ReplicateProper(b: CodeBlock, times: nat)
    requires ProperBlock(b)
    ensures AllProper(Replicate(b, times))
  {
    if times > 0 {
      ReplicateProper(b, times - 1);
    }
  }

  lemma {:induction false} NodeProper(c: Code)
    requires ProperNode(c) && !c.Emit? && NodeBlocks(c).Ok?
    ensures AllProper(NodeBlocks(c).value)
    decreases c, 0
  {
    match c
    case Inline(_) =>
    case IfElse(trueCase, falseCase) =>
      BodyProper(trueCase, NO_WRAPPER);
      if falseCase != [] {
        BodyProper(falseCase, NO_WRAPPER);
      }
    case Repeat(times, body) =>
      BodyProper(body, NO_WRAPPER);
      ReplicateProper(CompileBody(body, NO_WRAPPER).value, times);
    case While(body) =>
      BodyProper(body, NO_WRAPPER);
  }

  lemma {:induction false} NodesProper(nodes: seq<Code>, start: OpSpan)
    requires ProperBody(nodes) && OpenOrdered(start) && CompileNodes(nodes, start).Ok?
    ensures var p := CompileNodes(nodes, start).value; AllProper(p.blocks) && OpenOrdered(p.open)
    decreases nodes, 0
  {
    if nodes != [] {
      var init, last := nodes[..|nodes| - 1], nodes[|nodes| - 1];
      NodesProper(init, start);
      var p := CompileNodes(init, start).value;
      if last.Emit? {
        AppendItems(p.open, last.items);
      } else {
        NodeProper(last);
        FlushProper(p);
      }
    }
  }

  lemma FlushProper(p: Partial)
    requires AllProper(p.blocks) && OpenOrdered(p.open) && Flush(p.blocks, p.open).Ok?
    ensures AllProper(Flush(p.blocks, p.open).value)
  {
  }

  lemma {:induction false} BodyProper(nodes: seq<Code>, w: Wrapper)
    requires ProperBody(nodes) && CompileBody(nodes, w).Ok?
    ensures ProperBlock(CompileBody(nodes, w).value)
    decreases nodes, 1
  {
    var start := OpSpan(w.prologue, []);
    NodesProper(nodes, start);
    var p := CompileNodes(nodes, start).value;
    var last := Partial(p.blocks, OpSpan(p.open.ops + w.epilogue, p.open.decorators));
    FlushProper(last);
    var blocks := Flush(last.blocks, last.open).value;
    if blocks != [] {
      CombinedProper(blocks);
    }
  }

  // Compiled code means what the body says

  /** What a partially compiled body says: its blocks, then its open span. */
  ghost function RunPartial<S>(m: Machine<S>, t: Table, fuel: nat, p: Partial, s: S): Outcome<S> {
    var s1 :- MeaningSeq(m, t, fuel, p.blocks, s);
    RunItems(m, Items(p.open), s1)
  }

  lemma {:induction false} FlushMeans<S>(m: Machine<S>, t: Table, fuel: nat, p: Partial, s: S)
    requires Flush(p.blocks, p.open).Ok?
    ensures MeaningSeq(m, t, fuel, Flush(p.blocks, p.open).value, s) == RunPartial(m, t, fuel, p, s)
  {
    if p.open.ops != [] {
      MeaningSeqSnoc(m, t, fuel, p.blocks, Span(p.open), s);
    }
  }

  lemma {:induction false} NodeMeans<S(!new)>(m: Machine<S>, t: Table, fuel: nat, c: Code, s: S)
    requires NoopIsIdentity(m)
    requires ProperNode(c) && !c.Emit? && NodeBlocks(c).Ok?
    ensures MeaningSeq(m, t, fuel, NodeBlocks(c).value, s) == RunNode(m, t, fuel, c, s)
    decreases fuel, c, 0, 0
  {
    match c
    case Inline(b) =>
      MeaningSeqSingle(m, t, fuel, b, s);
    case IfElse(trueCase, falseCase) =>
      IfElseMeans(m, t, fuel, trueCase, falseCase, s);
    case Repeat(times, body) =>
      TimesMean(m, t, fuel, times, body, CompileBody(body, NO_WRAPPER).value, s);
    case While(body) =>
      LoopMeans(m, t, fuel, body, CompileBody(body, NO_WRAPPER).value, s);
  }

  lemma {:induction false} IfElseMeans<S(!new)>(m: Machine<S>, t: Table, fuel: nat, trueCase: seq<Code>, falseCase: seq<Code>, s: S)
    requires NoopIsIdentity(m)
    requires ProperNode(IfElse(trueCase, falseCase)) && NodeBlocks(IfElse(trueCase, falseCase)).Ok?
    ensures MeaningSeq(m, t, fuel, NodeBlocks(IfElse(trueCase, falseCase)).value, s) ==
            RunNode(m, t, fuel, IfElse(trueCase, falseCase), s)
    decreases fuel, IfElse(trueCase, falseCase), -1, 0
  {
    var onTrue := CompileBody(trueCase, NO_WRAPPER).value;
    var onFalse := if falseCase == [] then NOOP_BLOCK else CompileBody(falseCase, NO_WRAPPER).value;
    assert NodeBlocks(IfElse(trueCase, falseCase)) == Ok([Split(onTrue, onFalse)]);
    MeaningSeqSingle(m, t, fuel, Split(onTrue, onFalse), s);
    var r := PopTop(m, s);
    if r.Done? {
      BranchMeans(m, t, fuel, trueCase, onTrue, r.state);
      if falseCase == [] {
        NoopBlockMeans(m, t, fuel, r.state);
      } else {
        BranchMeans(m, t, fuel, falseCase, onFalse, r.state);
      }
    }
    SplitMeans(m, t, fuel, onTrue, onFalse, trueCase, falseCase, s);
  }

  lemma SplitMeans<S>(m: Machine<S>, t: Table, fuel: nat, onTrue: CodeBlock, onFalse: CodeBlock, trueCase: seq<Code>, falseCase: seq<Code>, s: S)
    requires var r := PopTop(m, s);
             r.Done? ==>
               && Meaning(m, t, fuel, onTrue, r.state) == RunBody(m, t, fuel, trueCase, r.state)
               && Meaning(m, t, fuel, onFalse, r.state) == RunBody(m, t, fuel, falseCase, r.state)
    ensures Meaning(m, t, fuel, Split(onTrue, onFalse), s) == RunNode(m, t, fuel, IfElse(trueCase, falseCase), s)
  {
  }

  lemma {:induction false} LoopMeans<S(!new)>(m: Machine<S>, t: Table, fuel: nat, body: seq<Code>, b: CodeBlock, s: S)
    requires NoopIsIdentity(m)
    requires ProperBody(body) && CompileBody(body, NO_WRAPPER) == Ok(b)
    ensures MeaningSeq(m, t, fuel, [Loop(b)], s) == RunNode(m, t, fuel, While(body), s)
    decreases fuel, body, 4, 0
  {
    forall f: nat, s1: S | f <= fuel
      ensures Agrees(m, t, f, body, b, s1)
    {
      BranchMeans(m, t, f, body, b, s1);
    }
    LoopAgrees(m, t, fuel, body, b, s);
    MeaningSeqSingle(m, t, fuel, Loop(b), s);
  }

  lemma LoopAgrees<S(!new)>(m: Machine<S>, t: Table, fuel: nat, body: seq<Code>, b: CodeBlock, s: S)
    requires forall f: nat, s1: S :: f <= fuel ==> Agrees(m, t, f, body, b, s1)
    ensures Meaning(m, t, fuel, Loop(b), s) == RunNode(m, t, fuel, While(body), s)
  {
    var r := PopTop(m, s);
    if r.Done? {
      assert Agrees(m, t, fuel, body, b, r.state);
      var r1 := Meaning(m, t, fuel, b, r.state);
      if r1.Done? {
        WhileMeans(m, t, fuel, body, b, r1.state);
      }
    }
  }

  /** A body without prologue and epilogue. */
  lemma {:induction false} BranchMeans<S(!new)>(m: Machine<S>, t: Table, fuel: nat, nodes: seq<Code>, b: CodeBlock, s: S)
    requires NoopIsIdentity(m)
    requires ProperBody(nodes) && CompileBody(nodes, NO_WRAPPER) == Ok(b)
    ensures Meaning(m, t, fuel, b, s) == RunBody(m, t, fuel, nodes, s)
    decreases fuel, nodes, 2, 0
  {
    BodyMeans(m, t, fuel, nodes, NO_WRAPPER, s);
    PlainWrapper(m, t, fuel, nodes, s);
  }

  lemma PlainWrapper<S>(m: Machine<S>, t: Table, fuel: nat, nodes: seq<Code>, s: S)
    ensures RunWrapped(m, t, fuel, nodes, NO_WRAPPER, s) == RunBody(m, t, fuel, nodes, s)
  {
    assert AsItems([]) == [];
  }

  lemma {:induction false} TimesMean<S(!new)>(m: Machine<S>, t: Table, fuel: nat, times: nat, body: seq<Code>, b: CodeBlock, s: S)
    requires NoopIsIdentity(m)
    requires ProperBody(body) && CompileBody(body, NO_WRAPPER) == Ok(b)
    ensures MeaningSeq(m, t, fuel, Replicate(b, times), s) == RunTimes(m, t, fuel, times, body, s)
    decreases fuel, body, 3, times
  {
    forall s1: S
      ensures Agrees(m, t, fuel, body, b, s1)
    {
      BranchMeans(m, t, fuel, body, b, s1);
    }
    TimesAgree(m, t, fuel, times, body, b, s);
  }

  lemma {:induction false} TimesAgree<S(!new)>(m: Machine<S>, t: Table, fuel: nat, times: nat, body: seq<Code>, b: CodeBlock, s: S)
    requires forall s1: S :: Agrees(m, t, fuel, body, b, s1)
    ensures MeaningSeq(m, t, fuel, Replicate(b, times), s) == RunTimes(m, t, fuel, times, body, s)
    decreases times
  {
    if times > 0 {
      TimesAgree(m, t, fuel, times - 1, body, b, s);
      assert Replicate(b, times) == Replicate(b, times - 1) + [b];
      MeaningSeqSnoc(m, t, fuel, Replicate(b, times - 1), b, s);
      var r := RunTimes(m, t, fuel, times - 1, body, s);
      assert r.Done? ==> Agrees(m, t, fuel, body, b, r.state);
    }
  }

  ghost predicate Agrees<S>(m: Machine<S>, t: Table, fuel: nat, body: seq<Code>, b: CodeBlock, s: S) {
    Meaning(m, t, fuel, b, s) == RunBody(m, t, fuel, body, s)
  }

  /** If a block means what a body says with less fuel, iterating them means the same. */
  lemma {:induction false} WhileMeans<S(!new)>(m: Machine<S>, t: Table, fuel: nat, body: seq<Code>, b: CodeBlock, s: S)
    requires forall f: nat, s1: S :: f < fuel ==> Agrees(m, t, f, body, b, s1)
    ensures MeaningAgain(m, t, fuel, b, s) == RunWhile(m, t, fuel, body, s)
    decreases fuel
  {
    var r := PopTop(m, s);
    if r.Done? && m.peek(s) == ONE && fuel > 0 {
      assert Agrees(m, t, fuel - 1, body, b, r.state);
      var r1 := RunBody(m, t, fuel - 1, body, r.state);
      if r1.Done? {
        WhileMeans(m, t, fuel - 1, body, b, r1.state);
      }
    }
  }

  /** One more straight-line node extends the open span. */
  lemma {:induction false} EmitMeans<S>(m: Machine<S>, t: Table, fuel: nat, p: Partial, items: seq<Item>, s: S)
    requires OpenOrdered(p.open)
    ensures RunPartial(m, t, fuel, Partial(p.blocks, Append(p.open, items)), s) ==
            match RunPartial(m, t, fuel, p, s) { case Done(s1) => RunItems(m, items, s1) case o => o }
  {
    AppendItems(p.open, items);
    var r := MeaningSeq(m, t, fuel, p.blocks, s);
    if r.Done? {
      RunItemsConcat(m, Items(p.open), items, r.state);
    }
  }

  /** One more node of another kind closes the open span and adds its own blocks. */
  lemma {:induction false} ControlMeans<S>(m: Machine<S>, t: Table, fuel: nat, p: Partial, more: seq<CodeBlock>, s: S)
    requires Flush(p.blocks, p.open).Ok?
    ensures RunPartial(m, t, fuel, Partial(Flush(p.blocks, p.open).value + more, EMPTY), s) ==
            match RunPartial(m, t, fuel, p, s) { case Done(s1) => MeaningSeq(m, t, fuel, more, s1) case o => o }
  {
    FlushMeans(m, t, fuel, p, s);
    MeaningSeqConcat(m, t, fuel, Flush(p.blocks, p.open).value, more, s);
    assert Items(EMPTY) == [];
  }

  lemma {:induction false} NodesMean<S(!new)>(m: Machine<S>, t: Table, fuel: nat, nodes: seq<Code>, start: OpSpan, s: S)
    requires NoopIsIdentity(m)
    requires ProperBody(nodes) && OpenOrdered(start) && CompileNodes(nodes, start).Ok?
    ensures RunPartial(m, t, fuel, CompileNodes(nodes, start).value, s) ==
            match RunItems(m, Items(start), s) { case Done(s1) => RunBody(m, t, fuel, nodes, s1) case o => o }
    decreases fuel, nodes, 0, 0
  {
    if nodes != [] {
      var init, last := nodes[..|nodes| - 1], nodes[|nodes| - 1];
      NodesMean(m, t, fuel, init, start, s);
      NodesProper(init, start);
      var p := CompileNodes(init, start).value;
      if last.Emit? {
        EmitMeans(m, t, fuel, p, last.items, s);
      } else {
        ControlMeans(m, t, fuel, p, NodeBlocks(last).value, s);
        var r := RunPartial(m, t, fuel, p, s);
        if r.Done? {
          NodeMeans(m, t, fuel, last, r.state);
        }
      }
    }
  }

  lemma {:induction false} PrologueItems(ops: seq<Operation>, pos: nat)
    ensures Interleave(ops, pos, []) == AsItems(ops)
  {
    if ops != [] {
      PrologueItems(ops[1..], pos + 1);
    }
  }

  lemma {:induction false} EpilogueItems(open: OpSpan, ops: seq<Operation>)
    requires OpenOrdered(open)
    ensures Items(OpSpan(open.ops + ops, open.decorators)) == Items(open) + AsItems(ops)
  {
    InterleaveAppend(open.ops, ops, 0, open.decorators, []);
    assert open.decorators + [] == open.decorators;
    PrologueItems(ops, |open.ops|);
  }

  /**
   Whatever compiles means what the body says, on every machine and with any fuel: prologue, body
   and epilogue, all decorators included.
   */
  lemma {:induction false} BodyMeans<S(!new)>(m: Machine<S>, t: Table, fuel: nat, nodes: seq<Code>, w: Wrapper, s: S)
    requires NoopIsIdentity(m)
    requires ProperBody(nodes) && CompileBody(nodes, w).Ok?
    ensures Meaning(m, t, fuel, CompileBody(nodes, w).value, s) == RunWrapped(m, t, fuel, nodes, w, s)
    decreases fuel, nodes, 1, 0
  {
    var start := OpSpan(w.prologue, []);
    NodesProper(nodes, start);
    NodesMean(m, t, fuel, nodes, start, s);
    PrologueItems(w.prologue, 0);
    FinishMeans(m, t, fuel, CompileNodes(nodes, start).value, w.epilogue, s);
  }

  lemma {:induction false} FinishMeans<S(!new)>(m: Machine<S>, t: Table, fuel: nat, p: Partial, epilogue: seq<Operation>, s: S)
    requires NoopIsIdentity(m)
    requires OpenOrdered(p.open) && AllProper(p.blocks) && Finish(p, epilogue).Ok?
    ensures Meaning(m, t, fuel, Finish(p, epilogue).value, s) ==
            match RunPartial(m, t, fuel, p, s) { case Done(s1) => RunItems(m, AsItems(epilogue), s1) case o => o }
  {
    var last := Partial(p.blocks, OpSpan(p.open.ops + epilogue, p.open.decorators));
    EpilogueItems(p.open, epilogue);
    FlushMeans(m, t, fuel, last, s);
    FlushProper(last);
    var blocks := Flush(last.blocks, last.open).value;
    var r := MeaningSeq(m, t, fuel, p.blocks, s);
    if r.Done? {
      RunItemsConcat(m, Items(p.open), AsItems(epilogue), r.state);
    }
    if blocks == [] {
      NoopBlockMeans(m, t, fuel, s);
    } else {
      CombinedMeans(m, t, fuel, blocks, s);
    }
  }

  // Which bodies are executed without loss

  /** What matters of a block: a span that is tidy or not, or another block that loses nothing or does. */
  datatype Kind = SpanKind(tidy: bool) | OtherKind(lossless: bool)

  function KindOf(b: CodeBlock): Kind {
    if b.Span? then SpanKind(Lossless(b)) else OtherKind(Lossless(b))
  }

  predicate LossFreeKind(k: Kind) {
    match k
    case SpanKind(tidy) => tidy
    case OtherKind(lossless) => lossless
  }

  /** In a list to be combined, all runs of spans that are complete end with a tidy span. */
  predicate ClosedRunsTidy(ks: seq<Kind>) {
    ks != [] ==>
      var init, last := ks[..|ks| - 1], ks[|ks| - 1];
      && ClosedRunsTidy(init)
      && (last.OtherKind? ==> last.lossless && (init != [] ==> LossFreeKind(init[|init| - 1])))
  }

  /** The last span of each run of spans is tidy, and other blocks lose nothing. */
  predicate RunsTidy(ks: seq<Kind>) {
    ClosedRunsTidy(ks) && (ks != [] ==> LossFreeKind(ks[|ks| - 1]))
  }

  predicate OnlySpans(ks: seq<Kind>) {
    forall i :: 0 <= i < |ks| ==> ks[i].SpanKind?
  }

  /** A list of spans is combined to a span that is as tidy as the last of them. */
  function CombinedKind(ks: seq<Kind>): Kind
    requires ks != []
  {
    if OnlySpans(ks) then ks[|ks| - 1] else OtherKind(RunsTidy(ks))
  }

  function Copies(k: Kind, times: nat): seq<Kind> {
    if times == 0 then [] else Copies(k, times - 1) + [k]
  }

  function ClosedKinds(open: OpSpan): seq<Kind> {
    if open.ops == [] then [] else [SpanKind(Tidy(|open.ops|, open.decorators))]
  }

  function NodeKinds(c: Code): seq<Kind>
    requires !c.Emit?
    decreases c, 0
  {
    match c
    case Inline(b) => [KindOf(b)]
    case IfElse(trueCase, falseCase) =>
      [OtherKind(LossFree(trueCase, NO_WRAPPER) && (falseCase == [] || LossFree(falseCase, NO_WRAPPER)))]
    case Repeat(times, body) => Copies(BodyKind(body, NO_WRAPPER), times)
    case While(body) => [OtherKind(LossFree(body, NO_WRAPPER))]
  }

  /** The blocks that some nodes are compiled to, without the span still open. */
  function Kinds(nodes: seq<Code>, start: OpSpan): seq<Kind>
    decreases nodes, 0
  {
    if nodes == [] then [] else
      var init, last := nodes[..|nodes| - 1], nodes[|nodes| - 1];
      if last.Emit? then Kinds(init, start)
      else Kinds(init, start) + ClosedKinds(OpenAfter(init, start)) + NodeKinds(last)
  }

  function BodyKind(nodes: seq<Code>, w: Wrapper): Kind
    decreases nodes, 1
  {
    var start := OpSpan(w.prologue, []);
    var open := OpenAfter(nodes, start);
    var ks := Kinds(nodes, start) + ClosedKinds(OpSpan(open.ops + w.epilogue, open.decorators));
    if ks == [] then SpanKind(true) else CombinedKind(ks)
  }

  /**
   The last span of each run of spans, in the body and in the bodies inside it, has at most one
   decorator after its last operation.
   */
  predicate LossFree(nodes: seq<Code>, w: Wrapper)
    decreases nodes, 2
  {
    LossFreeKind(BodyKind(nodes, w))
  }

  function KindsOf(bs: seq<CodeBlock>): (ks: seq<Kind>)
    ensures |ks| == |bs|
  {
    if bs == [] then [] else KindsOf(bs[..|bs| - 1]) + [KindOf(bs[|bs| - 1])]
  }

  lemma {:induction false} KindsConcat(xs: seq<CodeBlock>, ys: seq<CodeBlock>)
    ensures KindsOf(xs + ys) == KindsOf(xs) + KindsOf(ys)
  {
    if ys == [] {
      assert xs + ys == xs;
    } else {
      assert (xs + ys)[..|xs + ys| - 1] == xs + ys[..|ys| - 1];
      KindsConcat(xs, ys[..|ys| - 1]);
    }
  }

  lemma KindsOfOne(b: CodeBlock)
    ensures KindsOf([b]) == [KindOf(b)]
  {
    assert [b][..0] == [];
  }

  lemma {:induction false} KindsOfCopies(b: CodeBlock, times: nat)
    ensures KindsOf(Replicate(b, times)) == Copies(KindOf(b), times)
  {
    if times > 0 {
      KindsOfCopies(b, times - 1);
      KindsConcat(Replicate(b, times - 1), [b]);
      KindsOfOne(b);
    }
  }

  // Kinds of combined blocks

  predicate AllLossless(bs: seq<CodeBlock>) {
    forall i :: 0 <= i < |bs| ==> Lossless(bs[i])
  }

  lemma {:induction false} PairUpLossless(bs: seq<CodeBlock>)
    ensures AllLossless(PairUp(bs)) <==> AllLossless(bs)
    decreases |bs|
  {
    if |bs| >= 2 {
      var joined, rest := Join(bs[0], bs[1]), bs[2..];
      PairUpLossless(rest);
      AllLosslessConcat([joined], PairUp(rest));
      AllLosslessConcat([bs[0]] + [bs[1]], rest);
      AllLosslessConcat([bs[0]], [bs[1]]);
      AllLosslessOne(bs[0]);
      AllLosslessOne(bs[1]);
      AllLosslessOne(joined);
      assert bs == [bs[0]] + [bs[1]] + rest;
    }
  }

  lemma AllLosslessOne(b: CodeBlock)
    ensures AllLossless([b]) <==> Lossless(b)
  {
    assert [b][0] == b;
  }

  lemma AllLosslessConcat(xs: seq<CodeBlock>, ys: seq<CodeBlock>)
    ensures AllLossless(xs + ys) <==> AllLossless(xs) && AllLossless(ys)
  {
    if AllLossless(xs + ys) {
      forall i | 0 <= i < |ys|
        ensures Lossless(ys[i])
      {
        assert (xs + ys)[|xs| + i] == ys[i];
      }
      forall i | 0 <= i < |xs|
        ensures Lossless(xs[i])
      {
        assert (xs + ys)[i] == xs[i];
      }
    }
  }

  lemma {:induction false} JoinTreeLossless(bs: seq<CodeBlock>)
    requires bs != []
    ensures Lossless(JoinTree(bs)) <==> AllLossless(bs)
    ensures |bs| >= 2 ==> JoinTree(bs).Join?
    decreases |bs|
  {
    if |bs| >= 2 {
      PairUpLossless(bs);
      JoinTreeLossless(PairUp(bs));
      if |bs| == 2 {
        assert bs[2..] == [];
        assert PairUp(bs) == [Join(bs[0], bs[1])];
      }
    }
  }

  function PieceKind(p: Piece): Kind
    requires p.Run? ==> p.spans != []
  {
    match p
    case Run(spans) => var last := spans[|spans| - 1]; SpanKind(Tidy(|last.ops|, last.decorators))
    case Other(b) => OtherKind(Lossless(b))
  }

  lemma PieceLossless(p: Piece)
    requires WellFormedPiece(p)
    ensures Lossless(MergePiece(p)) <==> LossFreeKind(PieceKind(p))
  {
    if p.Run? {
      MergedTidy(p.spans);
    }
  }

  ghost predicate PiecesLossless(ps: seq<Piece>)
    requires WellFormedPieces(ps)
  {
    ps != [] ==> PiecesLossless(ps[..|ps| - 1]) && LossFreeKind(PieceKind(ps[|ps| - 1]))
  }

  lemma {:induction false} MergePiecesLossless(ps: seq<Piece>)
    requires WellFormedPieces(ps)
    ensures AllLossless(MergePieces(ps)) <==> PiecesLossless(ps)
  {
    if ps != [] {
      var init, p := ps[..|ps| - 1], ps[|ps| - 1];
      MergePiecesLossless(init);
      PieceLossless(p);
      AllLosslessConcat(MergePieces(init), [MergePiece(p)]);
      AllLosslessOne(MergePiece(p));
    }
  }

  /** All pieces but a last run that may still grow. */
  ghost predicate ClosedPiecesLossless(ps: seq<Piece>)
    requires WellFormedPieces(ps)
  {
    if ps != [] && ps[|ps| - 1].Run? then PiecesLossless(ps[..|ps| - 1]) else PiecesLossless(ps)
  }

  /** The pieces say of a list what its kinds say. */
  ghost predicate SameKinds(ps: seq<Piece>, ks: seq<Kind>) {
    && WellFormedPieces(ps)
    && (ps == [] <==> ks == [])
    && (ks != [] ==> PieceKind(ps[|ps| - 1]) == ks[|ks| - 1])
    && (ClosedPiecesLossless(ps) <==> ClosedRunsTidy(ks))
    && (OnlySpans(ks) ==> |ps| <= 1)
    && (!OnlySpans(ks) ==> |ps| >= 2 || ps[0].Other?)
  }

  lemma PiecesLosslessSnoc(ps: seq<Piece>, p: Piece)
    requires WellFormedPieces(ps) && WellFormedPiece(p)
    ensures WellFormedPieces(ps + [p])
    ensures PiecesLossless(ps + [p]) <==> PiecesLossless(ps) && LossFreeKind(PieceKind(p))
  {
    assert (ps + [p])[..|ps|] == ps;
  }

  lemma AddToPiecesKinds(ps: seq<Piece>, ks: seq<Kind>, b: CodeBlock)
    requires SameKinds(ps, ks) && (b.Span? ==> WellFormedSpan(b.span))
    ensures SameKinds(AddToPieces(ps, b), ks + [KindOf(b)])
  {
    if !b.Span? {
      AddOtherKinds(ps, ks, b);
    } else if ps != [] && ps[|ps| - 1].Run? {
      GrowRunKinds(ps, ks, b);
    } else {
      NewRunKinds(ps, ks, b);
    }
  }

  lemma AddOtherKinds(ps: seq<Piece>, ks: seq<Kind>, b: CodeBlock)
    requires SameKinds(ps, ks) && !b.Span?
    ensures SameKinds(ps + [Other(b)], ks + [KindOf(b)])
  {
    var qs, ls := ps + [Other(b)], ks + [KindOf(b)];
    assert qs[..|qs| - 1] == ps && ls[..|ls| - 1] == ks;
    OnlySpansSnoc(ks, KindOf(b));
    PiecesLosslessSnoc(ps, Other(b));
    assert PieceKind(qs[|qs| - 1]) == ls[|ls| - 1];
    assert !OnlySpans(ls);
  }

  lemma GrowRunKinds(ps: seq<Piece>, ks: seq<Kind>, b: CodeBlock)
    requires SameKinds(ps, ks) && b.Span? && WellFormedSpan(b.span)
    requires ps != [] && ps[|ps| - 1].Run?
    ensures SameKinds(ps[..|ps| - 1] + [Run(ps[|ps| - 1].spans + [b.span])], ks + [KindOf(b)])
  {
    var init, grown := ps[..|ps| - 1], Run(ps[|ps| - 1].spans + [b.span]);
    assert (ks + [KindOf(b)])[..|ks|] == ks;
    OnlySpansSnoc(ks, KindOf(b));
    assert WellFormedPiece(grown);
    assert (init + [grown])[..|init|] == init;
  }

  lemma NewRunKinds(ps: seq<Piece>, ks: seq<Kind>, b: CodeBlock)
    requires SameKinds(ps, ks) && b.Span? && WellFormedSpan(b.span)
    requires ps == [] || ps[|ps| - 1].Other?
    ensures SameKinds(ps + [Run([b.span])], ks + [KindOf(b)])
  {
    assert (ks + [KindOf(b)])[..|ks|] == ks;
    OnlySpansSnoc(ks, KindOf(b));
    assert WellFormedPiece(Run([b.span]));
    PiecesLosslessSnoc(ps, Run([b.span]));
    assert (ps + [Run([b.span])])[..|ps|] == ps;
  }

  lemma OnlySpansSnoc(ks: seq<Kind>, k: Kind)
    ensures OnlySpans(ks + [k]) <==> OnlySpans(ks) && k.SpanKind?
  {
    if OnlySpans(ks + [k]) {
      forall i | 0 <= i < |ks|
        ensures ks[i].SpanKind?
      {
        assert (ks + [k])[i] == ks[i];
      }
      assert (ks + [k])[|ks|] == k;
    }
  }

  lemma {:induction false} PiecesKinds(bs: seq<CodeBlock>)
    requires SpansWellFormed(bs)
    ensures SameKinds(Pieces(bs), KindsOf(bs))
  {
    if bs != [] {
      var init, b := bs[..|bs| - 1], bs[|bs| - 1];
      PiecesKinds(init);
      AddToPiecesKinds(Pieces(init), KindsOf(init), b);
    }
  }

  lemma {:induction false} CombinedKinds(bs: seq<CodeBlock>)
    requires bs != [] && SpansWellFormed(bs)
    ensures KindOf(Combined(bs)) == CombinedKind(KindsOf(bs))
  {
    var ps, ks := Pieces(bs), KindsOf(bs);
    MergeRunsNonEmpty(bs);
    PiecesKinds(bs);
    MergePiecesLossless(ps);
    JoinTreeLossless(MergeRuns(bs));
    MergePiecesLength(ps);
    assert ps == ps[..|ps| - 1] + [ps[|ps| - 1]];
    if |ps| == 1 {
      assert ps[..0] == [];
      assert MergePieces(ps) == MergePieces([]) + [MergePiece(ps[0])] == [MergePiece(ps[0])];
      PieceLossless(ps[0]);
    }
  }

  lemma {:induction false} MergePiecesLength(ps: seq<Piece>)
    ensures |MergePieces(ps)| == |ps|
  {
    if ps != [] {
      MergePiecesLength(ps[..|ps| - 1]);
    }
  }

  // Kinds of compiled bodies

  lemma {:induction false} NodeKindsAgree(c: Code)
    requires ProperNode(c) && !c.Emit? && NodeBlocks(c).Ok?
    ensures KindsOf(NodeBlocks(c).value) == NodeKinds(c)
    decreases c, 0
  {
    match c
    case Inline(b) =>
      KindsOfOne(b);
    case IfElse(trueCase, falseCase) =>
      BodyKindAgrees(trueCase, NO_WRAPPER);
      if falseCase != [] {
        BodyKindAgrees(falseCase, NO_WRAPPER);
      }
      var onTrue := CompileBody(trueCase, NO_WRAPPER).value;
      var onFalse := if falseCase == [] then NOOP_BLOCK else CompileBody(falseCase, NO_WRAPPER).value;
      SplitKinds(onTrue, onFalse);
      assert NodeBlocks(c) == Ok([Split(onTrue, onFalse)]);
    case Repeat(times, body) =>
      BodyKindAgrees(body, NO_WRAPPER);
      KindsOfCopies(CompileBody(body, NO_WRAPPER).value, times);
    case While(body) =>
      BodyKindAgrees(body, NO_WRAPPER);
      LoopKinds(CompileBody(body, NO_WRAPPER).value);
  }

  lemma SplitKinds(onTrue: CodeBlock, onFalse: CodeBlock)
    ensures KindsOf([Split(onTrue, onFalse)]) == [OtherKind(LossFreeKind(KindOf(onTrue)) && LossFreeKind(KindOf(onFalse)))]
  {
    KindsOfOne(Split(onTrue, onFalse));
  }

  lemma LoopKinds(b: CodeBlock)
    ensures KindsOf([Loop(b)]) == [OtherKind(LossFreeKind(KindOf(b)))]
  {
    KindsOfOne(Loop(b));
  }

  lemma FlushKinds(blocks: seq<CodeBlock>, open: OpSpan)
    requires Flush(blocks, open).Ok?
    ensures KindsOf(Flush(blocks, open).value) == KindsOf(blocks) + ClosedKinds(open)
  {
    if open.ops != [] {
      KindsConcat(blocks, [Span(open)]);
      KindsOfOne(Span(open));
    }
  }

  lemma {:induction false} KindsAgree(nodes: seq<Code>, start: OpSpan)
    requires ProperBody(nodes) && CompileNodes(nodes, start).Ok?
    ensures KindsOf(CompileNodes(nodes, start).value.blocks) == Kinds(nodes, start)
    ensures CompileNodes(nodes, start).value.open == OpenAfter(nodes, start)
    decreases nodes, 0
  {
    if nodes != [] {
      var init, last := nodes[..|nodes| - 1], nodes[|nodes| - 1];
      KindsAgree(init, start);
      if !last.Emit? {
        var p := CompileNodes(init, start).value;
        FlushKinds(p.blocks, p.open);
        NodeKindsAgree(last);
        KindsConcat(Flush(p.blocks, p.open).value, NodeBlocks(last).value);
      }
    }
  }

  /** What the recursion over the body says of its MAST is so. */
  lemma {:induction false} BodyKindAgrees(nodes: seq<Code>, w: Wrapper)
    requires ProperBody(nodes) && CompileBody(nodes, w).Ok?
    ensures KindOf(CompileBody(nodes, w).value) == BodyKind(nodes, w)
    decreases nodes, 1
  {
    var start := OpSpan(w.prologue, []);
    KindsAgree(nodes, start);
    NodesProper(nodes, start);
    var p := CompileNodes(nodes, start).value;
    var last := Partial(p.blocks, OpSpan(p.open.ops + w.epilogue, p.open.decorators));
    FlushKinds(last.blocks, last.open);
    FlushProper(last);
    var blocks := Flush(last.blocks, last.open).value;
    if blocks != [] {
      CombinedKinds(blocks);
    }
  }

  /** A body is free of loss exactly if all spans of its MAST are tidy. */
  lemma LossFreeIff(nodes: seq<Code>, w: Wrapper)
    requires ProperBody(nodes) && CompileBody(nodes, w).Ok?
    ensures LossFree(nodes, w) <==> Lossless(CompileBody(nodes, w).value)
  {
    BodyKindAgrees(nodes, w);
  }

  // Correctness of execution

  /**
   Compiler correctness: if the last span of each run is tidy, executing the MAST of a body, on any
   machine, with any fuel and from any state, has the outcome of running prologue, body and epilogue
   directly.
   */
  lemma BodyRuns<S(!new)>(m: Machine<S>, t: Table, fuel: nat, nodes: seq<Code>, w: Wrapper, s: S)
    requires NoopIsIdentity(m)
    requires ProperBody(nodes) && Compilable(nodes, w) && LossFree(nodes, w)
    ensures CompileBody(nodes, w).Ok?
    ensures Exec(m, t, fuel, CompileBody(nodes, w).value, s) == RunWrapped(m, t, fuel, nodes, w, s)
  {
    BodyCompiles(nodes, w);
    LossFreeIff(nodes, w);
    BodyProper(nodes, w);
    LosslessRuns(m, t, fuel, CompileBody(nodes, w).value, s);
    BodyMeans(m, t, fuel, nodes, w, s);
  }

  /** The condition is exact: otherwise a lawful machine gets another outcome from some state. */
  lemma BodyLoses(nodes: seq<Code>, w: Wrapper, n: nat)
    requires ProperBody(nodes) && Compilable(nodes, w) && !LossFree(nodes, w)
    ensures CompileBody(nodes, w).Ok?
    ensures var b := CompileBody(nodes, w).value;
            var m, t, s := Scripted(Hashes(b)), ServingTable(b), Tape(Script(b), n);
            NoopIsIdentity(m) && Exec(m, t, 1, b, s) != RunWrapped(m, t, 1, nodes, w, s)
  {
    BodyCompiles(nodes, w);
    LossFreeIff(nodes, w);
    BodyProper(nodes, w);
    var b := CompileBody(nodes, w).value;
    LossyDiffers(b, n);
    BodyMeans(Scripted(Hashes(b)), ServingTable(b), 1, nodes, w, Tape(Script(b), n));
  }

  // Examples

  /** A lawful machine that counts the decorators it runs. */
  const COUNTING: Machine<nat> :=
    Machine((op, s) => Ok(s), (dec, s) => Ok(s + 1), s => 0, s => 0, (h, sys, s) => s, (parent, s) => Ok(s), {})

  lemma {:induction false} CountingRuns(items: seq<Item>, s: nat)
    ensures RunItems(COUNTING, items, s) == Done(s + DecCount(items))
  {
    if items != [] {
      CountingRuns(items[1..], if items[0].Dec? then s + 1 else s);
    }
  }

  lemma {:induction false} CombinedSingle(b: CodeBlock)
    ensures Combined([b]) == b
  {
    MergeRunsNonEmpty([b]);
    assert [b][..0] == [];
    assert Pieces([b]) == AddToPieces([], b);
    var p := if b.Span? then Run([b.span]) else Other(b);
    assert Pieces([b]) == [p];
    MergePiecesSnoc([], p);
    assert [] + [p] == [p];
    if b.Span? {
      MergedSingle(b.span);
    }
    assert MergeRuns([b]) == [b];
  }

  /** A body of one straight-line instruction. */
  lemma {:induction false} SingleInstruction<S>(m: Machine<S>, t: Table, fuel: nat, items: seq<Item>, s: S)
    ensures var open := Append(EMPTY, items);
            CompileBody([Emit(items)], NO_WRAPPER) ==
            if open.ops != [] then Ok(Span(open))
            else if open.decorators != [] then Err(DecoratorsInEmptySpan)
            else Ok(NOOP_BLOCK)
    ensures RunBody(m, t, fuel, [Emit(items)], s) == RunItems(m, items, s)
  {
    var nodes, open := [Emit(items)], Append(EMPTY, items);
    assert nodes[..0] == [];
    assert CompileNodes(nodes[..0], EMPTY) == Ok(Partial([], EMPTY));
    assert CompileNodes(nodes, EMPTY) == Ok(Partial([], open));
    assert open.ops + [] == open.ops;
    assert OpSpan(open.ops, open.decorators) == open;
    if open.ops != [] {
      assert [] + [Span(open)] == [Span(open)];
      CombinedSingle(Span(open));
    }
    assert RunBody(m, t, fuel, nodes[..0], s) == Done(s);
  }

  /** An empty body, and a missing else, are a span with one NOOP. */
  lemma EmptyBodies(trueCase: seq<Code>)
    ensures CompileBody([], NO_WRAPPER) == Ok(Span(OpSpan([Noop], [])))
    ensures CompileBody(trueCase, NO_WRAPPER).Ok? ==>
              NodeBlocks(IfElse(trueCase, [])) == Ok([Split(CompileBody(trueCase, NO_WRAPPER).value, Span(OpSpan([Noop], [])))])
  {
    assert CompileNodes([], OpSpan([], [])) == Ok(Partial([], OpSpan([], [])));
  }

  /** A body of one block. */
  lemma SingleInline(b: CodeBlock)
    ensures CompileBody([Inline(b)], NO_WRAPPER) == Ok(b)
  {
    var nodes := [Inline(b)];
    assert nodes[..0] == [];
    assert CompileNodes(nodes[..0], EMPTY) == Ok(Partial([], EMPTY));
    assert Flush([], EMPTY) == Ok([]);
    assert NodeBlocks(Inline(b)) == Ok([b]);
    assert [] + [b] == [b];
    assert CompileNode(Partial([], EMPTY), Inline(b)) == Ok(Partial([b], EMPTY));
    assert CompileNodes(nodes, EMPTY) == Ok(Partial([b], EMPTY));
    assert OpSpan(EMPTY.ops + [], EMPTY.decorators) == EMPTY;
    assert Flush([b], EMPTY) == Ok([b]);
    CombinedSingle(b);
    assert Finish(Partial([b], EMPTY), []) == Ok(b);
    assert CompileNodes(nodes, OpSpan(NO_WRAPPER.prologue, [])) == Ok(Partial([b], EMPTY));
  }

  lemma {:induction false} TwoTrailing(op: Operation, d0: Decorator, d1: Decorator)
    ensures Append(EMPTY, [Op(op), Dec(d0), Dec(d1)]) == OpSpan([op], [(1, d0), (1, d1)])
    ensures Linear([op], 0, [(1, d0), (1, d1)]) == [Op(op), Dec(d0)]
  {
    var items: seq<Item> := [];
    AppendSnoc(EMPTY, items, Op(op));
    AppendSnoc(EMPTY, items + [Op(op)], Dec(d0));
    AppendSnoc(EMPTY, items + [Op(op)] + [Dec(d0)], Dec(d1));
    assert [Op(op), Dec(d0), Dec(d1)] == items + [Op(op)] + [Dec(d0)] + [Dec(d1)];
    assert [op][1..] == [];
  }

  lemma DecCountOfTwo(op: Operation, d0: Decorator, d1: Decorator)
    ensures DecCount([Op(op), Dec(d0)]) == 1
    ensures DecCount([Op(op), Dec(d0), Dec(d1)]) == 2
  {
    var one: seq<Item>, two: seq<Item> := [Dec(d1)], [Dec(d0), Dec(d1)];
    assert one[1..] == [] && DecCount(one) == 1;
    assert two[1..] == one && DecCount(two) == 2;
    var last: seq<Item> := [Dec(d0)];
    assert last[1..] == [] && DecCount(last) == 1;
    assert [Op(op), Dec(d0)][1..] == last;
    assert [Op(op), Dec(d0), Dec(d1)][1..] == two;
  }

  /** Two decorators at the end of a body: the second one is never executed. */
  lemma UntidyBodyLosesDecorator(op: Operation, d0: Decorator, d1: Decorator, fuel: nat, s: nat)
    ensures var nodes := [Emit([Op(op), Dec(d0), Dec(d1)])];
            && CompileBody(nodes, NO_WRAPPER).Ok?
            && Exec(COUNTING, map[], fuel, CompileBody(nodes, NO_WRAPPER).value, s) == Done(s + 1)
            && RunBody(COUNTING, map[], fuel, nodes, s) == Done(s + 2)
  {
    var items := [Op(op), Dec(d0), Dec(d1)];
    SingleInstruction(COUNTING, map[], fuel, items, s);
    TwoTrailing(op, d0, d1);
    CountingRuns(items, s);
    CountingRuns([Op(op), Dec(d0)], s);
    DecCountOfTwo(op, d0, d1);
  }

  /** A body of decorators only cannot be compiled: the assembler panics. */
  lemma DecoratorsAlonePanic(dec: Decorator)
    ensures CompileBody([Emit([Dec(dec)])], NO_WRAPPER) == Err(DecoratorsInEmptySpan)
  {
    SingleInstruction(COUNTING, map[], 0, [Dec(dec)], 0);
    AppendSnoc(EMPTY, [], Dec(dec));
    assert [] + [Dec(dec)] == [Dec(dec)];
  }

  /** Nothing is lost if more operations follow in the same run, as after a repeated body. */
  lemma MergedTailIsKept(a: Operation, c: Operation, d0: Decorator, d1: Decorator)
    ensures var nodes := [Repeat(1, [Emit([Op(a), Dec(d0), Dec(d1)])]), Emit([Op(c)])];
            Compilable(nodes, NO_WRAPPER) && LossFree(nodes, NO_WRAPPER)
  {
    var inner := [Emit([Op(a), Dec(d0), Dec(d1)])];
    SingleInstruction(COUNTING, map[], 0, [Op(a), Dec(d0), Dec(d1)], 0);
    TwoTrailing(a, d0, d1);
    BodyCompiles(inner, NO_WRAPPER);
    BodyKindAgrees(inner, NO_WRAPPER);
    RepeatThenEmit(inner, c);
  }

  /** A body that compiles to a span, run once, and one more operation. */
  lemma RepeatThenEmit(inner: seq<Code>, c: Operation)
    requires Compilable(inner, NO_WRAPPER) && BodyKind(inner, NO_WRAPPER).SpanKind?
    ensures var nodes := [Repeat(1, inner), Emit([Op(c)])];
            Compilable(nodes, NO_WRAPPER) && LossFree(nodes, NO_WRAPPER)
  {
    var first, last := Repeat(1, inner), Emit([Op(c)]);
    var nodes, kind := [first, last], BodyKind(inner, NO_WRAPPER);
    assert nodes[..1] == [first] && [first][..0] == [];
    assert OpenAfter([first], EMPTY) == EMPTY && CompilableNode(first);
    assert CompilableNodes([first][..0], EMPTY) && OpenAfter([first][..0], EMPTY) == EMPTY;
    assert CompilableNodes([first], EMPTY);
    assert Copies(kind, 1) == Copies(kind, 0) + [kind] == [kind];
    assert Kinds([first], EMPTY) == Kinds([], EMPTY) + ClosedKinds(EMPTY) + [kind] == [kind];
    AppendSnoc(EMPTY, [], Op(c));
    assert [] + [Op(c)] == [Op(c)];
    var open := OpenAfter(nodes, EMPTY);
    assert open == OpSpan([c], []) && open.ops + [] == open.ops;
    assert Kinds(nodes, EMPTY) == [kind];
    assert [kind] + ClosedKinds(OpSpan([c], [])) == [kind, SpanKind(true)];
  }
}
