/** Abstract syntax of programs and modules, and how instructions are lowered. */
module Syntax {
  import opened Results
  import opened Mast
  import opened SpanBuilding
  import opened ProcedureCaching
  import opened AssemblyContexts
  import BodyCompiler

  /**
   Instructions that emit straight-line items (`Primitive`, whatever their lowering is), the two
   debug instructions, and the ones that invoke code.
   */
  datatype Instruction =
    | Primitive(items: seq<Item>)
    | Rejected
    | Breakpoint
    | DebugPrint(options: nat)
    | ExecLocal(idx: nat)
    | ExecImported(id: ProcId)
    | CallLocal(idx: nat)
    | CallMastRoot(root: Digest)
    | CallImported(id: ProcId)
    | SysCall(id: ProcId)
    | DynExec
    | DynCall

  datatype Node =
    | Instr(tag: Label, instruction: Instruction)
    | IfElse(trueCase: seq<Node>, falseCase: seq<Node>)
    | Repeat(times: nat, body: seq<Node>)
    | While(body: seq<Node>)

  datatype ProcedureAst = ProcedureAst(name: string, isExport: bool, numLocals: nat, body: seq<Node>)

  datatype ProcReExport = ProcReExport(name: string, procId: ProcId)

  datatype ModuleAst = ModuleAst(reexportedProcs: seq<ProcReExport>, procs: seq<ProcedureAst>)

  datatype Module = Module(path: Path, ast: ModuleAst)

  datatype ProgramAst = ProgramAst(procs: seq<ProcedureAst>, body: seq<Node>)

  // Sizes, for termination

  function NodeSize(n: Node): nat
    decreases n, 0
  {
    match n
    case Instr(_, _) => 1
    case IfElse(trueCase, falseCase) => 1 + NodesSize(trueCase) + NodesSize(falseCase)
    case Repeat(_, body) => 1 + NodesSize(body)
    case While(body) => 1 + NodesSize(body)
  }

  function NodesSize(nodes: seq<Node>): nat
    decreases nodes, 1
  {
    if nodes == [] then 0 else NodesSize(nodes[..|nodes| - 1]) + NodeSize(nodes[|nodes| - 1]) + 1
  }

  lemma {:induction false} NodeSmaller(nodes: seq<Node>, i: nat)
    requires i < |nodes|
    ensures NodeSize(nodes[i]) < NodesSize(nodes)
  {
    if i < |nodes| - 1 {
      NodeSmaller(nodes[..|nodes| - 1], i);
    }
  }

  function ProcsSize(procs: seq<ProcedureAst>): nat {
    if procs == [] then 0 else ProcsSize(procs[..|procs| - 1]) + NodesSize(procs[|procs| - 1].body) + 1
  }

  lemma {:induction false} ProcSmaller(procs: seq<ProcedureAst>, i: nat)
    requires i < |procs|
    ensures NodesSize(procs[i].body) < ProcsSize(procs)
  {
    if i < |procs| - 1 {
      ProcSmaller(procs[..|procs| - 1], i);
    }
  }

  // Lowering

  /** What instructions are lowered against: earlier procedures of the module and the cache. */
  datatype Known = Known(debug: bool, hash: Hash, locals: seq<NamedProcedure>, cache: Cache)

  ghost predicate ValidKnown(k: Known) {
    ValidCache(k.hash, k.cache)
  }

  /** Inlines a procedure's code, or calls its root. */
  function Invocation(hash: Hash, p: Procedure, inlined: bool, isSyscall: bool): CodeBlock {
    if inlined then p.code else Call(hash(p.code), isSyscall)
  }

  ghost function LowerImported(k: Known, id: ProcId, inlined: bool, isSyscall: bool): Option<BodyCompiler.Code>
    requires ValidKnown(k)
  {
    match Lookup(k.hash, k.cache, id)
    case Some(p) => Some(BodyCompiler.Inline(Invocation(k.hash, p, inlined, isSyscall)))
    case None => None
  }

  ghost function LowerLocal(k: Known, idx: nat, inlined: bool): Option<BodyCompiler.Code> {
    if idx < |k.locals| then Some(BodyCompiler.Inline(Invocation(k.hash, k.locals[idx].procedure, inlined, false))) else None
  }

  /** Straight-line items of an instruction that has some. */
  function Emitted(debug: bool, tag: Label, i: Instruction): seq<Item>
    requires i.Primitive? || i.Breakpoint? || i.DebugPrint?
  {
    match i
    case Primitive(items) => Tracked(debug, tag, items)
    case Breakpoint => SpanBuilding.Breakpoint(debug, tag)
    case DebugPrint(options) => if debug then [Dec(Debug(options))] else []
  }

  ghost function LowerInstruction(k: Known, tag: Label, i: Instruction): Option<BodyCompiler.Code>
    requires ValidKnown(k)
  {
    match i
    case Primitive(_) => Some(BodyCompiler.Emit(Emitted(k.debug, tag, i)))
    case Breakpoint => Some(BodyCompiler.Emit(Emitted(k.debug, tag, i)))
    case DebugPrint(_) => Some(BodyCompiler.Emit(Emitted(k.debug, tag, i)))
    case Rejected => None
    case ExecLocal(idx) => LowerLocal(k, idx, true)
    case CallLocal(idx) => LowerLocal(k, idx, false)
    case ExecImported(id) => LowerImported(k, id, true, false)
    case CallImported(id) => LowerImported(k, id, false, false)
    case SysCall(id) => LowerImported(k, id, false, true)
    case CallMastRoot(root) => Some(BodyCompiler.Inline(Call(root, false)))
    case DynExec => Some(BodyCompiler.Inline(Dyn))
    case DynCall => Some(BodyCompiler.Inline(Call(DYN_HASH, false)))
  }

  ghost function LowerNode(k: Known, n: Node): Option<BodyCompiler.Code>
    requires ValidKnown(k)
    decreases n, 0
  {
    match n
    case Instr(tag, i) => LowerInstruction(k, tag, i)
    case IfElse(trueCase, falseCase) =>
      var t, f := LowerNodes(k, trueCase), LowerNodes(k, falseCase);
      if t.Some? && f.Some? then Some(BodyCompiler.IfElse(t.value, f.value)) else None
    case Repeat(times, body) =>
      var b := LowerNodes(k, body);
      if b.Some? then Some(BodyCompiler.Repeat(times, b.value)) else None
    case While(body) =>
      var b := LowerNodes(k, body);
      if b.Some? then Some(BodyCompiler.While(b.value)) else None
  }

  /** The body with every instruction replaced by what it stands for. */
  ghost function LowerNodes(k: Known, nodes: seq<Node>): (r: Option<seq<BodyCompiler.Code>>)
    requires ValidKnown(k)
    ensures r.Some? ==> |r.value| == |nodes|
    decreases nodes, 1
  {
    if nodes == [] then Some([]) else
      var init, last := LowerNodes(k, nodes[..|nodes| - 1]), LowerNode(k, nodes[|nodes| - 1]);
      if init.Some? && last.Some? then Some(init.value + [last.value]) else None
  }

  /** As the cache grows, instructions that could be lowered are lowered to the same code. */
  lemma {:induction false} LowerNodesStable(k: Known, c: Cache, nodes: seq<Node>)
    requires ValidKnown(k) && ValidCache(k.hash, c) && Extends(k.cache, c)
    ensures LowerNodes(k, nodes).Some? ==> LowerNodes(k.(cache := c), nodes) == LowerNodes(k, nodes)
    decreases nodes, 1
  {
    if nodes != [] {
      LowerNodesStable(k, c, nodes[..|nodes| - 1]);
      LowerNodeStable(k, c, nodes[|nodes| - 1]);
    }
  }

  lemma {:induction false} LowerNodeStable(k: Known, c: Cache, n: Node)
    requires ValidKnown(k) && ValidCache(k.hash, c) && Extends(k.cache, c)
    ensures LowerNode(k, n).Some? ==> LowerNode(k.(cache := c), n) == LowerNode(k, n)
    decreases n, 0
  {
    match n
    case Instr(_, i) =>
      match i {
        case ExecImported(id) => LookupStable(k.hash, k.cache, c, id);
        case CallImported(id) => LookupStable(k.hash, k.cache, c, id);
        case SysCall(id) => LookupStable(k.hash, k.cache, c, id);
        case _ =>
      }
    case IfElse(trueCase, falseCase) =>
      LowerNodesStable(k, c, trueCase);
      LowerNodesStable(k, c, falseCase);
    case Repeat(_, body) =>
      LowerNodesStable(k, c, body);
    case While(body) =>
      LowerNodesStable(k, c, body);
  }

  // What can be compiled

  /** Whether calls are forbidden, as in a kernel, and whether code that is not cached may be called by its root. */
  datatype Rules = Rules(isKernel: bool, allowPhantoms: bool)

  /** After `n` procedures of its module and against a cache, an instruction can be compiled. */
  predicate Accepts(n: nat, c: Cache, rules: Rules, i: Instruction) {
    match i
    case Rejected => false
    case ExecLocal(idx) => idx < n
    case CallLocal(idx) => idx < n && !rules.isKernel
    case ExecImported(id) => Contains(c, id)
    case CallImported(id) => Contains(c, id) && !rules.isKernel
    case SysCall(id) => Contains(c, id) && !rules.isKernel
    case CallMastRoot(root) => if root in c.procedures then !rules.isKernel else rules.allowPhantoms
    case _ => true
  }

  predicate AcceptsNode(n: nat, c: Cache, rules: Rules, node: Node)
    decreases node, 0
  {
    match node
    case Instr(_, i) => Accepts(n, c, rules, i)
    case IfElse(trueCase, falseCase) => AcceptsAll(n, c, rules, trueCase) && AcceptsAll(n, c, rules, falseCase)
    case Repeat(_, body) => AcceptsAll(n, c, rules, body)
    case While(body) => AcceptsAll(n, c, rules, body)
  }

  predicate AcceptsAll(n: nat, c: Cache, rules: Rules, nodes: seq<Node>)
    decreases nodes, 1
  {
    nodes != [] ==> AcceptsAll(n, c, rules, nodes[..|nodes| - 1]) && AcceptsNode(n, c, rules, nodes[|nodes| - 1])
  }

  /** A body can be lowered exactly if it can be compiled outside a kernel with phantom calls allowed. */
  lemma {:induction false} LowersIff(k: Known, nodes: seq<Node>)
    requires ValidKnown(k)
    ensures LowerNodes(k, nodes).Some? <==> AcceptsAll(|k.locals|, k.cache, Rules(false, true), nodes)
    decreases nodes, 1
  {
    if nodes != [] {
      LowersIff(k, nodes[..|nodes| - 1]);
      LowersNodeIff(k, nodes[|nodes| - 1]);
    }
  }

  lemma {:induction false} LowersNodeIff(k: Known, n: Node)
    requires ValidKnown(k)
    ensures LowerNode(k, n).Some? <==> AcceptsNode(|k.locals|, k.cache, Rules(false, true), n)
    decreases n, 0
  {
    match n
    case Instr(_, i) =>
      match i {
        case ExecImported(id) => LookupStable(k.hash, k.cache, k.cache, id);
        case CallImported(id) => LookupStable(k.hash, k.cache, k.cache, id);
        case SysCall(id) => LookupStable(k.hash, k.cache, k.cache, id);
        case _ =>
      }
    case IfElse(trueCase, falseCase) =>
      LowersIff(k, trueCase);
      LowersIff(k, falseCase);
    case Repeat(_, body) =>
      LowersIff(k, body);
    case While(body) =>
      LowersIff(k, body);
  }

  /** Stricter rules accept no more. */
  lemma {:induction false} AcceptedAnyway(n: nat, c: Cache, rules: Rules, nodes: seq<Node>)
    requires AcceptsAll(n, c, rules, nodes)
    ensures AcceptsAll(n, c, Rules(false, true), nodes)
    decreases nodes, 1
  {
    if nodes != [] {
      AcceptedAnyway(n, c, rules, nodes[..|nodes| - 1]);
      AcceptedNodeAnyway(n, c, rules, nodes[|nodes| - 1]);
    }
  }

  lemma {:induction false} AcceptedNodeAnyway(n: nat, c: Cache, rules: Rules, node: Node)
    requires AcceptsNode(n, c, rules, node)
    ensures AcceptsNode(n, c, Rules(false, true), node)
    decreases node, 0
  {
    match node
    case Instr(_, _) =>
    case IfElse(trueCase, falseCase) =>
      AcceptedAnyway(n, c, rules, trueCase);
      AcceptedAnyway(n, c, rules, falseCase);
    case Repeat(_, body) =>
      AcceptedAnyway(n, c, rules, body);
    case While(body) =>
      AcceptedAnyway(n, c, rules, body);
  }

  /** The items and the control structure of a node, whatever the code it invokes. */
  function Outline(debug: bool, n: Node): BodyCompiler.Code
    decreases n, 0
  {
    match n
    case Instr(tag, i) =>
      if i.Primitive? || i.Breakpoint? || i.DebugPrint? then BodyCompiler.Emit(Emitted(debug, tag, i)) else BodyCompiler.Inline(Dyn)
    case IfElse(trueCase, falseCase) => BodyCompiler.IfElse(Outlines(debug, trueCase), Outlines(debug, falseCase))
    case Repeat(times, body) => BodyCompiler.Repeat(times, Outlines(debug, body))
    case While(body) => BodyCompiler.While(Outlines(debug, body))
  }

  function Outlines(debug: bool, nodes: seq<Node>): (code: seq<BodyCompiler.Code>)
    ensures |code| == |nodes|
    decreases nodes, 1
  {
    if nodes == [] then [] else Outlines(debug, nodes[..|nodes| - 1]) + [Outline(debug, nodes[|nodes| - 1])]
  }

  /** No span of decorators only has to be closed; this does not depend on the code invoked. */
  lemma {:induction false} OutlineCompilable(k: Known, nodes: seq<Node>, w: Wrapper)
    requires ValidKnown(k) && LowerNodes(k, nodes).Some?
    ensures BodyCompiler.Compilable(LowerNodes(k, nodes).value, w) <==> BodyCompiler.Compilable(Outlines(k.debug, nodes), w)
    decreases nodes, 2
  {
    OutlinesCompilable(k, nodes, OpSpan(w.prologue, []));
  }

  lemma {:induction false} OutlinesCompilable(k: Known, nodes: seq<Node>, start: OpSpan)
    requires ValidKnown(k) && LowerNodes(k, nodes).Some?
    ensures BodyCompiler.CompilableNodes(LowerNodes(k, nodes).value, start) <==> BodyCompiler.CompilableNodes(Outlines(k.debug, nodes), start)
    ensures BodyCompiler.OpenAfter(LowerNodes(k, nodes).value, start) == BodyCompiler.OpenAfter(Outlines(k.debug, nodes), start)
    decreases nodes, 1
  {
    if nodes != [] {
      var init, last := nodes[..|nodes| - 1], nodes[|nodes| - 1];
      OutlinesCompilable(k, init, start);
      OutlineNodeCompilable(k, last);
      var code, outline := LowerNodes(k, nodes).value, Outlines(k.debug, nodes);
      assert code[..|code| - 1] == LowerNodes(k, init).value && outline[..|outline| - 1] == Outlines(k.debug, init);
    }
  }

  lemma {:induction false} OutlineNodeCompilable(k: Known, n: Node)
    requires ValidKnown(k) && LowerNode(k, n).Some?
    ensures var code, outline := LowerNode(k, n).value, Outline(k.debug, n);
            && (BodyCompiler.CompilableNode(code) <==> BodyCompiler.CompilableNode(outline))
            && (code.Emit? <==> outline.Emit?) && (code.Emit? ==> code == outline)
    decreases n, 0
  {
    match n
    case Instr(_, _) =>
    case IfElse(trueCase, falseCase) =>
      OutlineCompilable(k, trueCase, NO_WRAPPER);
      OutlineCompilable(k, falseCase, NO_WRAPPER);
    case Repeat(_, body) =>
      OutlineCompilable(k, body, NO_WRAPPER);
    case While(body) =>
      OutlineCompilable(k, body, NO_WRAPPER);
  }

  /** The block is what the body compiler makes of the lowered body. */
  ghost predicate CompiledFrom(k: Known, nodes: seq<Node>, w: Wrapper, b: CodeBlock) {
    forall i: nat :: Asked(i) ==>
      && ValidKnown(k)
      && LowerNodes(k, nodes).Some?
      && BodyCompiler.CompileBody(LowerNodes(k, nodes).value, w) == Ok(b)
  }

  /** Procedures with locals move the frame pointer before and after their body. */
  function LocalsWrapper(numLocals: nat): Wrapper {
    if numLocals == 0 then NO_WRAPPER
    else
      var n: Felt := numLocals % MODULUS;
      Wrapper([Push(n), FmpUpdate], [Push(Neg(n)), FmpUpdate])
  }
}
