/**
 Programs as their source says: a procedure, local or imported, means its own body, run in place by
 `exec` and in a new context by `call`. Executing a compiled program does the same, if the code found
 under the roots of the procedures that are called or imported does what these procedures say.
 */
module SourceMeaning {
  import opened Results
  import opened Mast
  import opened Execution
  import opened SpanBuilding
  import opened BodyCompiler
  import opened DecoratorErasure
  import opened ProcedureCaching
  import opened AssemblyContexts
  import Syntax
  import opened Assembling
  import opened CodeLikeness

  // Libraries

  /** A module or a program: the sources of its procedures and what they are compiled to. */
  datatype Unit = Unit(locals: seq<NamedProcedure>, procs: seq<Syntax.ProcedureAst>)

  /** Where a procedure is: in which unit, and which one of its procedures. */
  datatype Place = Place(unit: nat, idx: nat)

  /** Compiled units in order, the cache they are compiled into, and where imported ids come from. */
  datatype Library = Library(debug: bool, hash: Hash, cache: Cache, units: seq<Unit>, origin: map<ProcId, Place>)

  ghost predicate ValidLibrary(lib: Library) {
    && ValidCache(lib.hash, lib.cache)
    && forall u :: 0 <= u < |lib.units| ==> |lib.units[u].locals| == |lib.units[u].procs|
  }

  ghost predicate IsPlace(lib: Library, p: Place) {
    ValidLibrary(lib) && p.unit < |lib.units| && p.idx < |lib.units[p.unit].procs|
  }

  ghost function ProcAt(lib: Library, p: Place): Syntax.ProcedureAst
    requires IsPlace(lib, p)
  {
    lib.units[p.unit].procs[p.idx]
  }

  ghost function CodeAt(lib: Library, p: Place): CodeBlock
    requires IsPlace(lib, p)
  {
    lib.units[p.unit].locals[p.idx].procedure.code
  }

  ghost function RootAt(lib: Library, p: Place): Digest
    requires IsPlace(lib, p)
  {
    lib.hash(CodeAt(lib, p))
  }

  /** A place in the source: a unit, of which the first procedures are known. */
  datatype Context = Context(lib: Library, unit: nat, known: nat)

  ghost predicate InLibrary(cx: Context) {
    ValidLibrary(cx.lib) && cx.unit < |cx.lib.units| && cx.known <= |cx.lib.units[cx.unit].procs|
  }

  ghost function KnownIn(cx: Context): Syntax.Known
    requires InLibrary(cx)
  {
    Syntax.Known(cx.lib.debug, cx.lib.hash, cx.lib.units[cx.unit].locals[..cx.known], cx.lib.cache)
  }

  /** The context of a procedure's body: only the procedures before it are known. */
  function Inside(lib: Library, p: Place): Context {
    Context(lib, p.unit, p.idx)
  }

  /**
   The procedure that an instruction invokes: a local one known here, or an imported one from a unit
   before this one.
   */
  ghost function Invoked(cx: Context, i: Syntax.Instruction): (p: Option<Place>)
    requires InLibrary(cx)
    ensures p.Some? ==> IsPlace(cx.lib, p.value)
    ensures p.Some? ==> p.value.unit < cx.unit || (p.value.unit == cx.unit && p.value.idx < cx.known)
  {
    match i
    case ExecLocal(idx) => if idx < cx.known then Some(Place(cx.unit, idx)) else None
    case CallLocal(idx) => if idx < cx.known then Some(Place(cx.unit, idx)) else None
    case ExecImported(id) => Imported(cx, id)
    case CallImported(id) => Imported(cx, id)
    case SysCall(id) => Imported(cx, id)
    case _ => None
  }

  ghost function Imported(cx: Context, id: ProcId): (p: Option<Place>)
    requires InLibrary(cx)
    ensures p.Some? ==> id in cx.lib.origin && p.value == cx.lib.origin[id] && IsPlace(cx.lib, p.value) && p.value.unit < cx.unit
  {
    if id in cx.lib.origin && IsPlace(cx.lib, cx.lib.origin[id]) && cx.lib.origin[id].unit < cx.unit then Some(cx.lib.origin[id]) else None
  }

  // Direct execution of the source

  ghost function RunSource<S>(m: Machine<S>, t: Table, fuel: nat, cx: Context, nodes: seq<Syntax.Node>, s: S): Outcome<S>
    requires InLibrary(cx)
    decreases fuel, cx.unit, cx.known, Syntax.NodesSize(nodes), 0, 0
  {
    if nodes == [] then Done(s) else
      var s1 :- RunSource(m, t, fuel, cx, nodes[..|nodes| - 1], s);
      RunSourceNode(m, t, fuel, cx, nodes[|nodes| - 1], s1)
  }

  ghost function RunSourceNode<S>(m: Machine<S>, t: Table, fuel: nat, cx: Context, n: Syntax.Node, s: S): Outcome<S>
    requires InLibrary(cx)
    decreases fuel, cx.unit, cx.known, Syntax.NodeSize(n), 0, 0
  {
    match n
    case Instr(tag, i) => RunInstruction(m, t, fuel, cx, tag, i, s)
    case IfElse(trueCase, falseCase) =>
      var s1 :- PopTop(m, s);
      if m.peek(s) == ONE then RunSource(m, t, fuel, cx, trueCase, s1)
      else if m.peek(s) == ZERO then RunSource(m, t, fuel, cx, falseCase, s1)
      else Failed(NotBinaryValue(m.peek(s)))
    case Repeat(times, body) => RunSourceTimes(m, t, fuel, cx, times, body, s)
    case While(body) =>
      var s1 :- PopTop(m, s);
      if m.peek(s) == ONE then
        var s2 :- RunSource(m, t, fuel, cx, body, s1);
        RunSourceWhile(m, t, fuel, cx, body, s2)
      else if m.peek(s) == ZERO then Done(s1)
      else Failed(NotBinaryValue(m.peek(s)))
  }

  ghost function RunSourceTimes<S>(m: Machine<S>, t: Table, fuel: nat, cx: Context, times: nat, body: seq<Syntax.Node>, s: S): Outcome<S>
    requires InLibrary(cx)
    decreases fuel, cx.unit, cx.known, Syntax.NodesSize(body), 1, times
  {
    if times == 0 then Done(s) else
      var s1 :- RunSourceTimes(m, t, fuel, cx, times - 1, body, s);
      RunSource(m, t, fuel, cx, body, s1)
  }

  ghost function RunSourceWhile<S>(m: Machine<S>, t: Table, fuel: nat, cx: Context, body: seq<Syntax.Node>, s: S): Outcome<S>
    requires InLibrary(cx)
    decreases fuel, cx.unit, cx.known, Syntax.NodesSize(body), 1, 0
  {
    var s1 :- PopTop(m, s);
    if m.peek(s) != ONE then Done(s1)
    else if fuel == 0 then OutOfFuel
    else
      var s2 :- RunSource(m, t, fuel - 1, cx, body, s1);
      RunSourceWhile(m, t, fuel - 1, cx, body, s2)
  }

  /** How many of the items are operations. */
  function NumOps(items: seq<Item>): nat {
    if items == [] then 0 else (if items[0].Op? then 1 else 0) + NumOps(items[1..])
  }

  /**
   A procedure whose source is in the library is run from there; other code, called by root or from
   elsewhere, is what it is compiled to. In debug mode an instruction with operations is announced by
   a tracking decorator, and breakpoints and debug prints do something.
   */
  ghost function RunInstruction<S>(m: Machine<S>, t: Table, fuel: nat, cx: Context, tag: Label, i: Syntax.Instruction, s: S): Outcome<S>
    requires InLibrary(cx)
    decreases fuel, cx.unit, cx.known, 0, 0, 0
  {
    match Invoked(cx, i)
    case Some(p) =>
      if i.ExecLocal? || i.ExecImported? then RunProcedure(m, t, fuel, cx.lib, p, s)
      else RunCall(m, t, fuel, cx.lib, p, i.SysCall?, s)
    case None => RunOther(m, t, fuel, cx.lib, tag, i, s)
  }

  ghost function RunOther<S>(m: Machine<S>, t: Table, fuel: nat, lib: Library, tag: Label, i: Syntax.Instruction, s: S): Outcome<S>
    requires ValidLibrary(lib)
  {
    match i
    case Primitive(items) =>
      var n := NumOps(items);
      var s1 :- if lib.debug && n > 0 then FromStep(m.decorate(AsmOp(tag, n % 256), s)) else Done(s);
      RunItems(m, items, s1)
    case Breakpoint =>
      if !lib.debug then Done(s)
      else
        var s1 :- FromStep(m.decorate(AsmOp(tag, 0), s));
        FromStep(m.step(Noop, s1))
    case DebugPrint(options) => if lib.debug then FromStep(m.decorate(Debug(options), s)) else Done(s)
    case CallMastRoot(root) => RunRoot(m, t, fuel, root, false, s)
    case DynExec =>
      var root := m.topWord(s);
      if root !in t then Failed(DynamicCodeBlockNotFound(root))
      else if fuel == 0 then OutOfFuel
      else Exec(m, t, fuel - 1, t[root], s)
    case DynCall => RunRoot(m, t, fuel, DYN_HASH, false, s)
    case ExecImported(id) =>
      (match Lookup(lib.hash, lib.cache, id)
       case Some(p) => Meaning(m, t, fuel, p.code, s)
       case None => Failed(UnexecutableCodeBlock))
    case CallImported(id) =>
      (match Lookup(lib.hash, lib.cache, id)
       case Some(p) => RunRoot(m, t, fuel, lib.hash(p.code), false, s)
       case None => Failed(UnexecutableCodeBlock))
    case SysCall(id) =>
      (match Lookup(lib.hash, lib.cache, id)
       case Some(p) => RunRoot(m, t, fuel, lib.hash(p.code), true, s)
       case None => Failed(UnexecutableCodeBlock))
    case _ => Failed(UnexecutableCodeBlock)
  }

  /**
   A call of the code with a root, in a context of its own. The root of DYN stands for the root on
   top of the stack.
   */
  ghost function RunRoot<S>(m: Machine<S>, t: Table, fuel: nat, h: Digest, isSyscall: bool, s: S): Outcome<S> {
    var s1 := m.enter(h, isSyscall, s);
    var root := if h == DYN_HASH then m.topWord(s1) else h;
    if isSyscall && h !in m.kernel then Failed(SyscallTargetNotInKernel(h))
    else if root !in t then Failed(if h == DYN_HASH then DynamicCodeBlockNotFound(root) else CodeBlockNotFound(root))
    else if fuel == 0 then OutOfFuel
    else
      var s2 :- Exec(m, t, fuel - 1, t[root], s1);
      FromStep(m.leave(s, s2))
  }

  /** Prologue, body and epilogue of a procedure. */
  ghost function RunProcedure<S>(m: Machine<S>, t: Table, fuel: nat, lib: Library, p: Place, s: S): Outcome<S>
    requires IsPlace(lib, p)
    decreases fuel, p.unit, p.idx, Syntax.NodesSize(ProcAt(lib, p).body), 1, 0
  {
    var w := Syntax.LocalsWrapper(ProcAt(lib, p).numLocals);
    var s1 :- RunItems(m, AsItems(w.prologue), s);
    var s2 :- RunSource(m, t, fuel, Inside(lib, p), ProcAt(lib, p).body, s1);
    RunItems(m, AsItems(w.epilogue), s2)
  }

  /** A call switches the context, which knows the callee by its root, and back. */
  ghost function RunCall<S>(m: Machine<S>, t: Table, fuel: nat, lib: Library, p: Place, isSyscall: bool, s: S): Outcome<S>
    requires IsPlace(lib, p)
    decreases fuel, p.unit, p.idx, Syntax.NodesSize(ProcAt(lib, p).body), 2, 0
  {
    var h := RootAt(lib, p);
    var s1 := m.enter(h, isSyscall, s);
    if h == DYN_HASH then RunRoot(m, t, fuel, h, isSyscall, s)
    else if isSyscall && h !in m.kernel then Failed(SyscallTargetNotInKernel(h))
    else if h !in t then Failed(CodeBlockNotFound(h))
    else if fuel == 0 then OutOfFuel
    else
      var s2 :- RunProcedure(m, t, fuel - 1, lib, p, s1);
      FromStep(m.leave(s, s2))
  }

  // Which procedures are invoked by their roots

  /** How a procedure is invoked other than by inlining its own code. */
  datatype Use = ByCall(place: Place) | ByImport(place: Place)

  /** All uses a body leads to. */
  ghost function Uses(cx: Context, nodes: seq<Syntax.Node>): set<Use>
    requires InLibrary(cx)
    decreases cx.unit, cx.known, Syntax.NodesSize(nodes), 0
  {
    if nodes == [] then {} else Uses(cx, nodes[..|nodes| - 1]) + NodeUses(cx, nodes[|nodes| - 1])
  }

  ghost function NodeUses(cx: Context, n: Syntax.Node): set<Use>
    requires InLibrary(cx)
    decreases cx.unit, cx.known, Syntax.NodeSize(n), 0
  {
    match n
    case Instr(_, i) => InstructionUses(cx, i)
    case IfElse(trueCase, falseCase) => Uses(cx, trueCase) + Uses(cx, falseCase)
    case Repeat(_, body) => Uses(cx, body)
    case While(body) => Uses(cx, body)
  }

  ghost function InstructionUses(cx: Context, i: Syntax.Instruction): set<Use>
    requires InLibrary(cx)
    decreases cx.unit, cx.known, 0, 0
  {
    match Invoked(cx, i)
    case Some(p) => (if i.ExecLocal? then {} else if i.ExecImported? then {ByImport(p)} else {ByCall(p)}) + ProcedureUses(cx.lib, p)
    case None => {}
  }

  ghost function ProcedureUses(lib: Library, p: Place): set<Use>
    requires IsPlace(lib, p)
    decreases p.unit, p.idx, Syntax.NodesSize(ProcAt(lib, p).body), 1
  {
    Uses(Inside(lib, p), ProcAt(lib, p).body)
  }

  /** The code found for a use is executed, or means, what the procedure's own code means. */
  ghost predicate UseAgrees<S>(m: Machine<S>, t: Table, lib: Library, u: Use, fuel: nat, s: S) {
    IsPlace(lib, u.place) ==>
      var h, code := RootAt(lib, u.place), CodeAt(lib, u.place);
      match u
      case ByCall(_) => h in t ==> Exec(m, t, fuel, t[h], s) == Meaning(m, t, fuel, code, s)
      case ByImport(_) => h in lib.cache.procedures ==> Meaning(m, t, fuel, lib.cache.procedures[h].code, s) == Meaning(m, t, fuel, code, s)
  }

  ghost predicate UsesAgree<S(!new)>(m: Machine<S>, t: Table, lib: Library, uses: set<Use>) {
    forall u: Use, fuel: nat, s: S :: u in uses ==> UseAgrees(m, t, lib, u, fuel, s)
  }

  // Libraries as the assembler leaves them

  /** Imported ids resolve to the root of the procedure they come from. */
  ghost predicate ImportsResolve(lib: Library) {
    forall id :: id in lib.origin ==> IsPlace(lib, lib.origin[id]) && CachedAs(lib.hash, lib.cache, id, RootAt(lib, lib.origin[id]))
  }

  ghost predicate ProperCache(c: Cache) {
    forall root :: root in c.procedures ==> ProperBlock(c.procedures[root].code)
  }

  /** Every procedure is compiled from its body. */
  ghost predicate CompiledAt(lib: Library, p: Place)
    requires IsPlace(lib, p)
  {
    Syntax.CompiledFrom(KnownIn(Inside(lib, p)), ProcAt(lib, p).body, Syntax.LocalsWrapper(ProcAt(lib, p).numLocals), CodeAt(lib, p))
  }

  ghost predicate GoodLibrary(lib: Library) {
    && ValidLibrary(lib) && ProperCache(lib.cache) && ImportsResolve(lib)
    && forall p: Place :: IsPlace(lib, p) ==> CompiledAt(lib, p)
  }

  lemma {:induction false} KnownProper(cx: Context)
    requires GoodLibrary(cx.lib) && InLibrary(cx)
    ensures ProperKnown(KnownIn(cx))
    decreases cx.known
  {
    if cx.known > 0 {
      var before, p := cx.(known := cx.known - 1), Place(cx.unit, cx.known - 1);
      KnownProper(before);
      PlaceProper(cx.lib, p);
      var k := KnownIn(cx);
      forall i | 0 <= i < |k.locals|
        ensures ProperBlock(k.locals[i].procedure.code)
      {
        if i < cx.known - 1 {
          assert k.locals[i] == KnownIn(before).locals[i];
        }
      }
    }
  }

  lemma PlaceProper(lib: Library, p: Place)
    requires GoodLibrary(lib) && IsPlace(lib, p) && ProperKnown(KnownIn(Inside(lib, p)))
    ensures ProperBlock(CodeAt(lib, p))
  {
    var k, w := KnownIn(Inside(lib, p)), Syntax.LocalsWrapper(ProcAt(lib, p).numLocals);
    assert CompiledAt(lib, p);
    CompiledIsLowered(k, ProcAt(lib, p).body, w, CodeAt(lib, p));
    LoweredProper(k, ProcAt(lib, p).body);
    BodyProper(Syntax.LowerNodes(k, ProcAt(lib, p).body).value, w);
  }

  // Compiled procedures mean what their source says

  lemma {:induction false} NodesMeanSource<S(!new)>(m: Machine<S>, t: Table, fuel: nat, cx: Context, nodes: seq<Syntax.Node>, s: S)
    requires NoopIsIdentity(m) && GoodLibrary(cx.lib) && InLibrary(cx) && UsesAgree(m, t, cx.lib, Uses(cx, nodes))
    requires Syntax.LowerNodes(KnownIn(cx), nodes).Some?
    ensures RunSource(m, t, fuel, cx, nodes, s) == RunBody(m, t, fuel, Syntax.LowerNodes(KnownIn(cx), nodes).value, s)
    decreases fuel, cx.unit, cx.known, Syntax.NodesSize(nodes), 0, 0
  {
    if nodes != [] {
      var init, last := nodes[..|nodes| - 1], nodes[|nodes| - 1];
      NodesMeanSource(m, t, fuel, cx, init, s);
      var code := Syntax.LowerNodes(KnownIn(cx), nodes).value;
      assert code[..|code| - 1] == Syntax.LowerNodes(KnownIn(cx), init).value;
      var r := RunSource(m, t, fuel, cx, init, s);
      if r.Done? {
        NodeMeansSource(m, t, fuel, cx, last, r.state);
      }
    }
  }

  /** Running some nodes is running the code they are lowered to. */
  ghost predicate Agree<S>(m: Machine<S>, t: Table, fuel: nat, cx: Context, nodes: seq<Syntax.Node>, code: seq<Code>, s: S)
    requires InLibrary(cx)
  {
    RunSource(m, t, fuel, cx, nodes, s) == RunBody(m, t, fuel, code, s)
  }

  lemma {:induction false} NodeMeansSource<S(!new)>(m: Machine<S>, t: Table, fuel: nat, cx: Context, n: Syntax.Node, s: S)
    requires NoopIsIdentity(m) && GoodLibrary(cx.lib) && InLibrary(cx) && UsesAgree(m, t, cx.lib, NodeUses(cx, n))
    requires Syntax.LowerNode(KnownIn(cx), n).Some?
    ensures RunSourceNode(m, t, fuel, cx, n, s) == RunNode(m, t, fuel, Syntax.LowerNode(KnownIn(cx), n).value, s)
    decreases fuel, cx.unit, cx.known, Syntax.NodeSize(n), 0, 0
  {
    match n
    case Instr(tag, i) =>
      InstructionMeansSource(m, t, fuel, cx, tag, i, s);
    case IfElse(trueCase, falseCase) =>
      forall s1: S
        ensures Agree(m, t, fuel, cx, trueCase, Syntax.LowerNodes(KnownIn(cx), trueCase).value, s1)
        ensures Agree(m, t, fuel, cx, falseCase, Syntax.LowerNodes(KnownIn(cx), falseCase).value, s1)
      {
        NodesMeanSource(m, t, fuel, cx, trueCase, s1);
        NodesMeanSource(m, t, fuel, cx, falseCase, s1);
      }
      IfElseMeansSource(m, t, fuel, cx, trueCase, falseCase,
                        Syntax.LowerNodes(KnownIn(cx), trueCase).value, Syntax.LowerNodes(KnownIn(cx), falseCase).value, s);
    case Repeat(times, body) =>
      forall s1: S
        ensures Agree(m, t, fuel, cx, body, Syntax.LowerNodes(KnownIn(cx), body).value, s1)
      {
        NodesMeanSource(m, t, fuel, cx, body, s1);
      }
      TimesMeanSource(m, t, fuel, cx, times, body, Syntax.LowerNodes(KnownIn(cx), body).value, s);
    case While(body) =>
      forall f: nat, s1: S | f <= fuel
        ensures Agree(m, t, f, cx, body, Syntax.LowerNodes(KnownIn(cx), body).value, s1)
      {
        NodesMeanSource(m, t, f, cx, body, s1);
      }
      LoopMeansSource(m, t, fuel, cx, body, Syntax.LowerNodes(KnownIn(cx), body).value, s);
  }

  lemma IfElseMeansSource<S(!new)>(m: Machine<S>, t: Table, fuel: nat, cx: Context, trueCase: seq<Syntax.Node>, falseCase: seq<Syntax.Node>,
                                   onTrue: seq<Code>, onFalse: seq<Code>, s: S)
    requires InLibrary(cx)
    requires forall s1: S :: Agree(m, t, fuel, cx, trueCase, onTrue, s1)
    requires forall s1: S :: Agree(m, t, fuel, cx, falseCase, onFalse, s1)
    ensures RunSourceNode(m, t, fuel, cx, Syntax.IfElse(trueCase, falseCase), s) == RunNode(m, t, fuel, IfElse(onTrue, onFalse), s)
  {
    var r := PopTop(m, s);
    if r.Done? {
      assert Agree(m, t, fuel, cx, trueCase, onTrue, r.state);
      assert Agree(m, t, fuel, cx, falseCase, onFalse, r.state);
    }
  }

  lemma {:induction false} TimesMeanSource<S(!new)>(m: Machine<S>, t: Table, fuel: nat, cx: Context, times: nat, body: seq<Syntax.Node>, code: seq<Code>, s: S)
    requires InLibrary(cx)
    requires forall s1: S :: Agree(m, t, fuel, cx, body, code, s1)
    ensures RunSourceTimes(m, t, fuel, cx, times, body, s) == RunTimes(m, t, fuel, times, code, s)
    decreases times
  {
    if times > 0 {
      TimesMeanSource(m, t, fuel, cx, times - 1, body, code, s);
      var r := RunSourceTimes(m, t, fuel, cx, times - 1, body, s);
      if r.Done? {
        assert Agree(m, t, fuel, cx, body, code, r.state);
      }
    }
  }

  lemma LoopMeansSource<S(!new)>(m: Machine<S>, t: Table, fuel: nat, cx: Context, body: seq<Syntax.Node>, code: seq<Code>, s: S)
    requires InLibrary(cx)
    requires forall f: nat, s1: S :: f <= fuel ==> Agree(m, t, f, cx, body, code, s1)
    ensures RunSourceNode(m, t, fuel, cx, Syntax.While(body), s) == RunNode(m, t, fuel, While(code), s)
  {
    var r := PopTop(m, s);
    if r.Done? {
      assert Agree(m, t, fuel, cx, body, code, r.state);
      var r1 := RunBody(m, t, fuel, code, r.state);
      if r1.Done? {
        WhileMeansSource(m, t, fuel, cx, body, code, r1.state);
      }
    }
  }

  lemma {:induction false} WhileMeansSource<S(!new)>(m: Machine<S>, t: Table, fuel: nat, cx: Context, body: seq<Syntax.Node>, code: seq<Code>, s: S)
    requires InLibrary(cx)
    requires forall f: nat, s1: S :: f < fuel ==> Agree(m, t, f, cx, body, code, s1)
    ensures RunSourceWhile(m, t, fuel, cx, body, s) == RunWhile(m, t, fuel, code, s)
    decreases fuel
  {
    var r := PopTop(m, s);
    if r.Done? && m.peek(s) == ONE && fuel > 0 {
      assert Agree(m, t, fuel - 1, cx, body, code, r.state);
      var r1 := RunBody(m, t, fuel - 1, code, r.state);
      if r1.Done? {
        WhileMeansSource(m, t, fuel - 1, cx, body, code, r1.state);
      }
    }
  }

  /** The outcome of the instruction is that of its lowered code. */
  ghost predicate SameInstruction<S>(m: Machine<S>, t: Table, fuel: nat, cx: Context, tag: Label, i: Syntax.Instruction, s: S)
    requires InLibrary(cx)
  {
    var code := Syntax.LowerInstruction(KnownIn(cx), tag, i);
    code.Some? ==> RunInstruction(m, t, fuel, cx, tag, i, s) == RunNode(m, t, fuel, code.value, s)
  }

  lemma {:induction false} InstructionMeansSource<S(!new)>(m: Machine<S>, t: Table, fuel: nat, cx: Context, tag: Label, i: Syntax.Instruction, s: S)
    requires NoopIsIdentity(m) && GoodLibrary(cx.lib) && InLibrary(cx) && UsesAgree(m, t, cx.lib, InstructionUses(cx, i))
    ensures SameInstruction(m, t, fuel, cx, tag, i, s)
    decreases fuel, cx.unit, cx.known, 0, 0, 0
  {
    match Invoked(cx, i)
    case None =>
      OtherMeansSource(m, t, fuel, cx, tag, i, s);
    case Some(p) =>
      InvokedLowered(cx, tag, i, p);
      if i.ExecLocal? || i.ExecImported? {
        ProcedureMeansSource(m, t, fuel, cx.lib, p, s);
        if i.ExecImported? {
          assert UseAgrees(m, t, cx.lib, ByImport(p), fuel, s);
        }
      } else {
        assert ByCall(p) in InstructionUses(cx, i);
        CallMeansSource(m, t, fuel, cx.lib, p, i.SysCall?, s);
        assert Meaning(m, t, fuel, Call(RootAt(cx.lib, p), i.SysCall?), s) == Exec(m, t, fuel, Call(RootAt(cx.lib, p), i.SysCall?), s);
      }
  }

  /** What the invocation of a procedure from the library is lowered to. */
  lemma InvokedLowered(cx: Context, tag: Label, i: Syntax.Instruction, p: Place)
    requires GoodLibrary(cx.lib) && InLibrary(cx) && Invoked(cx, i) == Some(p)
    ensures var h := RootAt(cx.lib, p);
            Syntax.LowerInstruction(KnownIn(cx), tag, i) ==
            if i.ExecLocal? then Some(Inline(CodeAt(cx.lib, p)))
            else if i.ExecImported? && h in cx.lib.cache.procedures then Some(Inline(cx.lib.cache.procedures[h].code))
            else Some(Inline(Call(h, i.SysCall?)))
    ensures i.ExecImported? ==> RootAt(cx.lib, p) in cx.lib.cache.procedures
  {
    if !i.ExecLocal? && !i.CallLocal? {
      assert CachedAs(cx.lib.hash, cx.lib.cache, i.id, RootAt(cx.lib, p));
      LookupIsCached(cx.lib.hash, cx.lib.cache, i.id);
    }
  }

  lemma OtherMeansSource<S(!new)>(m: Machine<S>, t: Table, fuel: nat, cx: Context, tag: Label, i: Syntax.Instruction, s: S)
    requires NoopIsIdentity(m) && InLibrary(cx) && Invoked(cx, i).None?
    ensures SameInstruction(m, t, fuel, cx, tag, i, s)
  {
    match i
    case Primitive(items) => PrimitiveMeans(m, cx.lib.debug, tag, items, s);
    case Breakpoint => BreakpointMeans(m, cx.lib.debug, tag, s);
    case DebugPrint(options) => DecoratorMeans(m, Debug(options), s);
    case _ =>
  }

  lemma DecoratorMeans<S>(m: Machine<S>, dec: Decorator, s: S)
    ensures RunItems(m, [Dec(dec)], s) == FromStep(m.decorate(dec, s))
  {
    assert [Dec(dec)] + [] == [Dec(dec)];
    RunFirst(m, Dec(dec), [], s);
  }

  lemma {:induction false} NumOpsIs(items: seq<Item>)
    ensures NumOps(items) == |OpsOf(items)|
  {
    if items != [] {
      NumOpsIs(items[1..]);
      assert items == [items[0]] + items[1..];
      OpsOfCons(items[0], items[1..]);
      OpsOfOne(items[0]);
    }
  }

  lemma {:induction false} PrimitiveMeans<S>(m: Machine<S>, debug: bool, tag: Label, items: seq<Item>, s: S)
    ensures var n := NumOps(items);
            RunItems(m, Tracked(debug, tag, items), s) ==
            if debug && n > 0 then
              match m.decorate(AsmOp(tag, n % 256), s)
              case Ok(s1) => RunItems(m, items, s1)
              case Err(e) => Failed(OpError(e))
            else RunItems(m, items, s)
  {
    NumOpsIs(items);
    RunFirst(m, Dec(AsmOp(tag, NumOps(items) % 256)), items, s);
  }

  lemma {:induction false} BreakpointMeans<S>(m: Machine<S>, debug: bool, tag: Label, s: S)
    ensures RunItems(m, Breakpoint(debug, tag), s) ==
            if debug then
              match m.decorate(AsmOp(tag, 0), s)
              case Ok(s1) => FromStep(m.step(Noop, s1))
              case Err(e) => Failed(OpError(e))
            else Done(s)
  {
    if debug {
      var d: Item := Dec(AsmOp(tag, 0));
      assert Breakpoint(debug, tag) == [d] + [Op(Noop)];
      RunFirst(m, d, [Op(Noop)], s);
      assert [Op(Noop)] + [] == [Op(Noop)];
      var r := m.decorate(AsmOp(tag, 0), s);
      if r.Ok? {
        RunFirst(m, Op(Noop), [], r.value);
      }
    }
  }

  /** What a call finds under the root of a procedure is executed as the procedure's source says. */
  lemma {:induction false} CallMeansSource<S(!new)>(m: Machine<S>, t: Table, fuel: nat, lib: Library, p: Place, isSyscall: bool, s: S)
    requires NoopIsIdentity(m) && GoodLibrary(lib) && IsPlace(lib, p)
    requires UsesAgree(m, t, lib, {ByCall(p)} + ProcedureUses(lib, p))
    ensures RunCall(m, t, fuel, lib, p, isSyscall, s) == Exec(m, t, fuel, Call(RootAt(lib, p), isSyscall), s)
    decreases fuel, p.unit, p.idx, Syntax.NodesSize(ProcAt(lib, p).body), 2, 0
  {
    var s1 := m.enter(RootAt(lib, p), isSyscall, s);
    if fuel > 0 {
      ProcedureMeansSource(m, t, fuel - 1, lib, p, s1);
      assert UseAgrees(m, t, lib, ByCall(p), fuel - 1, s1);
    }
  }

  /** A compiled procedure means what its source says. */
  lemma {:induction false} ProcedureMeansSource<S(!new)>(m: Machine<S>, t: Table, fuel: nat, lib: Library, p: Place, s: S)
    requires NoopIsIdentity(m) && GoodLibrary(lib) && IsPlace(lib, p) && UsesAgree(m, t, lib, ProcedureUses(lib, p))
    ensures Meaning(m, t, fuel, CodeAt(lib, p), s) == RunProcedure(m, t, fuel, lib, p, s)
    decreases fuel, p.unit, p.idx, Syntax.NodesSize(ProcAt(lib, p).body), 1, 0
  {
    var proc, cx := ProcAt(lib, p), Inside(lib, p);
    var w := Syntax.LocalsWrapper(proc.numLocals);
    assert CompiledAt(lib, p);
    CompiledIsLowered(KnownIn(cx), proc.body, w, CodeAt(lib, p));
    KnownProper(cx);
    LoweredProper(KnownIn(cx), proc.body);
    BodyMeans(m, t, fuel, Syntax.LowerNodes(KnownIn(cx), proc.body).value, w, s);
    var r := RunItems(m, AsItems(w.prologue), s);
    if r.Done? {
      NodesMeanSource(m, t, fuel, cx, proc.body, r.state);
    }
  }

  // Locals

  /** Pushing a number and FMPUPDATE add the number to the frame pointer. */
  ghost predicate MovesFrame<S(!new)>(m: Machine<S>, fmp: S -> Felt) {
    forall x: Felt, s: S :: MovesBy(m, fmp, x, s)
  }

  ghost predicate MovesBy<S>(m: Machine<S>, fmp: S -> Felt, x: Felt, s: S) {
    var r := RunItems(m, [Op(Push(x)), Op(FmpUpdate)], s);
    r.Done? && fmp(r.state) == (fmp(s) + x) % MODULUS
  }

  /** The prologue raises the frame pointer by the number of locals. */
  lemma PrologueAllocates<S(!new)>(m: Machine<S>, fmp: S -> Felt, numLocals: nat, s: S)
    requires MovesFrame(m, fmp)
    ensures numLocals == 0 ==> RunItems(m, AsItems(Syntax.LocalsWrapper(numLocals).prologue), s) == Done(s)
    ensures var r := RunItems(m, AsItems(Syntax.LocalsWrapper(numLocals).prologue), s);
            r.Done? && fmp(r.state) == (fmp(s) + numLocals) % MODULUS
  {
    var w := Syntax.LocalsWrapper(numLocals);
    if numLocals == 0 {
      assert AsItems(w.prologue) == [];
    } else {
      var n: Felt := numLocals % MODULUS;
      assert AsItems(w.prologue) == [Op(Push(n)), Op(FmpUpdate)];
      assert MovesBy(m, fmp, n, s);
    }
  }

  /** The epilogue lowers it by as much. */
  lemma EpilogueFrees<S(!new)>(m: Machine<S>, fmp: S -> Felt, numLocals: nat, before: Felt, s: S)
    requires MovesFrame(m, fmp) && fmp(s) == (before + numLocals) % MODULUS
    ensures numLocals == 0 ==> RunItems(m, AsItems(Syntax.LocalsWrapper(numLocals).epilogue), s) == Done(s)
    ensures var r := RunItems(m, AsItems(Syntax.LocalsWrapper(numLocals).epilogue), s);
            r.Done? && fmp(r.state) == before
  {
    var w := Syntax.LocalsWrapper(numLocals);
    if numLocals == 0 {
      assert AsItems(w.epilogue) == [];
    } else {
      var n: Felt := numLocals % MODULUS;
      assert AsItems(w.epilogue) == [Op(Push(Neg(n))), Op(FmpUpdate)];
      assert MovesBy(m, fmp, Neg(n), s);
      ThereAndBack(before, numLocals);
    }
  }

  lemma ThereAndBack(before: Felt, n: nat)
    ensures ((before + n) % MODULUS + Neg(n % MODULUS)) % MODULUS == before
  {
  }

  /**
   A procedure's body runs with the frame pointer raised by the number of its locals; if the body
   leaves it there, the procedure leaves it where it was.
   */
  lemma ProcedureKeepsFrame<S(!new)>(m: Machine<S>, fmp: S -> Felt, t: Table, fuel: nat, lib: Library, p: Place, s: S)
    requires MovesFrame(m, fmp) && IsPlace(lib, p)
    ensures var n := ProcAt(lib, p).numLocals;
            var r := RunItems(m, AsItems(Syntax.LocalsWrapper(n).prologue), s);
            && r.Done? && fmp(r.state) == (fmp(s) + n) % MODULUS
            && var r1 := RunSource(m, t, fuel, Inside(lib, p), ProcAt(lib, p).body, r.state);
               r1.Done? && fmp(r1.state) == fmp(r.state) ==>
                 var r2 := RunProcedure(m, t, fuel, lib, p, s); r2.Done? && fmp(r2.state) == fmp(s)
  {
    var n := ProcAt(lib, p).numLocals;
    PrologueAllocates(m, fmp, n, s);
    var r := RunItems(m, AsItems(Syntax.LocalsWrapper(n).prologue), s);
    var r1 := RunSource(m, t, fuel, Inside(lib, p), ProcAt(lib, p).body, r.state);
    if r1.Done? && fmp(r1.state) == fmp(r.state) {
      EpilogueFrees(m, fmp, n, fmp(s), r1.state);
    }
  }

  // Whole programs

  /** The program is the last unit of the library and its root is compiled from its body. */
  ghost predicate ProgramIn(lib: Library, program: Syntax.ProgramAst, root: CodeBlock) {
    && GoodLibrary(lib) && lib.units != []
    && lib.units[|lib.units| - 1].procs == program.procs
    && Syntax.CompiledFrom(KnownIn(MainContext(lib)), program.body, NO_WRAPPER, root)
  }

  ghost function MainContext(lib: Library): (cx: Context)
    requires ValidLibrary(lib) && lib.units != []
    ensures InLibrary(cx)
  {
    Context(lib, |lib.units| - 1, |lib.units[|lib.units| - 1].procs|)
  }

  /**
   Executing a compiled program does what its source says, its procedures and those imported from
   earlier units included, if uses agree and decorators are silent or the body is free of loss.
   */
  lemma ProgramRunsSource<S(!new)>(m: Machine<S>, t: Table, lib: Library, program: Syntax.ProgramAst, root: CodeBlock, fuel: nat, s: S)
    requires NoopIsIdentity(m) && ProgramIn(lib, program, root)
    requires UsesAgree(m, t, lib, Uses(MainContext(lib), program.body))
    requires Silent(m) || MainLossFree(lib, program)
    ensures Exec(m, t, fuel, root, s) == RunSource(m, t, fuel, MainContext(lib), program.body, s)
  {
    var cx := MainContext(lib);
    CompiledIsLowered(KnownIn(cx), program.body, NO_WRAPPER, root);
    KnownProper(cx);
    LoweredProper(KnownIn(cx), program.body);
    var body := Syntax.LowerNodes(KnownIn(cx), program.body).value;
    PlainWrapper(m, t, fuel, body, s);
    if Silent(m) {
      CompiledBodyRuns(m, t, fuel, body, NO_WRAPPER, s);
    } else {
      BodyCompiles(body, NO_WRAPPER);
      BodyRuns(m, t, fuel, body, NO_WRAPPER, s);
    }
    NodesMeanSource(m, t, fuel, cx, program.body, s);
  }

  /** The lowered body of the program is free of loss. */
  ghost predicate MainLossFree(lib: Library, program: Syntax.ProgramAst)
    requires ValidLibrary(lib) && lib.units != []
  {
    var body := Syntax.LowerNodes(KnownIn(MainContext(lib)), program.body);
    body.Some? ==> LossFree(body.value, NO_WRAPPER)
  }

  // Bodies of one node

  lemma LowerOne(k: Syntax.Known, n: Syntax.Node)
    requires Syntax.ValidKnown(k) && Syntax.LowerNode(k, n).Some?
    ensures Syntax.LowerNodes(k, [n]) == Some([Syntax.LowerNode(k, n).value])
  {
    var nodes, code := [n], Syntax.LowerNode(k, n).value;
    assert nodes[..0] == [] && nodes[|nodes| - 1] == n;
    assert Syntax.LowerNodes(k, nodes[..0]) == Some([]);
    assert [] + [code] == [code];
  }

  lemma RunOne<S>(m: Machine<S>, t: Table, fuel: nat, cx: Context, n: Syntax.Node, s: S)
    requires InLibrary(cx)
    ensures RunSource(m, t, fuel, cx, [n], s) == RunSourceNode(m, t, fuel, cx, n, s)
  {
    assert [n][..0] == [];
    assert RunSource(m, t, fuel, cx, [], s) == Done(s);
  }
}
