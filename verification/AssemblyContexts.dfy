/**
 The assembly context: the stack of modules being compiled, each with its stack of procedures and
 the callsets collected so far; and the invariant that makes callsets complete.
 */
module AssemblyContexts {
  import opened Results
  import opened Mast
  import opened SpanBuilding
  import opened ProcedureCaching
  import opened BlockCombining
  import opened Execution

  type Path = string

  const EXEC_PATH: Path := "#exec"
  const ANON_PATH: Path := "#anon"
  const KERNEL_PATH: Path := "#sys"
  const MAIN_PROC: string := "#main"

  datatype ProcedureContext = ProcedureContext(name: string, isExport: bool, numLocals: nat, callset: set<Digest>)

  /** Procedures being compiled, the current one on top. */
  datatype ProcStack = NoProc | InProc(current: ProcedureContext, outer: ProcStack)

  datatype ModuleContext = ModuleContext(
    procStack: ProcStack, compiledProcs: seq<NamedProcedure>, path: Path, callset: set<Digest>)

  /** Modules being compiled, the current one on top. */
  datatype Stack = NoModule | InModule(current: ModuleContext, importers: Stack)

  /** Paths of the modules being compiled. */
  function Paths(st: Stack): set<Path> {
    match st
    case NoModule => {}
    case InModule(m, importers) => {m.path} + Paths(importers)
  }

  /** No module is being compiled twice. */
  predicate DistinctPaths(st: Stack) {
    st.InModule? ==> st.current.path !in Paths(st.importers) && DistinctPaths(st.importers)
  }

  // The callset invariant

  /**
   The root of a MAST determines the calls made in it. A proxy has the root of the code it hides, so
   nothing is said of code with proxies.
   */
  ghost predicate Determines(hash: Hash, calls: Digest -> set<Digest>) {
    forall b: CodeBlock {:trigger hash(b)} :: ProxyFree(b) ==> calls(hash(b)) == Targets(b)
  }

  /** What callsets are measured against: the calls behind each root, and the phantom calls made. */
  datatype World = World(hash: Hash, calls: Digest -> set<Digest>, phantoms: set<Digest>)

  /** Whatever a root of the set calls is in the set too, or is a phantom. */
  ghost predicate ClosedCallset(w: World, callset: set<Digest>) {
    forall h :: h in callset ==> w.calls(h) <= callset + w.phantoms
  }

  /** The callset of a procedure covers all calls it may lead to. */
  ghost predicate Complete(w: World, p: Procedure) {
    Safe(p.code, p.callset + w.phantoms) && ClosedCallset(w, p.callset)
  }

  /** Every root in a cached procedure's callset is cached, too. */
  ghost predicate ClosedCache(w: World, c: Cache) {
    && ValidCache(w.hash, c)
    && forall root :: root in c.procedures ==>
         Complete(w, c.procedures[root]) && c.procedures[root].callset <= c.procedures.Keys
  }

  function Roots(hash: Hash, procs: seq<NamedProcedure>): set<Digest> {
    if procs == [] then {} else Roots(hash, procs[..|procs| - 1]) + {hash(procs[|procs| - 1].procedure.code)}
  }

  /** Roots that can be found in the cache or among a module's compiled procedures. */
  ghost function Findable(w: World, c: Cache, procs: seq<NamedProcedure>): set<Digest> {
    c.procedures.Keys + Roots(w.hash, procs)
  }

  ghost predicate GoodCallset(w: World, c: Cache, procs: seq<NamedProcedure>, callset: set<Digest>) {
    ClosedCallset(w, callset) && callset <= Findable(w, c, procs)
  }

  /** Each compiled procedure calls only what is cached or compiled before it in the same module. */
  ghost predicate GoodProcs(w: World, c: Cache, procs: seq<NamedProcedure>, callset: set<Digest>) {
    procs != [] ==>
      var init, p := procs[..|procs| - 1], procs[|procs| - 1].procedure;
      && GoodProcs(w, c, init, callset)
      && Complete(w, p) && p.callset <= Findable(w, c, init) && p.callset <= callset
  }

  ghost predicate GoodProcStack(w: World, c: Cache, procs: seq<NamedProcedure>, ps: ProcStack) {
    ps.InProc? ==> GoodCallset(w, c, procs, ps.current.callset) && GoodProcStack(w, c, procs, ps.outer)
  }

  ghost predicate GoodModule(w: World, c: Cache, m: ModuleContext) {
    && GoodProcs(w, c, m.compiledProcs, m.callset)
    && GoodCallset(w, c, m.compiledProcs, m.callset)
    && GoodProcStack(w, c, m.compiledProcs, m.procStack)
  }

  /** All callsets are complete, and no module is being compiled twice. */
  ghost predicate GoodStack(w: World, c: Cache, st: Stack) {
    st.InModule? ==>
      && st.current.path !in Paths(st.importers)
      && GoodModule(w, c, st.current) && GoodStack(w, c, st.importers)
  }

  lemma {:induction false} GoodStackDistinct(w: World, c: Cache, st: Stack)
    requires GoodStack(w, c, st)
    ensures DistinctPaths(st)
  {
    if st.InModule? {
      GoodStackDistinct(w, c, st.importers);
    }
  }

  // More phantoms and a larger cache do no harm

  ghost predicate Grows(w: World, c: Cache, w': World, c': Cache) {
    w'.hash == w.hash && w'.calls == w.calls && w.phantoms <= w'.phantoms && Extends(c, c')
  }

  lemma {:induction false} GoodProcsGrow(w: World, c: Cache, w': World, c': Cache, procs: seq<NamedProcedure>, callset: set<Digest>)
    requires Grows(w, c, w', c') && GoodProcs(w, c, procs, callset)
    ensures GoodProcs(w', c', procs, callset)
  {
    if procs != [] {
      GoodProcsGrow(w, c, w', c', procs[..|procs| - 1], callset);
    }
  }

  lemma {:induction false} GoodProcStackGrows(w: World, c: Cache, w': World, c': Cache, procs: seq<NamedProcedure>, ps: ProcStack)
    requires Grows(w, c, w', c') && GoodProcStack(w, c, procs, ps)
    ensures GoodProcStack(w', c', procs, ps)
  {
    if ps.InProc? {
      GoodProcStackGrows(w, c, w', c', procs, ps.outer);
    }
  }

  /** Callsets stay complete as the cache and the phantoms grow. */
  lemma {:induction false} GoodStackGrows(w: World, c: Cache, w': World, c': Cache, st: Stack)
    requires Grows(w, c, w', c') && GoodStack(w, c, st)
    ensures GoodStack(w', c', st)
  {
    if st.InModule? {
      var m := st.current;
      GoodProcsGrow(w, c, w', c', m.compiledProcs, m.callset);
      GoodProcStackGrows(w, c, w', c', m.compiledProcs, m.procStack);
      GoodStackGrows(w, c, w', c', st.importers);
    }
  }

  // Registering calls

  /** The callset after calling a procedure; an inlined procedure is not itself called. */
  function WithCall(hash: Hash, callset: set<Digest>, callee: Procedure, inlined: bool): set<Digest> {
    callset + callee.callset + (if inlined then {} else {hash(callee.code)})
  }

  predicate InProcedure(st: Stack) {
    st.InModule? && st.current.procStack.InProc?
  }

  function Locals(st: Stack): seq<NamedProcedure>
    requires st.InModule?
  {
    st.current.compiledProcs
  }

  function TopCallset(st: Stack): set<Digest>
    requires InProcedure(st)
  {
    st.current.procStack.current.callset
  }

  /** The module stack with another callset for the procedure being compiled. */
  function WithTopCallset(st: Stack, callset: set<Digest>): Stack
    requires InProcedure(st)
  {
    var ps := st.current.procStack;
    st.(current := st.current.(procStack := ps.(current := ps.current.(callset := callset))))
  }

  /** A called procedure is in the callset with all that it calls; an inlined one only brings what it calls. */
  lemma CallsetAfterCall(hash: Hash, st: Stack, callee: Procedure, inlined: bool, h: Digest)
    requires InProcedure(st)
    ensures var st' := WithTopCallset(st, WithCall(hash, TopCallset(st), callee, inlined));
            && (h in st'.current.procStack.current.callset <==>
                h in st.current.procStack.current.callset || h in callee.callset || (!inlined && h == hash(callee.code)))
            && st'.importers == st.importers && st'.current.compiledProcs == st.current.compiledProcs
            && st'.current.path == st.current.path && st'.current.callset == st.current.callset
            && st'.current.procStack.outer == st.current.procStack.outer
            && st'.current.procStack.current.name == st.current.procStack.current.name
            && st'.current.procStack.current.isExport == st.current.procStack.current.isExport
            && st'.current.procStack.current.numLocals == st.current.procStack.current.numLocals
  {
  }

  /** Nothing has changed but the callset of the current procedure, and that has only grown. */
  ghost predicate OnlyCallsetGrew(st: Stack, st': Stack) {
    && InProcedure(st) && InProcedure(st')
    && st' == WithTopCallset(st, TopCallset(st'))
    && TopCallset(st) <= TopCallset(st')
  }

  /** A procedure that may be called from a module with these compiled procedures. */
  ghost predicate Callable(w: World, c: Cache, procs: seq<NamedProcedure>, p: Procedure) {
    Complete(w, p) && p.callset <= Findable(w, c, procs) && w.hash(p.code) in Findable(w, c, procs)
  }

  /** Registering a callable procedure keeps callsets complete and covers the calls of its code. */
  lemma CallGood(w: World, c: Cache, st: Stack, p: Procedure, inlined: bool)
    requires Determines(w.hash, w.calls)
    requires InProcedure(st) && GoodStack(w, c, st) && Callable(w, c, Locals(st), p)
    ensures var st' := WithTopCallset(st, WithCall(w.hash, TopCallset(st), p, inlined));
            && GoodStack(w, c, st') && OnlyCallsetGrew(st, st')
            && (if inlined then Safe(p.code, TopCallset(st') + w.phantoms) else w.hash(p.code) in TopCallset(st'))
  {
    ProperMeans(p.code);
    assert w.calls(w.hash(p.code)) == Targets(p.code);
    assert GoodCallset(w, c, Locals(st), WithCall(w.hash, TopCallset(st), p, inlined));
  }

  lemma {:induction false} RootsPrefix(hash: Hash, procs: seq<NamedProcedure>, i: nat)
    requires i <= |procs|
    ensures Roots(hash, procs[..i]) <= Roots(hash, procs)
  {
    if i == |procs| {
      assert procs[..i] == procs;
    } else {
      RootsPrefix(hash, procs[..|procs| - 1], i);
      assert procs[..|procs| - 1][..i] == procs[..i];
    }
  }

  lemma {:induction false} GoodProcAt(w: World, c: Cache, procs: seq<NamedProcedure>, callset: set<Digest>, i: nat)
    requires GoodProcs(w, c, procs, callset) && i < |procs|
    ensures var p := procs[i].procedure;
            Complete(w, p) && p.callset <= Findable(w, c, procs[..i]) && p.callset <= callset
  {
    if i < |procs| - 1 {
      GoodProcAt(w, c, procs[..|procs| - 1], callset, i);
      assert procs[..|procs| - 1][..i] == procs[..i];
    }
  }

  lemma {:induction false} LocalCallable(w: World, c: Cache, st: Stack, idx: nat)
    requires GoodStack(w, c, st) && st.InModule? && idx < |Locals(st)|
    ensures Callable(w, c, Locals(st), Locals(st)[idx].procedure)
  {
    var procs := Locals(st);
    GoodProcAt(w, c, procs, st.current.callset, idx);
    RootsPrefix(w.hash, procs, idx);
    RootsPrefix(w.hash, procs, idx + 1);
    assert procs[..idx + 1][..idx] == procs[..idx];
  }

  lemma CachedCallable(w: World, c: Cache, procs: seq<NamedProcedure>, root: Digest)
    requires ClosedCache(w, c) && root in c.procedures
    ensures Callable(w, c, procs, c.procedures[root])
  {
  }

  // Completing procedures

  function Completed(m: ModuleContext, code: CodeBlock): ModuleContext
    requires m.procStack.InProc?
  {
    var top := m.procStack.current;
    var proc := NamedProcedure(top.name, top.isExport, Procedure(top.numLocals, code, top.callset));
    ModuleContext(m.procStack.outer, m.compiledProcs + [proc], m.path, m.callset + top.callset)
  }

  lemma {:induction false} RootsSnoc(hash: Hash, procs: seq<NamedProcedure>, p: NamedProcedure)
    ensures Roots(hash, procs + [p]) == Roots(hash, procs) + {hash(p.procedure.code)}
  {
    assert (procs + [p])[..|procs|] == procs;
  }

  lemma {:induction false} GoodProcsWider(w: World, c: Cache, procs: seq<NamedProcedure>, callset: set<Digest>, wider: set<Digest>)
    requires GoodProcs(w, c, procs, callset) && callset <= wider
    ensures GoodProcs(w, c, procs, wider)
  {
    if procs != [] {
      GoodProcsWider(w, c, procs[..|procs| - 1], callset, wider);
    }
  }

  lemma {:induction false} GoodProcStackMore(w: World, c: Cache, procs: seq<NamedProcedure>, p: NamedProcedure, ps: ProcStack)
    requires GoodProcStack(w, c, procs, ps)
    ensures GoodProcStack(w, c, procs + [p], ps)
  {
    if ps.InProc? {
      RootsSnoc(w.hash, procs, p);
      GoodProcStackMore(w, c, procs, p, ps.outer);
    }
  }

  /** Completing a procedure whose callset covers its code keeps the module's callsets complete. */
  lemma {:induction false} CompletedGood(w: World, c: Cache, m: ModuleContext, code: CodeBlock)
    requires m.procStack.InProc? && GoodModule(w, c, m)
    requires Safe(code, m.procStack.current.callset + w.phantoms)
    ensures GoodModule(w, c, Completed(m, code))
  {
    var top, d := m.procStack.current, Completed(m, code);
    var p := d.compiledProcs[|m.compiledProcs|];
    RootsSnoc(w.hash, m.compiledProcs, p);
    GoodProcsWider(w, c, m.compiledProcs, m.callset, d.callset);
    assert d.compiledProcs[..|m.compiledProcs|] == m.compiledProcs;
    GoodProcStackMore(w, c, m.compiledProcs, p, m.procStack.outer);
  }

  // The context

  predicate NameOnStack(ps: ProcStack, name: string) {
    ps.InProc? && (ps.current.name == name || NameOnStack(ps.outer, name))
  }

  /** A procedure of that name is compiled or being compiled in the current module. */
  predicate KnownName(st: Stack, name: string)
    requires st.InModule?
  {
    (exists i :: 0 <= i < |Locals(st)| && Locals(st)[i].name == name) || NameOnStack(st.current.procStack, name)
  }

  predicate DistinctOpen(ps: ProcStack) {
    ps.InProc? ==> !NameOnStack(ps.outer, ps.current.name) && DistinctOpen(ps.outer)
  }

  /** No two procedures of a module, compiled or being compiled, have the same name. */
  predicate DistinctNames(m: ModuleContext) {
    && (forall i, j :: 0 <= i < j < |m.compiledProcs| ==> m.compiledProcs[i].name != m.compiledProcs[j].name)
    && (forall i :: 0 <= i < |m.compiledProcs| ==> !NameOnStack(m.procStack, m.compiledProcs[i].name))
    && DistinctOpen(m.procStack)
  }

  function ExportedRoots(hash: Hash, procs: seq<NamedProcedure>): set<Digest> {
    set i | 0 <= i < |procs| && procs[i].isExport :: hash(procs[i].procedure.code)
  }

  /** A procedure context has been pushed in the current module. */
  function Started(st: Stack, proc: ProcedureContext): Stack
    requires st.InModule?
  {
    st.(current := st.current.(procStack := InProc(proc, st.current.procStack)))
  }

  lemma StartedDistinct(st: Stack, proc: ProcedureContext)
    requires st.InModule? && DistinctNames(st.current) && !KnownName(st, proc.name)
    ensures DistinctNames(Started(st, proc).current)
  {
    var m := Started(st, proc).current;
    forall i | 0 <= i < |m.compiledProcs|
      ensures !NameOnStack(m.procStack, m.compiledProcs[i].name)
    {
      assert Locals(st)[i].name != proc.name;
    }
  }

  lemma CompletedDistinct(m: ModuleContext, code: CodeBlock)
    requires m.procStack.InProc? && DistinctNames(m)
    ensures DistinctNames(Completed(m, code))
  {
  }

  class AssemblyContext {
    const hash: Hash
    const isKernel: bool
    const allowPhantomCalls: bool
    var moduleStack: Stack
    var kernel: Option<set<Digest>>

    constructor ForModule(hash: Hash, isKernelModule: bool)
      ensures this.hash == hash && moduleStack == NoModule && isKernel == isKernelModule && !allowPhantomCalls && kernel == None
    {
      this.hash := hash;
      isKernel, allowPhantomCalls := isKernelModule, false;
      moduleStack, kernel := NoModule, None;
    }

    /** A program starts in its executable module, with its main procedure on the stack. */
    constructor ForProgram(hash: Hash, allowPhantomCalls: bool)
      ensures this.hash == hash && !isKernel && this.allowPhantomCalls == allowPhantomCalls && kernel == None
      ensures moduleStack == InModule(ModuleContext(InProc(ProcedureContext(MAIN_PROC, false, 0, {}), NoProc), [], EXEC_PATH, {}), NoModule)
    {
      this.hash := hash;
      isKernel, this.allowPhantomCalls := false, allowPhantomCalls;
      moduleStack := InModule(ModuleContext(InProc(ProcedureContext(MAIN_PROC, false, 0, {}), NoProc), [], EXEC_PATH, {}), NoModule);
      kernel := None;
    }

    /** Pushes a module, unless it is already being compiled: that would be a circular dependency. */
    method BeginModule(path: Path) returns (r: Result<(), AssemblyError>)
      modifies this
      ensures kernel == old(kernel)
      ensures if path in Paths(old(moduleStack))
              then r == Err(CircularModuleDependency) && moduleStack == old(moduleStack)
              else r.Ok? && moduleStack == InModule(ModuleContext(NoProc, [], path, {}), old(moduleStack))
      ensures DistinctPaths(old(moduleStack)) ==> DistinctPaths(moduleStack)
    {
      var st := moduleStack;
      while st.InModule?
        invariant path in Paths(moduleStack) <==> path in Paths(st)
        decreases st
      {
        if st.current.path == path {
          return Err(CircularModuleDependency);
        }
        st := st.importers;
      }
      moduleStack := InModule(ModuleContext(NoProc, [], path, {}), moduleStack);
      r := Ok(());
    }

    /** Pops the module being compiled; a kernel is made of what its module exports. */
    method CompleteModule() returns (procs: seq<NamedProcedure>, callset: set<Digest>)
      requires moduleStack.InModule?
      modifies this
      ensures moduleStack == old(moduleStack).importers
      ensures procs == old(moduleStack).current.compiledProcs && callset == old(moduleStack).current.callset
      ensures kernel == if isKernel && moduleStack.NoModule? then Some(ExportedRoots(hash, procs)) else old(kernel)
      ensures isKernel && moduleStack.NoModule? ==>
                && (forall i :: 0 <= i < |procs| && procs[i].isExport ==> hash(procs[i].procedure.code) in kernel.value)
                && (forall h :: h in kernel.value ==> exists i :: 0 <= i < |procs| && procs[i].isExport && hash(procs[i].procedure.code) == h)
    {
      var m := moduleStack.current;
      moduleStack := moduleStack.importers;
      if isKernel && moduleStack.NoModule? {
        kernel := Some(ExportedRoots(hash, m.compiledProcs));
      }
      procs, callset := m.compiledProcs, m.callset;
    }

    method BeginProc(name: string, isExport: bool, numLocals: nat) returns (r: Result<(), AssemblyError>)
      requires moduleStack.InModule?
      modifies this
      ensures kernel == old(kernel)
      ensures if KnownName(old(moduleStack), name) then r == Err(DuplicateProcName) && moduleStack == old(moduleStack)
              else r.Ok? && moduleStack == Started(old(moduleStack), ProcedureContext(name, isExport, numLocals, {}))
      ensures DistinctNames(old(moduleStack).current) ==> DistinctNames(moduleStack.current)
    {
      if KnownName(moduleStack, name) {
        return Err(DuplicateProcName);
      }
      ghost var st := moduleStack;
      moduleStack := Started(moduleStack, ProcedureContext(name, isExport, numLocals, {}));
      if DistinctNames(st.current) {
        StartedDistinct(st, ProcedureContext(name, isExport, numLocals, {}));
      }
      r := Ok(());
    }

    method CompleteProc(code: CodeBlock)
      requires InProcedure(moduleStack)
      modifies this
      ensures kernel == old(kernel)
      ensures moduleStack == old(moduleStack).(current := Completed(old(moduleStack).current, code))
      ensures var m, top := old(moduleStack).current, old(moduleStack).current.procStack.current;
              && moduleStack.current.compiledProcs ==
                 m.compiledProcs + [NamedProcedure(top.name, top.isExport, Procedure(top.numLocals, code, top.callset))]
              && moduleStack.current.callset == m.callset + top.callset
              && moduleStack.current.procStack == m.procStack.outer && moduleStack.current.path == m.path
      ensures DistinctNames(old(moduleStack).current) ==> DistinctNames(moduleStack.current)
    {
      if DistinctNames(moduleStack.current) {
        CompletedDistinct(moduleStack.current, code);
      }
      moduleStack := moduleStack.(current := Completed(moduleStack.current, code));
    }

    method RegisterLocalCall(procIdx: nat, inlined: bool) returns (r: Result<Procedure, AssemblyError>)
      requires InProcedure(moduleStack)
      modifies this
      ensures kernel == old(kernel)
      ensures var procs := Locals(old(moduleStack));
              if isKernel && !inlined then r == Err(CallInKernel) && moduleStack == old(moduleStack)
              else if procIdx >= |procs| then r == Err(LocalProcNotFound) && moduleStack == old(moduleStack)
              else
                var callee := procs[procIdx].procedure;
                && r == Ok(callee)
                && moduleStack == WithTopCallset(old(moduleStack), WithCall(hash, TopCallset(old(moduleStack)), callee, inlined))
    {
      if isKernel && !inlined {
        return Err(CallInKernel);
      }
      var procs := Locals(moduleStack);
      if procIdx >= |procs| {
        return Err(LocalProcNotFound);
      }
      AddCall(procs[procIdx].procedure, inlined);
      r := Ok(procs[procIdx].procedure);
    }

    method RegisterExternalCall(callee: Procedure, inlined: bool) returns (r: Result<(), AssemblyError>)
      requires InProcedure(moduleStack)
      modifies this
      ensures kernel == old(kernel)
      ensures if isKernel && !inlined then r == Err(CallInKernel) && moduleStack == old(moduleStack)
              else r.Ok? && moduleStack == WithTopCallset(old(moduleStack), WithCall(hash, TopCallset(old(moduleStack)), callee, inlined))
    {
      if isKernel && !inlined {
        return Err(CallInKernel);
      }
      AddCall(callee, inlined);
      r := Ok(());
    }

    /** Adds the callee's callset to the current one, and the callee itself unless it is inlined. */
    method AddCall(callee: Procedure, inlined: bool)
      requires InProcedure(moduleStack)
      modifies this
      ensures kernel == old(kernel)
      ensures moduleStack == WithTopCallset(old(moduleStack), WithCall(hash, TopCallset(old(moduleStack)), callee, inlined))
    {
      var callset := TopCallset(moduleStack) + callee.callset;
      if !inlined {
        callset := callset + {hash(callee.code)};
      }
      assert callset == WithCall(hash, TopCallset(moduleStack), callee, inlined);
      moduleStack := WithTopCallset(moduleStack, callset);
    }

    /** A call of code that is not available; it leaves no trace in the callset. */
    method RegisterPhantomCall(root: Digest) returns (r: Result<(), AssemblyError>)
      ensures r == if allowPhantomCalls then Ok(()) else Err(PhantomCallsNotAllowed(root))
    {
      r := if allowPhantomCalls then Ok(()) else Err(PhantomCallsNotAllowed(root));
    }

    /**
     Makes the code block table of a program from its callset. It is an error for a root of the
     callset to be neither cached nor local.
     */
    method IntoCbTable(cache: ProcedureCache) returns (r: Result<Table, AssemblyError>)
      requires cache.Valid() && cache.hash == hash
      requires ForMain(moduleStack)
      modifies this
      ensures moduleStack == NoModule
      ensures var roots, m := ProgramCallset(old(moduleStack)), old(moduleStack).current;
              && (r.Ok? ==> TableFor(hash, roots, r.value) && TableFrom(hash, cache.State(), m.compiledProcs, r.value))
              && (r.Err? ==>
                  && r.error.CallSetProcedureNotFound? && r.error.root in roots
                  && r.error.root !in cache.procedures && r.error.root !in Roots(hash, m.compiledProcs))
              && (r.Ok? <==> roots <= cache.procedures.Keys + Roots(hash, m.compiledProcs))
    {
      var m := moduleStack.current;
      moduleStack := NoModule;
      ghost var findable := cache.procedures.Keys + Roots(hash, m.compiledProcs);
      var roots := m.callset + m.procStack.current.callset;
      var todo, table: Table := roots, map[];
      while todo != {}
        invariant moduleStack == NoModule
        invariant todo <= roots && roots - todo <= findable
        invariant TableFor(hash, roots - todo, table) && TableFrom(hash, cache.State(), m.compiledProcs, table)
      {
        var root :| root in todo;
        var found := cache.GetByHash(root);
        if found.None? {
          found := FindLocalProc(hash, m.compiledProcs, root);
          if found.None? {
            return Err(CallSetProcedureNotFound(root));
          }
        }
        table := table[hash(found.value.code) := found.value.code];
        todo := todo - {root};
        assert roots - todo == (roots - (todo + {root})) + {root};
      }
      assert roots - todo == roots;
      r := Ok(table);
    }
  }

  /** The first local procedure with the given root. */
  method FindLocalProc(hash: Hash, procs: seq<NamedProcedure>, root: Digest) returns (r: Option<Procedure>)
    ensures r.Some? <==> root in Roots(hash, procs)
    ensures r.Some? ==> hash(r.value.code) == root && exists i ::
              && 0 <= i < |procs| && procs[i].procedure == r.value
              && root !in Roots(hash, procs[..i])
    ensures r.Some? ==> FirstLocal(hash, procs, root) == Some(r.value.code)
  {
    for i := 0 to |procs|
      invariant root !in Roots(hash, procs[..i]) && FirstLocal(hash, procs[..i], root).None?
    {
      assert procs[..i + 1] == procs[..i] + [procs[i]];
      RootsSnoc(hash, procs[..i], procs[i]);
      if hash(procs[i].procedure.code) == root {
        RootsPrefix(hash, procs, i + 1);
        FirstLocalStays(hash, procs, i + 1, root);
        return Some(procs[i].procedure);
      }
    }
    assert procs[..|procs|] == procs;
    r := None;
  }

  /** The context of a program: its executable module with nothing but the main procedure open. */
  predicate ForMain(st: Stack) {
    && InProcedure(st) && st.importers.NoModule? && st.current.path == EXEC_PATH
    && st.current.procStack.outer.NoProc? && st.current.procStack.current.name == MAIN_PROC
  }

  function ProgramCallset(st: Stack): set<Digest>
    requires InProcedure(st)
  {
    st.current.callset + TopCallset(st)
  }

  /** The table has a block for each of the roots, stored under its own hash. */
  predicate TableFor(hash: Hash, roots: set<Digest>, t: Table) {
    t.Keys == roots && forall h :: h in t ==> hash(t[h]) == h
  }

  /** The code of the first local procedure with the root. */
  function FirstLocal(hash: Hash, procs: seq<NamedProcedure>, root: Digest): Option<CodeBlock> {
    if procs == [] then None
    else
      var before, last := FirstLocal(hash, procs[..|procs| - 1], root), procs[|procs| - 1].procedure.code;
      if before.Some? then before else if hash(last) == root then Some(last) else None
  }

  lemma {:induction false} FirstLocalStays(hash: Hash, procs: seq<NamedProcedure>, i: nat, root: Digest)
    requires i <= |procs| && FirstLocal(hash, procs[..i], root).Some?
    ensures FirstLocal(hash, procs, root) == FirstLocal(hash, procs[..i], root)
  {
    if i == |procs| {
      assert procs[..i] == procs;
    } else {
      assert procs[..|procs| - 1][..i] == procs[..i];
      FirstLocalStays(hash, procs[..|procs| - 1], i, root);
    }
  }

  lemma {:induction false} FirstLocalAt(hash: Hash, procs: seq<NamedProcedure>, root: Digest) returns (i: nat)
    requires FirstLocal(hash, procs, root).Some?
    ensures i < |procs| && procs[i].procedure.code == FirstLocal(hash, procs, root).value && hash(procs[i].procedure.code) == root
  {
    if FirstLocal(hash, procs[..|procs| - 1], root).Some? {
      i := FirstLocalAt(hash, procs[..|procs| - 1], root);
    } else {
      i := |procs| - 1;
    }
  }

  /** The code that stands for a root: that of the cached procedure, or else of the first local one. */
  function Stored(hash: Hash, c: Cache, procs: seq<NamedProcedure>, root: Digest): Option<CodeBlock> {
    if root in c.procedures then Some(c.procedures[root].code) else FirstLocal(hash, procs, root)
  }

  /** The code of a cached or of a local procedure. */
  ghost predicate Available(c: Cache, procs: seq<NamedProcedure>, b: CodeBlock) {
    || (exists root :: root in c.procedures && c.procedures[root].code == b)
    || (exists i :: 0 <= i < |procs| && procs[i].procedure.code == b)
  }

  lemma StoredAvailable(hash: Hash, c: Cache, procs: seq<NamedProcedure>, root: Digest)
    requires Stored(hash, c, procs, root).Some?
    ensures Available(c, procs, Stored(hash, c, procs, root).value)
  {
    if root !in c.procedures {
      var i := FirstLocalAt(hash, procs, root);
    }
  }

  /** A cached procedure comes before local ones, and among these the first one counts. */
  lemma StoredIs(hash: Hash, c: Cache, p: NamedProcedure, procs: seq<NamedProcedure>, root: Digest)
    ensures root in c.procedures ==> Stored(hash, c, procs, root) == Some(c.procedures[root].code)
    ensures root !in c.procedures ==>
              && Stored(hash, c, [], root) == None
              && (hash(p.procedure.code) == root ==> Stored(hash, c, [p] + procs, root) == Some(p.procedure.code))
              && (hash(p.procedure.code) != root ==> Stored(hash, c, [p] + procs, root) == Stored(hash, c, procs, root))
  {
    FirstLocalFront(hash, p, procs, root);
  }

  lemma {:induction false} FirstLocalFront(hash: Hash, p: NamedProcedure, procs: seq<NamedProcedure>, root: Digest)
    ensures FirstLocal(hash, [p] + procs, root) ==
            if hash(p.procedure.code) == root then Some(p.procedure.code) else FirstLocal(hash, procs, root)
  {
    if procs == [] {
      assert [p] + procs == [p] && [p][..0] == [];
    } else {
      FirstLocalFront(hash, p, procs[..|procs| - 1], root);
      assert ([p] + procs)[..|procs|] == [p] + procs[..|procs| - 1];
    }
  }

  /** The table holds the code that stands for each of its roots. */
  predicate TableFrom(hash: Hash, c: Cache, procs: seq<NamedProcedure>, t: Table) {
    forall h :: h in t ==> Stored(hash, c, procs, h) == Some(t[h])
  }

  lemma AvailableProper(w: World, c: Cache, st: Stack, b: CodeBlock)
    requires ClosedCache(w, c) && GoodStack(w, c, st) && st.InModule? && Available(c, Locals(st), b)
    ensures ProperBlock(b)
  {
    if root :| root in c.procedures && c.procedures[root].code == b {
      assert Complete(w, c.procedures[root]);
    } else {
      var i :| 0 <= i < |Locals(st)| && Locals(st)[i].procedure.code == b;
      GoodProcAt(w, c, Locals(st), st.current.callset, i);
    }
  }

  /** All code of the table is proper, so it can be executed. */
  ghost predicate ProperTable(t: Table) {
    forall h :: h in t ==> ProperBlock(t[h])
  }

  /** With complete callsets, nothing of a program's callset is missing. */
  lemma ProgramCallsetFound(w: World, c: Cache, st: Stack)
    requires GoodStack(w, c, st) && InProcedure(st)
    ensures ProgramCallset(st) <= Findable(w, c, Locals(st))
  {
  }

  /** With complete callsets, a table made of a program's callset is closed under calls. */
  lemma ProgramTableClosed(w: World, c: Cache, st: Stack, t: Table)
    requires Determines(w.hash, w.calls) && ClosedCache(w, c) && GoodStack(w, c, st) && InProcedure(st)
    requires TableFor(w.hash, ProgramCallset(st), t) && TableFrom(w.hash, c, Locals(st), t)
    ensures ClosedTable(t, w.phantoms) && ProperTable(t)
  {
    assert ClosedCallset(w, ProgramCallset(st));
    forall h | h in t
      ensures Targets(t[h]) <= t.Keys + w.phantoms && ProperBlock(t[h])
    {
      StoredAvailable(w.hash, c, Locals(st), h);
      AvailableProper(w, c, st, t[h]);
      ProperMeans(t[h]);
      assert w.calls(w.hash(t[h])) == Targets(t[h]);
    }
  }
}
