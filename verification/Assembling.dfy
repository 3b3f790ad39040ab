/**
 The assembler: modules, procedures and bodies are compiled by mutual recursion, importing further
 modules on the way. Its methods keep every callset complete, so that programs never miss a call
 target, and the recursion ends because the modules being compiled are pairwise distinct.
 */
module Assembling {
  import opened Results
  import opened Mast
  import opened Execution
  import opened SpanBuilding
  import opened BlockCombining
  import opened ProcedureCaching
  import opened AssemblyContexts
  import opened Syntax
  import opened ModuleProviding
  import BodyCompiler
  import DecoratorErasure
  import DecoratorLoss

  class Assembler {
    const hash: Hash
    const idOfName: (Path, string) -> ProcId
    const idOfIndex: (Path, nat) -> ProcId
    const debug: bool
    const provider: ModuleProvider
    const cache: ProcedureCache
    var kernel: set<Digest>
    ghost const calls: Digest -> set<Digest>
    /** Roots of all phantom calls compiled so far. */
    ghost var phantoms: set<Digest>

    ghost function TheWorld(): World
      reads this
    {
      World(hash, calls, phantoms)
    }

    /** The cache is closed under calls, phantom calls excepted. */
    ghost predicate Valid()
      reads this, cache, provider
    {
      && cache.hash == hash
      && provider.Valid()
      && Determines(hash, calls)
      && cache.Valid() && ClosedCache(TheWorld(), cache.State())
    }

    /** Every callset collected in the context is complete, too, and no module is compiled twice. */
    ghost predicate Ready(ctx: AssemblyContext)
      reads this, cache, provider, ctx
    {
      Valid() && ctx.hash == hash && GoodStack(TheWorld(), cache.State(), ctx.moduleStack)
    }

    /** What the body of the current procedure is lowered against. */
    ghost function Here(st: Stack): Known
      requires st.InModule?
      reads this, cache
    {
      Known(debug, hash, Locals(st), cache.State())
    }

    /** What decides whether a body can be compiled here, if all it imports is cached. */
    ghost function Place(ctx: AssemblyContext): Site
      requires ctx.moduleStack.InModule?
      reads this, cache, ctx
    {
      Site(|Locals(ctx.moduleStack)|, cache.State(), Rules(ctx.isKernel, ctx.allowPhantomCalls), debug)
    }

    /** Procedures have been compiled in the current module, on top of those that it had at first. */
    ghost predicate Underway(ctx: AssemblyContext, st: Stack, procs: seq<ProcedureAst>, n: nat)
      requires n <= |procs|
      reads this, cache, provider, ctx
    {
      forall i: nat :: Asked(i) ==>
        && Ready(ctx) && SameModule(st, ctx.moduleStack)
        && LocalsCompiled(Here(ctx.moduleStack), Locals(st), procs[..n])
    }

    lemma WhileUnderway(ctx: AssemblyContext, st: Stack, procs: seq<ProcedureAst>, n: nat)
      requires n <= |procs| && Underway(ctx, st, procs, n)
      ensures Ready(ctx) && SameModule(st, ctx.moduleStack) && LocalsCompiled(Here(ctx.moduleStack), Locals(st), procs[..n])
      ensures n == |procs| ==> LocalsCompiled(Here(ctx.moduleStack), Locals(st), procs)
    {
      assert Asked(0);
      assert n == |procs| ==> procs[..n] == procs;
    }

    lemma StillUnderway(ctx: AssemblyContext, st: Stack, procs: seq<ProcedureAst>, n: nat)
      requires n <= |procs|
      requires Ready(ctx) && SameModule(st, ctx.moduleStack) && LocalsCompiled(Here(ctx.moduleStack), Locals(st), procs[..n])
      ensures Underway(ctx, st, procs, n)
    {
    }

    /** The same for a module that is begun here. */
    ghost function OwnPlace(ctx: AssemblyContext): Site
      reads this, cache, ctx
    {
      Site(0, cache.State(), Rules(ctx.isKernel, ctx.allowPhantomCalls), debug)
    }

    /** Provider modules not being compiled: the measure of the recursion through imports. */
    ghost function Remaining(st: Stack): nat
      reads this, provider
    {
      |provider.ModulePaths() - Paths(st)|
    }

    constructor (hash: Hash, idOfName: (Path, string) -> ProcId, idOfIndex: (Path, nat) -> ProcId, debug: bool,
                 provider: ModuleProvider, ghost calls: Digest -> set<Digest>)
      requires Determines(hash, calls) && provider.Valid()
      ensures Valid() && fresh(cache) && cache.State() == EMPTY_CACHE && phantoms == {} && kernel == {}
      ensures this.hash == hash && this.calls == calls && this.provider == provider && this.debug == debug
    {
      this.hash, this.idOfName, this.idOfIndex, this.debug, this.provider := hash, idOfName, idOfIndex, debug, provider;
      this.calls, phantoms, kernel := calls, {}, {};
      cache := new ProcedureCache(hash);
    }

    // Invoking procedures

    /** Invokes an earlier procedure of the module being compiled. */
    method InvokeLocal(idx: nat, inlined: bool, ctx: AssemblyContext) returns (r: Result<CodeBlock, AssemblyError>)
      requires Ready(ctx) && InProcedure(ctx.moduleStack)
      modifies ctx
      ensures r.Err? ==> !r.error.CallSetProcedureNotFound?
      ensures r.Ok? <==> idx < |Locals(old(ctx.moduleStack))| && (inlined || !ctx.isKernel)
      ensures r.Err? ==> r.error == if ctx.isKernel && !inlined then CallInKernel else LocalProcNotFound
      ensures r.Ok? ==> Ready(ctx) && OnlyCallsetGrew(old(ctx.moduleStack), ctx.moduleStack)
      ensures r.Ok? ==> Safe(r.value, TopCallset(ctx.moduleStack) + phantoms)
      ensures r.Ok? ==> LowerLocal(Here(old(ctx.moduleStack)), idx, inlined) == Some(BodyCompiler.Inline(r.value))
    {
      ghost var st := ctx.moduleStack;
      var p :- ctx.RegisterLocalCall(idx, inlined);
      LocalCallable(TheWorld(), cache.State(), st, idx);
      CallGood(TheWorld(), cache.State(), st, p, inlined);
      r := Ok(Invocation(hash, p, inlined, false));
    }

    /** Calls a root: registers the procedure if it is cached, a phantom call otherwise. */
    method InvokeMastRoot(root: Digest, ctx: AssemblyContext) returns (r: Result<CodeBlock, AssemblyError>)
      requires Ready(ctx) && InProcedure(ctx.moduleStack)
      modifies this`phantoms, ctx
      ensures Valid() && old(phantoms) <= phantoms && (!ctx.allowPhantomCalls ==> phantoms == old(phantoms))
      ensures r.Err? ==> !r.error.CallSetProcedureNotFound?
      ensures r.Ok? <==> if root in cache.procedures then !ctx.isKernel else ctx.allowPhantomCalls
      ensures r.Ok? ==> Ready(ctx) && OnlyCallsetGrew(old(ctx.moduleStack), ctx.moduleStack)
      ensures r.Ok? ==> r.value == Call(root, false) && Safe(r.value, TopCallset(ctx.moduleStack) + phantoms)
    {
      ghost var st, w, c := ctx.moduleStack, TheWorld(), cache.State();
      var cached := cache.GetByHash(root);
      match cached {
        case Some(p) =>
          var _ :- ctx.RegisterExternalCall(p, false);
          CachedCallable(w, c, Locals(st), root);
          CallGood(w, c, st, p, false);
        case None =>
          var _ :- ctx.RegisterPhantomCall(root);
          phantoms := phantoms + {root};
          WorldGrows(w, c, {root});
          GoodStackGrows(w, c, TheWorld(), c, st);
      }
      r := Ok(Call(root, false));
    }

    /** Invokes a cached procedure. */
    method InvokeCached(id: ProcId, inlined: bool, isSyscall: bool, ctx: AssemblyContext) returns (r: Result<CodeBlock, AssemblyError>)
      requires Ready(ctx) && InProcedure(ctx.moduleStack) && Contains(cache.State(), id)
      modifies ctx
      ensures r.Err? ==> !r.error.CallSetProcedureNotFound?
      ensures r == Err(CallInKernel) <==> ctx.isKernel && !inlined
      ensures r.Ok? || r == Err(CallInKernel)
      ensures r.Ok? ==> Ready(ctx) && OnlyCallsetGrew(old(ctx.moduleStack), ctx.moduleStack)
      ensures r.Ok? ==> Safe(r.value, TopCallset(ctx.moduleStack) + phantoms)
      ensures r.Ok? ==> LowerImported(Here(old(ctx.moduleStack)), id, inlined, isSyscall) == Some(BodyCompiler.Inline(r.value))
    {
      ghost var st, w, c := ctx.moduleStack, TheWorld(), cache.State();
      var found := cache.GetById(id);
      var p := found.value;
      var _ :- ctx.RegisterExternalCall(p, inlined);
      CachedCallGood(w, c, st, id, inlined, isSyscall);
      r := Ok(Invocation(hash, p, inlined, isSyscall));
    }

    /** Invokes a procedure of another module, compiling that module if necessary. */
    method InvokeImported(id: ProcId, inlined: bool, ctx: AssemblyContext) returns (r: Result<CodeBlock, AssemblyError>)
      requires Ready(ctx) && InProcedure(ctx.moduleStack)
      modifies this`phantoms, cache, ctx
      ensures Valid() && old(cache.log) <= cache.log && old(phantoms) <= phantoms
      ensures !ctx.allowPhantomCalls ==> phantoms == old(phantoms)
      ensures r.Err? ==> !r.error.CallSetProcedureNotFound?
      ensures Contains(old(cache.State()), id) ==> cache.log == old(cache.log) && (r.Ok? <==> inlined || !ctx.isKernel)
      ensures r.Ok? ==> Ready(ctx) && OnlyCallsetGrew(old(ctx.moduleStack), ctx.moduleStack)
      ensures r.Ok? ==> Safe(r.value, TopCallset(ctx.moduleStack) + phantoms)
      ensures r.Ok? ==> LowerImported(Here(old(ctx.moduleStack)), id, inlined, false) == Some(BodyCompiler.Inline(r.value))
      decreases Remaining(ctx.moduleStack), 0, 4
    {
      var _ :- EnsureProcedureIsInCache(id, ctx);
      r := InvokeCached(id, inlined, false, ctx);
    }

    /** Invokes a kernel procedure, which must be cached already. */
    method InvokeKernel(id: ProcId, ctx: AssemblyContext) returns (r: Result<CodeBlock, AssemblyError>)
      requires Ready(ctx) && InProcedure(ctx.moduleStack)
      modifies ctx
      ensures r.Err? ==> !r.error.CallSetProcedureNotFound?
      ensures r.Ok? <==> Contains(cache.State(), id) && !ctx.isKernel
      ensures r.Ok? ==> Ready(ctx) && OnlyCallsetGrew(old(ctx.moduleStack), ctx.moduleStack)
      ensures r.Ok? ==> Safe(r.value, TopCallset(ctx.moduleStack) + phantoms)
      ensures r.Ok? ==> LowerImported(Here(old(ctx.moduleStack)), id, false, true) == Some(BodyCompiler.Inline(r.value))
    {
      var found := cache.GetById(id);
      if found.None? {
        return Err(KernelProcNotFound);
      }
      r := InvokeCached(id, false, true, ctx);
    }

    // Programs

    /**
     Compiles a program. The table holds every root that its code calls, directly or through other
     calls, with the exception of phantoms; the table can always be built.
     */
    method CompileAst(program: ProgramAst) returns (r: Result<Program, AssemblyError>)
      requires Valid()
      modifies this`phantoms, cache
      ensures Valid() && old(cache.log) <= cache.log && phantoms == old(phantoms) && kernel == old(kernel)
      ensures r.Err? ==> !r.error.CallSetProcedureNotFound?
      ensures ProgramAccepted(debug, old(cache.State()), program) ==> r.Ok? && cache.log == old(cache.log)
      ensures r.Ok? ==> ClosedProgram(r.value, phantoms) && r.value.kernel == kernel
      ensures r.Ok? ==> TableFor(hash, r.value.table.Keys, r.value.table)
      ensures r.Ok? ==> exists locals: seq<NamedProcedure> ::
                && MeansProgram(Known(debug, hash, locals, cache.State()), program, r.value.root)
                && TableFrom(hash, cache.State(), locals, r.value.table)
    {
      var ctx := new AssemblyContext.ForProgram(hash, false);
      MainGood(TheWorld(), cache.State(), ctx.moduleStack);
      MainFine(debug, cache.State(), program, ctx.moduleStack);
      var root :- CompileInContext(program, ctx);
      ghost var st := ctx.moduleStack;
      ProgramCallsetFound(TheWorld(), cache.State(), st);
      var made := ctx.IntoCbTable(cache);
      ProgramTableClosed(TheWorld(), cache.State(), st, made.value);
      ReadyIsProper(TheWorld(), cache.State(), st, debug);
      CompiledIsLowered(Known(debug, hash, Locals(st), cache.State()), program.body, NO_WRAPPER, root);
      assert MeansProgram(Known(debug, hash, Locals(st), cache.State()), program, root);
      r := match made
           case Ok(table) => Ok(Program(root, kernel, table))
           case Err(e) => Err(e);
    }

    /** Compiles the procedures of a program, none of which may be exported, then its body. */
    method CompileInContext(program: ProgramAst, ctx: AssemblyContext) returns (r: Result<CodeBlock, AssemblyError>)
      requires Ready(ctx) && InProcedure(ctx.moduleStack)
      modifies this`phantoms, cache, ctx
      ensures Valid() && old(cache.log) <= cache.log && old(phantoms) <= phantoms
      ensures !ctx.allowPhantomCalls ==> phantoms == old(phantoms)
      ensures r.Err? ==> !r.error.CallSetProcedureNotFound?
      ensures old(ctx.moduleStack).current.procStack.current.name == MAIN_PROC && ProgramFine(old(Place(ctx)), old(ctx.moduleStack), program) ==>
                r.Ok? && cache.log == old(cache.log)
      ensures r.Ok? ==> Ready(ctx) && InProcedure(ctx.moduleStack)
      ensures r.Ok? ==> (ForMain(old(ctx.moduleStack)) <==> ForMain(ctx.moduleStack))
      ensures r.Ok? ==> Safe(r.value, TopCallset(ctx.moduleStack) + phantoms)
      ensures r.Ok? ==> ProgramCompiled(Here(ctx.moduleStack), Locals(old(ctx.moduleStack)), program, r.value)
    {
      if ctx.moduleStack.current.procStack.current.name != MAIN_PROC {
        return Err(InvalidProgramAssemblyContext);
      }
      ghost var place := Place(ctx);
      var _ :- CompileProcs(program.procs, false, ctx);
      WhileUnderway(ctx, old(ctx.moduleStack), program.procs, |program.procs|);
      assert cache.log == old(cache.log) ==> Place(ctx) == Further(place, |program.procs|);
      r := CompileMain(program, ctx, Locals(old(ctx.moduleStack)));
    }

    /** Compiles the body of a program whose procedures are compiled. */
    method CompileMain(program: ProgramAst, ctx: AssemblyContext, ghost earlier: seq<NamedProcedure>) returns (r: Result<CodeBlock, AssemblyError>)
      requires Ready(ctx) && InProcedure(ctx.moduleStack)
      requires LocalsCompiled(Here(ctx.moduleStack), earlier, program.procs)
      modifies this`phantoms, cache, ctx
      ensures Valid() && old(cache.log) <= cache.log && old(phantoms) <= phantoms
      ensures !ctx.allowPhantomCalls ==> phantoms == old(phantoms)
      ensures r.Err? ==> !r.error.CallSetProcedureNotFound?
      ensures BodyFine(old(Place(ctx)), program.body, NO_WRAPPER) ==> r.Ok? && cache.log == old(cache.log)
      ensures r.Ok? ==> Ready(ctx) && OnlyCallsetGrew(old(ctx.moduleStack), ctx.moduleStack)
      ensures r.Ok? ==> Safe(r.value, TopCallset(ctx.moduleStack) + phantoms)
      ensures r.Ok? ==> ProgramCompiled(Here(ctx.moduleStack), earlier, program, r.value)
    {
      ghost var known, log := Here(ctx.moduleStack), cache.log;
      r := CompileBody(program.body, NO_WRAPPER, ctx);
      if r.Ok? {
        LongerIsLater(known, Here(ctx.moduleStack), log, cache.log);
        LocalsKept(known, Here(ctx.moduleStack), earlier, program.procs);
      }
    }

    /** Compiles a kernel module; its exports become the kernel of the programs compiled later. */
    method WithKernelModule(ast: ModuleAst) returns (r: Result<(), AssemblyError>)
      requires Valid()
      modifies this`phantoms, this`kernel, cache
      ensures Valid() && old(cache.log) <= cache.log && phantoms == old(phantoms)
      ensures r.Err? ==> kernel == old(kernel) && !r.error.CallSetProcedureNotFound?
      ensures ModuleFine(Site(0, old(cache.State()), Rules(true, false), debug), Naming(hash, idOfName, Some(KERNEL_PATH)), ast) ==>
                r.Ok? || RefusedModule(debug, Naming(hash, idOfName, Some(KERNEL_PATH)), idOfIndex, cache.State(), ast, r.error)
      ensures r.Ok? ==> kernel <= cache.procedures.Keys
      ensures r.Ok? ==> exists roots: seq<Digest> ::
                && ModuleCompiled(debug, Naming(hash, idOfName, Some(KERNEL_PATH)), cache.State(), ast, roots)
                && kernel == RootSet(OwnExports(ast, roots))
    {
      var ctx := new AssemblyContext.ForModule(hash, true);
      var roots :- CompileModule(ast, Some(KERNEL_PATH), ctx);
      assert ModuleCompiled(debug, Naming(hash, idOfName, Some(KERNEL_PATH)), cache.State(), ast, roots);
      kernel := ctx.kernel.value;
      r := Ok(());
    }

    // Modules

    /** Compiles the module of a procedure unless the procedure is cached already. */
    method EnsureProcedureIsInCache(id: ProcId, ctx: AssemblyContext) returns (r: Result<(), AssemblyError>)
      requires Ready(ctx)
      modifies this`phantoms, cache, ctx
      ensures Valid() && old(cache.log) <= cache.log && old(phantoms) <= phantoms
      ensures !ctx.allowPhantomCalls ==> phantoms == old(phantoms)
      ensures r.Err? ==> !r.error.CallSetProcedureNotFound?
      ensures r.Ok? ==> Contains(cache.State(), id) && Ready(ctx) && ctx.moduleStack == old(ctx.moduleStack)
      ensures !Contains(old(cache.State()), id) && id !in provider.procedures ==> r == Err(ImportedProcModuleNotFound)
      ensures !Contains(old(cache.State()), id) && id in provider.procedures ==>
                var m := provider.modules[provider.procedures[id]];
                var n := Naming(hash, idOfName, Some(m.path));
                && (m.path in Paths(old(ctx.moduleStack)) ==> r == Err(CircularModuleDependency))
                && (m.path !in Paths(old(ctx.moduleStack)) && ModuleFine(old(OwnPlace(ctx)), n, m.ast) ==>
                    || r.Ok? || (r == Err(ImportedProcNotFoundInModule) && !Contains(cache.State(), id))
                    || RefusedModule(debug, n, idOfIndex, cache.State(), m.ast, r.error))
      ensures Contains(old(cache.State()), id) ==> r.Ok? && cache.log == old(cache.log)
      decreases Remaining(ctx.moduleStack), 0, 3
    {
      var cached := cache.GetById(id);
      if cached.None? {
        var found := provider.GetModule(id);
        if found.None? {
          return Err(ImportedProcModuleNotFound);
        }
        var m := found.value;
        RemainingWithout(provider.ModulePaths(), Paths(ctx.moduleStack), m.path);
        var _ :- CompileModule(m.ast, Some(m.path), ctx);
        cached := cache.GetById(id);
        if cached.None? {
          return Err(ImportedProcNotFoundInModule);
        }
      }
      r := Ok(());
    }

    /** Compiles a module into the cache; returns the roots of what it exports. */
    method CompileModule(ast: ModuleAst, path: Option<Path>, ctx: AssemblyContext) returns (r: Result<seq<Digest>, AssemblyError>)
      requires Ready(ctx)
      modifies this`phantoms, cache, ctx
      ensures Valid() && old(cache.log) <= cache.log && old(phantoms) <= phantoms
      ensures !ctx.allowPhantomCalls ==> phantoms == old(phantoms)
      ensures r.Err? ==> !r.error.CallSetProcedureNotFound?
      ensures (&& PathOf(path) !in Paths(old(ctx.moduleStack))
               && ModuleFine(old(OwnPlace(ctx)), Naming(hash, idOfName, path), ast)) ==>
                r.Ok? || RefusedModule(debug, Naming(hash, idOfName, path), idOfIndex, cache.State(), ast, r.error)
      ensures r.Ok? && ctx.isKernel && ctx.moduleStack.NoModule? ==>
                ctx.kernel == Some(RootSet(OwnExports(ast, r.value))) && ctx.kernel.value <= cache.procedures.Keys
      ensures PathOf(path) in Paths(old(ctx.moduleStack)) ==> r == Err(CircularModuleDependency)
      ensures r.Ok? ==> Ready(ctx) && ctx.moduleStack == old(ctx.moduleStack)
      ensures r.Ok? ==> ModuleCompiled(debug, Naming(hash, idOfName, path), cache.State(), ast, r.value)
      decreases |provider.ModulePaths() - Paths(ctx.moduleStack) - {PathOf(path)}|,
                (if PathOf(path) in Paths(ctx.moduleStack) then 0 else ProcsSize(ast.procs) + 1), 2
    {
      ghost var st := ctx.moduleStack;
      var _ :- ctx.BeginModule(PathOf(path));
      PushedModule(TheWorld(), cache.State(), provider.ModulePaths(), st, PathOf(path));
      BegunFine(Place(ctx), Naming(hash, idOfName, path), ast, ctx.moduleStack);
      r := CompileBegun(ast, path, ctx);
    }

    /** Compiles the module that has just been begun. */
    method CompileBegun(ast: ModuleAst, path: Option<Path>, ctx: AssemblyContext) returns (r: Result<seq<Digest>, AssemblyError>)
      requires Ready(ctx) && ctx.moduleStack.InModule? && Locals(ctx.moduleStack) == []
      modifies this`phantoms, cache, ctx
      ensures Valid() && old(cache.log) <= cache.log && old(phantoms) <= phantoms
      ensures !ctx.allowPhantomCalls ==> phantoms == old(phantoms)
      ensures r.Err? ==> !r.error.CallSetProcedureNotFound?
      ensures (&& ReExportsFine(Naming(hash, idOfName, path), old(cache.State()), ast.reexportedProcs, 0)
               && ProcsFine(old(Place(ctx)), old(ctx.moduleStack), ast.procs, true, 0)) ==>
                r.Ok? || RefusedModule(debug, Naming(hash, idOfName, path), idOfIndex, cache.State(), ast, r.error)
      ensures r.Ok? && ctx.isKernel && ctx.moduleStack.NoModule? ==>
                ctx.kernel == Some(RootSet(OwnExports(ast, r.value))) && ctx.kernel.value <= cache.procedures.Keys
      ensures r.Ok? ==> Ready(ctx) && ctx.moduleStack == old(ctx.moduleStack).importers
      ensures r.Ok? ==> ModuleCompiled(debug, Naming(hash, idOfName, path), cache.State(), ast, r.value)
      decreases Remaining(ctx.moduleStack), ProcsSize(ast.procs) + 1, 1
    {
      var roots :- CompileContents(ast, path, ctx);
      ghost var known, log := Here(ctx.moduleStack), cache.log;
      var finished := FinishModule(path, ctx);
      RefusedAfter(Naming(hash, idOfName, path), idOfIndex, known, log, cache.log, ast, finished);
      var exported :- finished;
      ModuleKept(Naming(hash, idOfName, path), known, log, cache.log, ast, roots);
      assert OwnExports(ast, roots + exported) == exported;
      r := Ok(roots + exported);
    }

    /** Compiles what a module re-exports, then its procedures. */
    method CompileContents(ast: ModuleAst, path: Option<Path>, ctx: AssemblyContext) returns (r: Result<seq<Digest>, AssemblyError>)
      requires Ready(ctx) && ctx.moduleStack.InModule?
      modifies this`phantoms, cache, ctx
      ensures Valid() && old(cache.log) <= cache.log && old(phantoms) <= phantoms
      ensures !ctx.allowPhantomCalls ==> phantoms == old(phantoms)
      ensures r.Err? ==> !r.error.CallSetProcedureNotFound?
      ensures ReExportsFine(Naming(hash, idOfName, path), old(cache.State()), ast.reexportedProcs, 0) ==>
                ProcsFine(old(Place(ctx)), old(ctx.moduleStack), ast.procs, true, 0) ==> r.Ok?
      ensures r.Ok? ==> Ready(ctx) && SameModule(old(ctx.moduleStack), ctx.moduleStack)
      ensures r.Ok? ==> ReExportsCached(Naming(hash, idOfName, path), cache.State(), ast.reexportedProcs, r.value)
      ensures r.Ok? ==> LocalsCompiled(Here(ctx.moduleStack), Locals(old(ctx.moduleStack)), ast.procs)
      decreases Remaining(ctx.moduleStack), ProcsSize(ast.procs) + 1, 0
    {
      ghost var place := Place(ctx);
      var roots :- CompileReExports(ast.reexportedProcs, path, ctx);
      ghost var log := cache.log;
      if MoreAliases(place.cache, cache.State()) {
        ProcsFineMore(place, cache.State(), ctx.moduleStack, ast.procs, true, 0);
      }
      ghost var st := ctx.moduleStack;
      var _ :- CompileProcs(ast.procs, true, ctx);
      WhileUnderway(ctx, st, ast.procs, |ast.procs|);
      ReExportsKept(Naming(hash, idOfName, path), log, cache.log, ast.reexportedProcs, roots);
      r := Ok(roots);
    }

    /** Pops the current module and caches its procedures. */
    method FinishModule(path: Option<Path>, ctx: AssemblyContext) returns (r: Result<seq<Digest>, AssemblyError>)
      requires Ready(ctx) && ctx.moduleStack.InModule?
      modifies cache, ctx
      ensures Valid() && old(cache.log) <= cache.log
      ensures r.Err? ==> !r.error.CallSetProcedureNotFound?
      ensures r.Err? ==> AnyRefused(Naming(hash, idOfName, path), idOfIndex, cache.State(), Locals(old(ctx.moduleStack)), r.error)
      ensures r.Ok? ==> Ready(ctx) && ctx.moduleStack == old(ctx.moduleStack).importers
      ensures r.Ok? && ctx.isKernel && ctx.moduleStack.NoModule? ==>
                ctx.kernel == Some(RootSet(r.value)) && ctx.kernel.value <= cache.procedures.Keys
      ensures r.Ok? ==> r.value == ExportedList(hash, Locals(old(ctx.moduleStack)))
      ensures r.Ok? ==> ExportsCached(Naming(hash, idOfName, path), cache.State(), Locals(old(ctx.moduleStack)))
    {
      ghost var m := ctx.moduleStack.current;
      var procs, callset := ctx.CompleteModule();
      r := CacheProcs(procs, callset, path, m);
      ExportedListIsRoots(hash, procs);
      GoodStackKept(TheWorld(), old(cache.log), TheWorld(), cache.log, ctx.moduleStack);
    }

    method CompileReExports(procs: seq<ProcReExport>, path: Option<Path>, ctx: AssemblyContext) returns (r: Result<seq<Digest>, AssemblyError>)
      requires Ready(ctx)
      modifies this`phantoms, cache, ctx
      ensures Valid() && old(cache.log) <= cache.log && old(phantoms) <= phantoms
      ensures !ctx.allowPhantomCalls ==> phantoms == old(phantoms)
      ensures r.Err? ==> !r.error.CallSetProcedureNotFound?
      ensures ReExportsFine(Naming(hash, idOfName, path), old(cache.State()), procs, 0) ==>
                r.Ok? && MoreAliases(old(cache.State()), cache.State())
      ensures r.Ok? ==> Ready(ctx) && ctx.moduleStack == old(ctx.moduleStack)
      ensures r.Ok? ==> ReExportsCached(Naming(hash, idOfName, path), cache.State(), procs, r.value)
      decreases Remaining(ctx.moduleStack), 0, 5
    {
      var roots: seq<Digest> := [];
      ghost var n := Naming(hash, idOfName, path);
      ghost var fine := ReExportsFine(n, cache.State(), procs, 0);
      for i := 0 to |procs|
        invariant Ready(ctx) && ctx.moduleStack == old(ctx.moduleStack)
        invariant fine ==> ReExportsFine(n, cache.State(), procs, i) && MoreAliases(old(cache.State()), cache.State())
        invariant ReExportsCached(Naming(hash, idOfName, path), cache.State(), procs[..i], roots)
        invariant old(cache.log) <= cache.log && old(phantoms) <= phantoms
        invariant !ctx.allowPhantomCalls ==> phantoms == old(phantoms)
      {
        ghost var log, c := cache.log, cache.State();
        NextReExport(n, c, procs, i);
        var root :- CompileReExport(procs[i], path, ctx);
        if fine {
          OtherReExports(n, c, cache.State(), procs, i);
        }
        OneMoreReExport(Naming(hash, idOfName, path), log, cache.log, procs, i, roots, root);
        roots := roots + [root];
      }
      assert procs[..|procs|] == procs;
      r := Ok(roots);
    }

    /** Compiles procedures of the current module in order; a program may not export any. */
    method CompileProcs(procs: seq<ProcedureAst>, mayExport: bool, ctx: AssemblyContext) returns (r: Result<(), AssemblyError>)
      requires Ready(ctx) && ctx.moduleStack.InModule?
      modifies this`phantoms, cache, ctx
      ensures Valid() && old(cache.log) <= cache.log && old(phantoms) <= phantoms
      ensures !ctx.allowPhantomCalls ==> phantoms == old(phantoms)
      ensures r.Err? ==> !r.error.CallSetProcedureNotFound?
      ensures ProcsFine(old(Place(ctx)), old(ctx.moduleStack), procs, mayExport, 0) ==> r.Ok? && cache.log == old(cache.log)
      ensures r.Ok? ==> ctx.moduleStack.InModule? && Underway(ctx, old(ctx.moduleStack), procs, |procs|)
      decreases Remaining(ctx.moduleStack), ProcsSize(procs), 1
    {
      ghost var st, fine := ctx.moduleStack, ProcsFine(Place(ctx), ctx.moduleStack, procs, mayExport, 0);
      StillUnderway(ctx, st, procs, 0);
      for i := 0 to |procs|
        invariant Underway(ctx, st, procs, i) && old(cache.log) <= cache.log && old(phantoms) <= phantoms
        invariant !ctx.allowPhantomCalls ==> phantoms == old(phantoms)
        invariant ctx.moduleStack.InModule? && Paths(ctx.moduleStack) == Paths(st)
        invariant fine ==> cache.log == old(cache.log) && ProcsFine(Place(ctx), ctx.moduleStack, procs, mayExport, i)
      {
        ProcSmaller(procs, i);
        var _ :- CompileNextProc(procs, i, mayExport, ctx, st);
      }
      WhileUnderway(ctx, st, procs, |procs|);
      r := Ok(());
    }

    /** Compiles the next procedure, unless it is exported and may not be. */
    method CompileNextProc(procs: seq<ProcedureAst>, i: nat, mayExport: bool, ctx: AssemblyContext, ghost st: Stack)
      returns (r: Result<(), AssemblyError>)
      requires i < |procs| && ctx.moduleStack.InModule? && Underway(ctx, st, procs, i)
      modifies this`phantoms, cache, ctx
      ensures Valid() && old(cache.log) <= cache.log && old(phantoms) <= phantoms
      ensures !ctx.allowPhantomCalls ==> phantoms == old(phantoms)
      ensures r.Err? ==> !r.error.CallSetProcedureNotFound?
      ensures ProcsFine(old(Place(ctx)), old(ctx.moduleStack), procs, mayExport, i) ==>
                && r.Ok? && cache.log == old(cache.log)
                && ctx.moduleStack.InModule? && ProcsFine(Place(ctx), ctx.moduleStack, procs, mayExport, i + 1)
      ensures r.Ok? ==> ctx.moduleStack.InModule? && Paths(ctx.moduleStack) == Paths(old(ctx.moduleStack))
      ensures r.Ok? ==> Underway(ctx, st, procs, i + 1)
      decreases Remaining(ctx.moduleStack), NodesSize(procs[i].body), 5
    {
      WhileUnderway(ctx, st, procs, i);
      ghost var place, before := Place(ctx), ctx.moduleStack;
      NextFine(place, before, procs, mayExport, i);
      ghost var known, log := Here(ctx.moduleStack), cache.log;
      var _ :- CompileAllowed(procs[i], mayExport, ctx);
      NextLocals(known, Here(ctx.moduleStack), log, cache.log, Locals(st), procs, i);
      OthersFine(place, Place(ctx).(cache := place.cache), before, ctx.moduleStack, procs, mayExport, i);
      StillUnderway(ctx, st, procs, i + 1);
      r := Ok(());
    }

    /** Compiles a procedure, unless it is exported and may not be. */
    method CompileAllowed(proc: ProcedureAst, mayExport: bool, ctx: AssemblyContext) returns (r: Result<(), AssemblyError>)
      requires Ready(ctx) && ctx.moduleStack.InModule?
      modifies this`phantoms, cache, ctx
      ensures Valid() && old(cache.log) <= cache.log && old(phantoms) <= phantoms
      ensures !ctx.allowPhantomCalls ==> phantoms == old(phantoms)
      ensures r.Err? ==> !r.error.CallSetProcedureNotFound?
      ensures proc.isExport && !mayExport ==> r == Err(ExportedProcInProgram)
      ensures (&& (proc.isExport ==> mayExport) && !KnownName(old(ctx.moduleStack), proc.name)
               && BodyFine(old(Place(ctx)), proc.body, LocalsWrapper(proc.numLocals))) ==> r.Ok? && cache.log == old(cache.log)
      ensures r.Ok? ==> Ready(ctx) && AddedProc(old(ctx.moduleStack), ctx.moduleStack, proc)
      ensures r.Ok? ==> LocalCompiled(Here(ctx.moduleStack), |Locals(old(ctx.moduleStack))|, proc)
      decreases Remaining(ctx.moduleStack), NodesSize(proc.body), 4
    {
      if proc.isExport && !mayExport {
        return Err(ExportedProcInProgram);
      }
      r := CompileProcedure(proc, ctx);
    }

    /** Makes sure a re-exported procedure is cached and names it in this module; returns its root. */
    method CompileReExport(proc: ProcReExport, path: Option<Path>, ctx: AssemblyContext) returns (r: Result<Digest, AssemblyError>)
      requires Ready(ctx)
      modifies this`phantoms, cache, ctx
      ensures Valid() && old(cache.log) <= cache.log && old(phantoms) <= phantoms
      ensures !ctx.allowPhantomCalls ==> phantoms == old(phantoms)
      ensures r.Err? ==> !r.error.CallSetProcedureNotFound?
      ensures ReExportFine(Naming(hash, idOfName, path), old(cache.State()), proc) ==>
                && r.Ok? && OnlyAliased(old(cache.State()), cache.State(), NewAlias(Naming(hash, idOfName, path), proc))
      ensures r.Ok? ==> Ready(ctx) && ctx.moduleStack == old(ctx.moduleStack)
      ensures r.Ok? ==> ReExportCached(Naming(hash, idOfName, path), cache.State(), proc, r.value)
      ensures r != Err(ReExportedProcModuleNotFound) ==>
                (r == Err(AliasHasNoDirectRoot) <==> path.None? && proc.procId in cache.procAliases)
      ensures Contains(old(cache.State()), proc.procId) ==> r != Err(ReExportedProcModuleNotFound)
      decreases Remaining(ctx.moduleStack), 0, 4
    {
      var ensured := EnsureProcedureIsInCache(proc.procId, ctx);
      if ensured.Err? {
        return Err(ReExportedProcModuleNotFound);
      }
      r := NameReExport(proc, path, ctx);
    }

    /** Names a cached procedure in this module. Without a path its root is looked up among direct ids. */
    method NameReExport(proc: ProcReExport, path: Option<Path>, ghost ctx: AssemblyContext) returns (r: Result<Digest, AssemblyError>)
      requires Ready(ctx) && Contains(cache.State(), proc.procId)
      modifies cache
      ensures Ready(ctx) && old(cache.log) <= cache.log
      ensures r.Err? ==> r.error.DuplicateProcId? || r.error.AliasHasNoDirectRoot?
      ensures ReExportFine(Naming(hash, idOfName, path), old(cache.State()), proc) ==> r.Ok?
      ensures OnlyAliased(old(cache.State()), cache.State(), NewAlias(Naming(hash, idOfName, path), proc))
      ensures r.Ok? ==> ReExportCached(Naming(hash, idOfName, path), cache.State(), proc, r.value)
      ensures r == Err(AliasHasNoDirectRoot) <==> path.None? && proc.procId in cache.procAliases
    {
      if path.Some? {
        r := AliasReExport(proc, path.value, ctx);
      } else {
        var direct := cache.GetProcRootById(proc.procId);
        r := match direct
             case None => Err(AliasHasNoDirectRoot)
             case Some(root) => Ok(root);
      }
    }

    method AliasReExport(proc: ProcReExport, path: Path, ghost ctx: AssemblyContext) returns (r: Result<Digest, AssemblyError>)
      requires Ready(ctx) && Contains(cache.State(), proc.procId)
      modifies cache
      ensures Ready(ctx) && old(cache.log) <= cache.log
      ensures r.Err? ==> r.error.DuplicateProcId?
      ensures r == Err(DuplicateProcId) <==> Contains(old(cache.State()), idOfName(path, proc.name))
      ensures OnlyAliased(old(cache.State()), cache.State(), {idOfName(path, proc.name)})
      ensures r.Ok? ==> ReExportCached(Naming(hash, idOfName, Some(path)), cache.State(), proc, r.value)
    {
      ghost var w1, c1, log1 := TheWorld(), cache.State(), cache.log;
      r := cache.InsertProcAlias(idOfName(path, proc.name), proc.procId);
      if r.Ok? {
        AliasKeepsClosed(w1, c1, cache.State());
        LongerRunExtends(hash, log1, cache.log);
        LookupStable(hash, c1, cache.State(), proc.procId);
        GoodStackKept(w1, log1, w1, cache.log, ctx.moduleStack);
      }
    }

    /**
     Caches the exported procedures of a module and the internal ones that are called. At every
     point, also if a later insert is refused, the cache is closed under calls.
     */
    method CacheProcs(procs: seq<NamedProcedure>, callset: set<Digest>, path: Option<Path>, ghost m: ModuleContext)
      returns (r: Result<seq<Digest>, AssemblyError>)
      requires Valid() && GoodModule(TheWorld(), cache.State(), m)
      requires procs == m.compiledProcs && callset == m.callset
      modifies cache
      ensures Valid() && old(cache.log) <= cache.log
      ensures r.Err? ==> !r.error.CallSetProcedureNotFound?
      ensures r.Err? ==> exists i: nat :: i < |procs| && Refused(Naming(hash, idOfName, path), idOfIndex, callset, cache.State(), procs[i], i, r.error)
      ensures r.Ok? ==> ExportedRoots(hash, procs) <= cache.procedures.Keys
      ensures r.Ok? ==> r.value == ExportedList(hash, procs)
      ensures r.Ok? ==> ExportsCached(Naming(hash, idOfName, path), cache.State(), procs)
    {
      var exported: seq<Digest> := [];
      for i := 0 to |procs|
        invariant Valid() && old(cache.log) <= cache.log && exported == ExportedList(hash, procs[..i])
        invariant ExportsCached(Naming(hash, idOfName, path), cache.State(), procs[..i])
        invariant CalledCached(hash, cache.State(), procs[..i], callset)
      {
        ghost var c, log := cache.State(), cache.log;
        var _ :- CacheIfNeeded(procs[i], i, callset, path, m, old(cache.log));
        if procs[i].isExport {
          exported := exported + [hash(procs[i].procedure.code)];
        }
        OneMoreCached(hash, c, cache.State(), procs, i, callset);
        OneMoreExport(Naming(hash, idOfName, path), log, cache.log, procs, i);
      }
      assert procs[..|procs|] == procs;
      r := Ok(exported);
    }

    /** Caches a procedure of a completed module if it is exported or called. */
    method CacheIfNeeded(proc: NamedProcedure, i: nat, callset: set<Digest>, path: Option<Path>, ghost m: ModuleContext, ghost log: seq<CacheOp>)
      returns (r: Result<(), AssemblyError>)
      requires Valid() && log <= cache.log && GoodModule(TheWorld(), ApplyAll(hash, EMPTY_CACHE, log), m)
      requires i < |m.compiledProcs| && proc == m.compiledProcs[i] && callset == m.callset
      requires CalledCached(hash, cache.State(), m.compiledProcs[..i], callset)
      modifies cache
      ensures Valid() && old(cache.log) <= cache.log && old(cache.procedures).Keys <= cache.procedures.Keys
      ensures r.Err? ==> !r.error.CallSetProcedureNotFound?
      ensures r.Err? ==> Refused(Naming(hash, idOfName, path), idOfIndex, callset, cache.State(), proc, i, r.error)
      ensures r.Ok? && (proc.isExport || hash(proc.procedure.code) in callset) ==> hash(proc.procedure.code) in cache.procedures
      ensures !proc.isExport && hash(proc.procedure.code) !in callset ==> r.Ok? && cache.log == old(cache.log)
      ensures r.Ok? && !proc.isExport && hash(proc.procedure.code) in callset && path.Some? ==>
                CachedAs(hash, cache.State(), idOfIndex(path.value, i), hash(proc.procedure.code))
      ensures r.Ok? ==> ExportCached(Naming(hash, idOfName, path), cache.State(), proc)
    {
      if !proc.isExport && hash(proc.procedure.code) !in callset {
        return Ok(());
      }
      var id := IdFor(path, idOfName, idOfIndex, proc, i);
      LongerRunExtends(hash, log, cache.log);
      NextProcCallsCached(TheWorld(), ApplyAll(hash, EMPTY_CACHE, log), cache.State(), m, i);
      r := CacheProc(proc, id);
    }

    /** Caches a procedure whose calls are cached. */
    method CacheProc(proc: NamedProcedure, id: Option<ProcId>) returns (r: Result<(), AssemblyError>)
      requires Valid() && Complete(TheWorld(), proc.procedure) && proc.procedure.callset <= cache.procedures.Keys
      modifies cache
      ensures Valid() && old(cache.log) <= cache.log && old(cache.procedures).Keys <= cache.procedures.Keys
      ensures r.Err? ==> !r.error.CallSetProcedureNotFound?
      ensures r.Err? ==> CannotInsert(hash, cache.State(), proc.procedure, id, r.error)
      ensures r.Ok? ==> hash(proc.procedure.code) in cache.procedures
      ensures r.Ok? && id.Some? ==> CachedAs(hash, cache.State(), id.value, hash(proc.procedure.code))
    {
      ghost var c := cache.State();
      r := cache.Insert(proc, id);
      if r.Ok? {
        InsertKeepsClosed(TheWorld(), c, proc.procedure, id);
      }
    }

    // Procedures and bodies

    /** Compiles a procedure and adds it to the procedures of its module. */
    method CompileProcedure(proc: ProcedureAst, ctx: AssemblyContext) returns (r: Result<(), AssemblyError>)
      requires Ready(ctx) && ctx.moduleStack.InModule?
      modifies this`phantoms, cache, ctx
      ensures Valid() && old(cache.log) <= cache.log && old(phantoms) <= phantoms
      ensures !ctx.allowPhantomCalls ==> phantoms == old(phantoms)
      ensures r.Err? ==> !r.error.CallSetProcedureNotFound?
      ensures !KnownName(old(ctx.moduleStack), proc.name) && BodyFine(old(Place(ctx)), proc.body, LocalsWrapper(proc.numLocals)) ==>
                r.Ok? && cache.log == old(cache.log)
      ensures r.Ok? ==> Ready(ctx) && AddedProc(old(ctx.moduleStack), ctx.moduleStack, proc)
      ensures r.Ok? ==> LocalCompiled(Here(ctx.moduleStack), |Locals(old(ctx.moduleStack))|, proc)
      decreases Remaining(ctx.moduleStack), NodesSize(proc.body), 3
    {
      ghost var st := ctx.moduleStack;
      var code :- CompileStarted(proc, ctx);
      FinishProc(proc, code, st, ctx);
      r := Ok(());
    }

    /** Starts a procedure and compiles its body. */
    method CompileStarted(proc: ProcedureAst, ctx: AssemblyContext) returns (r: Result<CodeBlock, AssemblyError>)
      requires Ready(ctx) && ctx.moduleStack.InModule?
      modifies this`phantoms, cache, ctx
      ensures Valid() && old(cache.log) <= cache.log && old(phantoms) <= phantoms
      ensures !ctx.allowPhantomCalls ==> phantoms == old(phantoms)
      ensures r.Err? ==> !r.error.CallSetProcedureNotFound?
      ensures !KnownName(old(ctx.moduleStack), proc.name) && BodyFine(old(Place(ctx)), proc.body, LocalsWrapper(proc.numLocals)) ==>
                r.Ok? && cache.log == old(cache.log)
      ensures r.Ok? ==> Ready(ctx) && InProcedure(ctx.moduleStack)
      ensures r.Ok? ==> OnlyCallsetGrew(Started(old(ctx.moduleStack), ProcedureContext(proc.name, proc.isExport, proc.numLocals, {})), ctx.moduleStack)
      ensures r.Ok? ==> Safe(r.value, TopCallset(ctx.moduleStack) + phantoms)
      ensures r.Ok? ==> CompiledFrom(Here(ctx.moduleStack), proc.body, LocalsWrapper(proc.numLocals), r.value)
      decreases Remaining(ctx.moduleStack), NodesSize(proc.body), 2
    {
      ghost var st := ctx.moduleStack;
      var _ :- ctx.BeginProc(proc.name, proc.isExport, proc.numLocals);
      StartedGood(TheWorld(), cache.State(), st, ProcedureContext(proc.name, proc.isExport, proc.numLocals, {}));
      r := CompileBody(proc.body, LocalsWrapper(proc.numLocals), ctx);
    }

    /** Turns the procedure that was being compiled into a compiled one. */
    method FinishProc(ghost proc: ProcedureAst, code: CodeBlock, ghost st: Stack, ctx: AssemblyContext)
      requires Ready(ctx) && InProcedure(ctx.moduleStack) && st.InModule?
      requires OnlyCallsetGrew(Started(st, ProcedureContext(proc.name, proc.isExport, proc.numLocals, {})), ctx.moduleStack)
      requires Safe(code, TopCallset(ctx.moduleStack) + phantoms)
      requires CompiledFrom(Here(ctx.moduleStack), proc.body, LocalsWrapper(proc.numLocals), code)
      modifies ctx
      ensures Ready(ctx) && AddedProc(st, ctx.moduleStack, proc)
      ensures LocalCompiled(Here(ctx.moduleStack), |Locals(st)|, proc)
    {
      ghost var body := ctx.moduleStack;
      ctx.CompleteProc(code);
      CompletedGood(TheWorld(), cache.State(), body.current, code);
      CompletedAdds(st, body, proc, code);
      NewLocalCompiled(Here(st), LastProc(ctx.moduleStack), proc);
    }

    /**
     Compiles a body: the block is what the body compiler makes of the lowered body, and the
     callset of the current procedure covers all its calls.
     */
    method CompileBody(nodes: seq<Node>, w: Wrapper, ctx: AssemblyContext) returns (r: Result<CodeBlock, AssemblyError>)
      requires Ready(ctx) && InProcedure(ctx.moduleStack)
      modifies this`phantoms, cache, ctx
      ensures Valid() && old(cache.log) <= cache.log && old(phantoms) <= phantoms
      ensures !ctx.allowPhantomCalls ==> phantoms == old(phantoms)
      ensures r.Err? ==> !r.error.CallSetProcedureNotFound?
      ensures BodyFine(old(Place(ctx)), nodes, w) ==> r.Ok? && cache.log == old(cache.log)
      ensures r.Ok? ==> Ready(ctx) && OnlyCallsetGrew(old(ctx.moduleStack), ctx.moduleStack)
      ensures r.Ok? ==> Safe(r.value, TopCallset(ctx.moduleStack) + phantoms)
      ensures r.Ok? ==> CompiledFrom(Here(ctx.moduleStack), nodes, w, r.value)
      decreases Remaining(ctx.moduleStack), NodesSize(nodes), 1
    {
      var span := new SpanBuilder(w);
      var blocks :- CompileAll(nodes, w, span, ctx);
      ghost var p := BodyCompiler.Partial(blocks, span.Open());
      r := FinishBody(span, blocks, TopCallset(ctx.moduleStack) + phantoms);
      if r.Ok? {
        AllCompiled(Here(ctx.moduleStack), nodes, w, p, r.value);
      }
    }

    /** Compiles the nodes of a body in order; the last span is left open. */
    method CompileAll(nodes: seq<Node>, w: Wrapper, span: SpanBuilder, ctx: AssemblyContext) returns (r: Result<seq<CodeBlock>, AssemblyError>)
      requires Ready(ctx) && InProcedure(ctx.moduleStack)
      requires span.Open() == OpSpan(w.prologue, []) && span.epilogue == w.epilogue
      modifies this`phantoms, cache, ctx, span
      ensures Valid() && old(cache.log) <= cache.log && old(phantoms) <= phantoms
      ensures !ctx.allowPhantomCalls ==> phantoms == old(phantoms)
      ensures r.Err? ==> !r.error.CallSetProcedureNotFound?
      ensures BodyFine(old(Place(ctx)), nodes, w) ==>
                && r.Ok? && cache.log == old(cache.log)
                && BodyCompiler.Finish(BodyCompiler.Partial(r.value, span.Open()), w.epilogue).Ok?
      ensures r.Ok? ==> Ready(ctx) && OnlyCallsetGrew(old(ctx.moduleStack), ctx.moduleStack)
      ensures r.Ok? ==> AllSafe(r.value, TopCallset(ctx.moduleStack) + phantoms)
      ensures r.Ok? ==> OpenOrdered(span.Open()) && span.epilogue == w.epilogue
      ensures r.Ok? ==> CompiledSoFar(Here(ctx.moduleStack), nodes, w, BodyCompiler.Partial(r.value, span.Open()))
      decreases Remaining(ctx.moduleStack), NodesSize(nodes), 0
    {
      ghost var st := ctx.moduleStack;
      ghost var fine := BodyFine(Place(ctx), nodes, w);
      var blocks: seq<CodeBlock> := [];
      NothingCompiled(Here(st), w);
      for i := 0 to |nodes|
        invariant Ready(ctx) && OnlyCallsetGrew(st, ctx.moduleStack)
        invariant old(cache.log) <= cache.log && old(phantoms) <= phantoms
        invariant !ctx.allowPhantomCalls ==> phantoms == old(phantoms)
        invariant OpenOrdered(span.Open()) && span.epilogue == w.epilogue
        invariant CompiledSoFar(Here(ctx.moduleStack), nodes[..i], w, BodyCompiler.Partial(blocks, span.Open()))
        invariant AllSafe(blocks, TopCallset(ctx.moduleStack) + phantoms)
        invariant fine ==> cache.log == old(cache.log) && BodyFine(Place(ctx), nodes, w)
      {
        NodeSmaller(nodes, i);
        blocks :- CompileNext(nodes, i, w, span, blocks, ctx);
      }
      assert nodes[..|nodes|] == nodes;
      if fine {
        FineEnd(Place(ctx), Here(ctx.moduleStack), nodes, w, BodyCompiler.Partial(blocks, span.Open()));
      }
      r := Ok(blocks);
    }

    /** Compiles the next node of a body. */
    method CompileNext(nodes: seq<Node>, i: nat, ghost w: Wrapper, span: SpanBuilder, blocks: seq<CodeBlock>, ctx: AssemblyContext)
      returns (r: Result<seq<CodeBlock>, AssemblyError>)
      requires Ready(ctx) && InProcedure(ctx.moduleStack) && i < |nodes|
      requires AllSafe(blocks, TopCallset(ctx.moduleStack) + phantoms) && OpenOrdered(span.Open())
      requires CompiledSoFar(Here(ctx.moduleStack), nodes[..i], w, BodyCompiler.Partial(blocks, span.Open()))
      modifies this`phantoms, cache, ctx, span
      ensures Valid() && old(cache.log) <= cache.log && old(phantoms) <= phantoms
      ensures !ctx.allowPhantomCalls ==> phantoms == old(phantoms)
      ensures r.Err? ==> !r.error.CallSetProcedureNotFound?
      ensures BodyFine(old(Place(ctx)), nodes, w) ==> r.Ok? && cache.log == old(cache.log) && InProcedure(ctx.moduleStack) && BodyFine(Place(ctx), nodes, w)
      ensures r.Ok? ==> Ready(ctx) && OnlyCallsetGrew(old(ctx.moduleStack), ctx.moduleStack)
      ensures r.Ok? ==> AllSafe(r.value, TopCallset(ctx.moduleStack) + phantoms)
      ensures r.Ok? ==> OpenOrdered(span.Open()) && span.epilogue == old(span.epilogue)
      ensures r.Ok? ==> CompiledSoFar(Here(ctx.moduleStack), nodes[..i + 1], w, BodyCompiler.Partial(r.value, span.Open()))
      decreases Remaining(ctx.moduleStack), NodeSize(nodes[i]), 4
    {
      ghost var known, log, p := Here(ctx.moduleStack), cache.log, BodyCompiler.Partial(blocks, span.Open());
      if BodyFine(Place(ctx), nodes, w) {
        FineNode(Place(ctx), known, nodes, i, w, p);
      }
      r := CompileNode(nodes[i], span, blocks, ctx);
      if r.Ok? {
        LongerIsLater(known, Here(ctx.moduleStack), log, cache.log);
        CompiledOneMore(known, Here(ctx.moduleStack), nodes, i, w, p, BodyCompiler.Partial(r.value, span.Open()));
      }
    }

    /** Closes the last span and combines the blocks of a body. */
    method FinishBody(span: SpanBuilder, blocks: seq<CodeBlock>, ghost roots: set<Digest>) returns (r: Result<CodeBlock, AssemblyError>)
      requires AllSafe(blocks, roots) && OpenOrdered(span.Open())
      modifies span
      ensures r == BodyCompiler.Finish(BodyCompiler.Partial(blocks, old(span.Open())), old(span.epilogue))
      ensures r.Err? ==> !r.error.CallSetProcedureNotFound?
      ensures r.Ok? ==> Safe(r.value, roots)
    {
      FlushedSafe(BodyCompiler.Partial(blocks, OpSpan(span.ops + span.epilogue, span.decorators)), roots);
      var finished :- span.ExtractFinalSpanInto(blocks);
      if finished == [] {
        r := Ok(DecoratorLoss.NOOP_BLOCK);
      } else {
        CombinedSafe(finished, roots);
        var combined := CombineBlocks(finished);
        r := Ok(combined);
      }
    }

    /** Compiles one node: extends the open span, or closes it and adds the node's blocks. */
    method CompileNode(n: Node, span: SpanBuilder, blocks: seq<CodeBlock>, ctx: AssemblyContext) returns (r: Result<seq<CodeBlock>, AssemblyError>)
      requires Ready(ctx) && InProcedure(ctx.moduleStack)
      requires AllSafe(blocks, TopCallset(ctx.moduleStack) + phantoms) && OpenOrdered(span.Open())
      modifies this`phantoms, cache, ctx, span
      ensures Valid() && old(cache.log) <= cache.log && old(phantoms) <= phantoms
      ensures !ctx.allowPhantomCalls ==> phantoms == old(phantoms)
      ensures r.Err? ==> !r.error.CallSetProcedureNotFound?
      ensures NodeFine(old(Place(ctx)), n, old(span.Open())) ==> r.Ok? && cache.log == old(cache.log)
      ensures r.Ok? ==> Ready(ctx) && OnlyCallsetGrew(old(ctx.moduleStack), ctx.moduleStack)
      ensures r.Ok? ==> AllSafe(r.value, TopCallset(ctx.moduleStack) + phantoms)
      ensures r.Ok? ==> OpenOrdered(span.Open()) && span.epilogue == old(span.epilogue)
      ensures r.Ok? ==> NodeAdded(Here(ctx.moduleStack), n, BodyCompiler.Partial(blocks, old(span.Open())), BodyCompiler.Partial(r.value, span.Open()))
      decreases Remaining(ctx.moduleStack), NodeSize(n), 3
    {
      if n.Instr? {
        r := CompileInstructionNode(n.tag, n.instruction, span, blocks, ctx);
      } else {
        ghost var roots, p := TopCallset(ctx.moduleStack) + phantoms, BodyCompiler.Partial(blocks, span.Open());
        FineControl(Place(ctx), n, p.open);
        var flushed :- FlushOpen(span, blocks, roots);
        r := CompileControlAfter(n, flushed, p, roots, ctx);
      }
    }

    /** Closes the open span. */
    method FlushOpen(span: SpanBuilder, blocks: seq<CodeBlock>, ghost roots: set<Digest>) returns (r: Result<seq<CodeBlock>, AssemblyError>)
      requires AllSafe(blocks, roots) && OpenOrdered(span.Open())
      modifies span
      ensures r == Flush(blocks, old(span.Open())) && span.epilogue == old(span.epilogue)
      ensures r.Err? ==> !r.error.CallSetProcedureNotFound?
      ensures r.Ok? ==> span.Open() == BodyCompiler.EMPTY && AllSafe(r.value, roots)
    {
      FlushedSafe(BodyCompiler.Partial(blocks, span.Open()), roots);
      r := span.ExtractSpanInto(blocks);
    }

    /** Compiles a node that is not an instruction, after the blocks before it. */
    method CompileControlAfter(n: Node, flushed: seq<CodeBlock>, ghost p: BodyCompiler.Partial, ghost roots: set<Digest>, ctx: AssemblyContext)
      returns (r: Result<seq<CodeBlock>, AssemblyError>)
      requires Ready(ctx) && InProcedure(ctx.moduleStack) && !n.Instr?
      requires AllSafe(flushed, roots) && roots == TopCallset(ctx.moduleStack) + phantoms && Flush(p.blocks, p.open) == Ok(flushed)
      modifies this`phantoms, cache, ctx
      ensures Valid() && old(cache.log) <= cache.log && old(phantoms) <= phantoms
      ensures !ctx.allowPhantomCalls ==> phantoms == old(phantoms)
      ensures r.Err? ==> !r.error.CallSetProcedureNotFound?
      ensures NodeFine(old(Place(ctx)), n, p.open) ==> r.Ok? && cache.log == old(cache.log)
      ensures r.Ok? ==> Ready(ctx) && OnlyCallsetGrew(old(ctx.moduleStack), ctx.moduleStack)
      ensures r.Ok? ==> AllSafe(r.value, TopCallset(ctx.moduleStack) + phantoms)
      ensures r.Ok? ==> NodeAdded(Here(ctx.moduleStack), n, p, BodyCompiler.Partial(r.value, BodyCompiler.EMPTY))
      decreases Remaining(ctx.moduleStack), NodeSize(n), 2
    {
      FineControl(Place(ctx), n, p.open);
      var more :- CompileControl(n, ctx);
      AllSafeConcat(flushed, more, roots, TopCallset(ctx.moduleStack) + phantoms);
      ControlAdded(Here(ctx.moduleStack), n, p, flushed, more);
      r := Ok(flushed + more);
    }

    /** Compiles an instruction: its items join the open span, or its block comes after that span. */
    method CompileInstructionNode(tag: Label, i: Instruction, span: SpanBuilder, blocks: seq<CodeBlock>, ctx: AssemblyContext)
      returns (r: Result<seq<CodeBlock>, AssemblyError>)
      requires Ready(ctx) && InProcedure(ctx.moduleStack)
      requires AllSafe(blocks, TopCallset(ctx.moduleStack) + phantoms) && OpenOrdered(span.Open())
      modifies this`phantoms, cache, ctx, span
      ensures Valid() && old(cache.log) <= cache.log && old(phantoms) <= phantoms
      ensures !ctx.allowPhantomCalls ==> phantoms == old(phantoms)
      ensures r.Err? ==> !r.error.CallSetProcedureNotFound?
      ensures NodeFine(old(Place(ctx)), Instr(tag, i), old(span.Open())) ==> r.Ok? && cache.log == old(cache.log)
      ensures r.Ok? ==> Ready(ctx) && OnlyCallsetGrew(old(ctx.moduleStack), ctx.moduleStack)
      ensures r.Ok? ==> AllSafe(r.value, TopCallset(ctx.moduleStack) + phantoms)
      ensures r.Ok? ==> OpenOrdered(span.Open()) && span.epilogue == old(span.epilogue)
      ensures r.Ok? ==> NodeAdded(Here(ctx.moduleStack), Instr(tag, i), BodyCompiler.Partial(blocks, old(span.Open())), BodyCompiler.Partial(r.value, span.Open()))
      decreases Remaining(ctx.moduleStack), 1, 2
    {
      ghost var roots, p := TopCallset(ctx.moduleStack) + phantoms, BodyCompiler.Partial(blocks, span.Open());
      FineInstruction(Place(ctx), tag, i, p.open);
      var block :- CompileInstruction(tag, i, span, ctx);
      AllSafeConcat(blocks, [], roots, TopCallset(ctx.moduleStack) + phantoms);
      assert blocks + [] == blocks;
      if block.None? {
        ItemsAdded(Here(ctx.moduleStack), tag, i, p, span.Open());
        return Ok(blocks);
      }
      ghost var flushed := Flush(blocks, span.Open());
      var more := [block.value];
      r := Flushed(span, blocks, more, TopCallset(ctx.moduleStack) + phantoms);
      if r.Ok? {
        BlockAdded(Here(ctx.moduleStack), tag, i, p, flushed.value, block.value);
      }
    }

    /** Closes the open span and adds the blocks that follow it. */
    method Flushed(span: SpanBuilder, blocks: seq<CodeBlock>, more: seq<CodeBlock>, ghost roots: set<Digest>)
      returns (r: Result<seq<CodeBlock>, AssemblyError>)
      requires AllSafe(blocks, roots) && AllSafe(more, roots) && OpenOrdered(span.Open())
      modifies span
      ensures r.Err? ==> !r.error.CallSetProcedureNotFound?
      ensures BodyCompiler.Closable(old(span.Open())) ==> r.Ok?
      ensures span.epilogue == old(span.epilogue)
      ensures r.Ok? ==> span.Open() == BodyCompiler.EMPTY && AllSafe(r.value, roots)
      ensures r.Ok? ==> Flush(blocks, old(span.Open())).Ok? && r.value == Flush(blocks, old(span.Open())).value + more
    {
      var flushed :- FlushOpen(span, blocks, roots);
      AllSafeConcat(flushed, more, roots, roots);
      r := Ok(flushed + more);
    }

    /** Compiles a node that is not an instruction into its own blocks. */
    method CompileControl(n: Node, ctx: AssemblyContext) returns (r: Result<seq<CodeBlock>, AssemblyError>)
      requires Ready(ctx) && InProcedure(ctx.moduleStack)
      requires !n.Instr?
      modifies this`phantoms, cache, ctx
      ensures Valid() && old(cache.log) <= cache.log && old(phantoms) <= phantoms
      ensures !ctx.allowPhantomCalls ==> phantoms == old(phantoms)
      ensures r.Err? ==> !r.error.CallSetProcedureNotFound?
      ensures ControlFine(old(Place(ctx)), n) ==> r.Ok? && cache.log == old(cache.log)
      ensures r.Ok? ==> Ready(ctx) && OnlyCallsetGrew(old(ctx.moduleStack), ctx.moduleStack)
      ensures r.Ok? ==> AllSafe(r.value, TopCallset(ctx.moduleStack) + phantoms)
      ensures r.Ok? ==> ControlBlocks(Here(ctx.moduleStack), n, r.value)
      decreases Remaining(ctx.moduleStack), NodeSize(n), 1
    {
      match n
      case IfElse(trueCase, falseCase) =>
        var block :- CompileIfElse(trueCase, falseCase, ctx);
        r := Ok([block]);
      case Repeat(times, body) => r := CompileRepeat(times, body, ctx);
      case While(body) => r := CompileWhile(body, ctx);
    }

    method CompileIfElse(trueCase: seq<Node>, falseCase: seq<Node>, ctx: AssemblyContext) returns (r: Result<CodeBlock, AssemblyError>)
      requires Ready(ctx) && InProcedure(ctx.moduleStack)
      modifies this`phantoms, cache, ctx
      ensures Valid() && old(cache.log) <= cache.log && old(phantoms) <= phantoms
      ensures !ctx.allowPhantomCalls ==> phantoms == old(phantoms)
      ensures r.Err? ==> !r.error.CallSetProcedureNotFound?
      ensures ControlFine(old(Place(ctx)), IfElse(trueCase, falseCase)) ==> r.Ok? && cache.log == old(cache.log)
      ensures r.Ok? ==> Ready(ctx) && OnlyCallsetGrew(old(ctx.moduleStack), ctx.moduleStack)
      ensures r.Ok? ==> Safe(r.value, TopCallset(ctx.moduleStack) + phantoms)
      ensures r.Ok? ==> ControlBlocks(Here(ctx.moduleStack), IfElse(trueCase, falseCase), [r.value])
      decreases Remaining(ctx.moduleStack), NodeSize(IfElse(trueCase, falseCase)), 0
    {
      FineBranches(Place(ctx), trueCase, falseCase);
      ghost var place := Place(ctx);
      var onTrue :- CompileBody(trueCase, NO_WRAPPER, ctx);
      if falseCase == [] {
        SplitBlocks(Here(ctx.moduleStack), trueCase, falseCase, onTrue, DecoratorLoss.NOOP_BLOCK);
        SplitSafe(onTrue, DecoratorLoss.NOOP_BLOCK, TopCallset(ctx.moduleStack) + phantoms);
        return Ok(Split(onTrue, DecoratorLoss.NOOP_BLOCK));
      }
      ghost var known, log := Here(ctx.moduleStack), cache.log;
      assert log == old(cache.log) ==> Place(ctx) == place;
      var onFalse :- CompileBody(falseCase, NO_WRAPPER, ctx);
      LongerIsLater(known, Here(ctx.moduleStack), log, cache.log);
      CompiledKept(known, Here(ctx.moduleStack), trueCase, NO_WRAPPER, onTrue);
      SplitBlocks(Here(ctx.moduleStack), trueCase, falseCase, onTrue, onFalse);
      SplitSafe(onTrue, onFalse, TopCallset(ctx.moduleStack) + phantoms);
      r := Ok(Split(onTrue, onFalse));
    }

    method CompileRepeat(times: nat, body: seq<Node>, ctx: AssemblyContext) returns (r: Result<seq<CodeBlock>, AssemblyError>)
      requires Ready(ctx) && InProcedure(ctx.moduleStack)
      modifies this`phantoms, cache, ctx
      ensures Valid() && old(cache.log) <= cache.log && old(phantoms) <= phantoms
      ensures !ctx.allowPhantomCalls ==> phantoms == old(phantoms)
      ensures r.Err? ==> !r.error.CallSetProcedureNotFound?
      ensures ControlFine(old(Place(ctx)), Repeat(times, body)) ==> r.Ok? && cache.log == old(cache.log)
      ensures r.Ok? ==> Ready(ctx) && OnlyCallsetGrew(old(ctx.moduleStack), ctx.moduleStack)
      ensures r.Ok? ==> AllSafe(r.value, TopCallset(ctx.moduleStack) + phantoms)
      ensures r.Ok? ==> ControlBlocks(Here(ctx.moduleStack), Repeat(times, body), r.value)
      decreases Remaining(ctx.moduleStack), NodeSize(Repeat(times, body)), 0
    {
      FineBody(Place(ctx), Repeat(times, body), body);
      var block :- CompileBody(body, NO_WRAPPER, ctx);
      var copies := Unroll(block, times, TopCallset(ctx.moduleStack) + phantoms);
      r := Ok(copies);
    }

    method CompileWhile(body: seq<Node>, ctx: AssemblyContext) returns (r: Result<seq<CodeBlock>, AssemblyError>)
      requires Ready(ctx) && InProcedure(ctx.moduleStack)
      modifies this`phantoms, cache, ctx
      ensures Valid() && old(cache.log) <= cache.log && old(phantoms) <= phantoms
      ensures !ctx.allowPhantomCalls ==> phantoms == old(phantoms)
      ensures r.Err? ==> !r.error.CallSetProcedureNotFound?
      ensures ControlFine(old(Place(ctx)), While(body)) ==> r.Ok? && cache.log == old(cache.log)
      ensures r.Ok? ==> Ready(ctx) && OnlyCallsetGrew(old(ctx.moduleStack), ctx.moduleStack)
      ensures r.Ok? ==> AllSafe(r.value, TopCallset(ctx.moduleStack) + phantoms)
      ensures r.Ok? ==> ControlBlocks(Here(ctx.moduleStack), While(body), r.value)
      decreases Remaining(ctx.moduleStack), NodeSize(While(body)), 0
    {
      FineBody(Place(ctx), While(body), body);
      var block :- CompileBody(body, NO_WRAPPER, ctx);
      LoopBlocks(Here(ctx.moduleStack), body, block);
      LoopSafe(block, TopCallset(ctx.moduleStack) + phantoms);
      r := Ok([Loop(block)]);
    }

    /** Copies of a block. */
    method Unroll(block: CodeBlock, times: nat, ghost roots: set<Digest>) returns (copies: seq<CodeBlock>)
      requires Safe(block, roots)
      ensures copies == BodyCompiler.Replicate(block, times) && AllSafe(copies, roots)
    {
      copies := [];
      for i := 0 to times
        invariant copies == BodyCompiler.Replicate(block, i) && AllSafe(copies, roots)
      {
        copies := copies + [block];
      }
    }

    /** Compiles an instruction: adds its items to the open span, or returns its block. */
    method CompileInstruction(tag: Label, i: Instruction, span: SpanBuilder, ctx: AssemblyContext) returns (r: Result<Option<CodeBlock>, AssemblyError>)
      requires Ready(ctx) && InProcedure(ctx.moduleStack)
      modifies this`phantoms, cache, ctx, span
      ensures Valid() && old(cache.log) <= cache.log && old(phantoms) <= phantoms
      ensures !ctx.allowPhantomCalls ==> phantoms == old(phantoms)
      ensures r.Err? ==> !r.error.CallSetProcedureNotFound?
      ensures Accepts(|Locals(old(ctx.moduleStack))|, old(cache.State()), Rules(ctx.isKernel, ctx.allowPhantomCalls), i) ==>
                r.Ok? && cache.log == old(cache.log)
      ensures r.Ok? ==> Ready(ctx) && OnlyCallsetGrew(old(ctx.moduleStack), ctx.moduleStack)
      ensures r.Ok? ==> (r.value.None? <==> i.Primitive? || i.Breakpoint? || i.DebugPrint?)
      ensures r.Ok? && r.value.Some? ==>
                Safe(r.value.value, TopCallset(ctx.moduleStack) + phantoms) && span.Open() == old(span.Open())
      ensures span.epilogue == old(span.epilogue) && (OpenOrdered(old(span.Open())) ==> OpenOrdered(span.Open()))
      ensures r.Ok? ==> InstructionAdded(Here(ctx.moduleStack), tag, i, old(span.Open()), r.value, span.Open())
      decreases Remaining(ctx.moduleStack), 1, 1
    {
      if i.Primitive? || i.Breakpoint? || i.DebugPrint? {
        EmitItems(tag, i, span);
        return Ok(None);
      }
      var block :- Invoke(i, ctx);
      span.EmitInstruction(debug, tag, []);
      NothingEmitted(debug, tag, old(span.Open()));
      r := Ok(Some(block));
    }

    /** Adds the items of an instruction to the open span. */
    method EmitItems(tag: Label, i: Instruction, span: SpanBuilder)
      requires i.Primitive? || i.Breakpoint? || i.DebugPrint?
      modifies span
      ensures span.Open() == Append(old(span.Open()), Emitted(debug, tag, i))
      ensures span.epilogue == old(span.epilogue) && (OpenOrdered(old(span.Open())) ==> OpenOrdered(span.Open()))
    {
      if OpenOrdered(span.Open()) {
        AppendItems(span.Open(), Emitted(debug, tag, i));
      }
      match i
      case Primitive(items) =>
        span.EmitInstruction(debug, tag, items);
      case Breakpoint =>
        span.EmitBreakpoint(debug, tag);
      case DebugPrint(options) =>
        DecoratorOnly(debug, tag, Debug(options));
        span.EmitInstruction(debug, tag, if debug then [Dec(Debug(options))] else []);
    }

    /** Compiles an instruction that runs other code. */
    method Invoke(i: Instruction, ctx: AssemblyContext) returns (r: Result<CodeBlock, AssemblyError>)
      requires Ready(ctx) && InProcedure(ctx.moduleStack)
      requires !(i.Primitive? || i.Breakpoint? || i.DebugPrint?)
      modifies this`phantoms, cache, ctx
      ensures Valid() && old(cache.log) <= cache.log && old(phantoms) <= phantoms
      ensures !ctx.allowPhantomCalls ==> phantoms == old(phantoms)
      ensures r.Err? ==> !r.error.CallSetProcedureNotFound?
      ensures Accepts(|Locals(old(ctx.moduleStack))|, old(cache.State()), Rules(ctx.isKernel, ctx.allowPhantomCalls), i) ==>
                r.Ok? && cache.log == old(cache.log)
      ensures r.Ok? ==> Ready(ctx) && OnlyCallsetGrew(old(ctx.moduleStack), ctx.moduleStack)
      ensures r.Ok? ==> Safe(r.value, TopCallset(ctx.moduleStack) + phantoms)
      ensures r.Ok? ==> forall name :: LowerInstruction(Here(ctx.moduleStack), name, i) == Some(BodyCompiler.Inline(r.value))
      decreases Remaining(ctx.moduleStack), 1, 0
    {
      match i
      case ExecLocal(idx) => r := InvokeLocal(idx, true, ctx);
      case CallLocal(idx) => r := InvokeLocal(idx, false, ctx);
      case ExecImported(id) => r := InvokeImported(id, true, ctx);
      case CallImported(id) => r := InvokeImported(id, false, ctx);
      case SysCall(id) => r := InvokeKernel(id, ctx);
      case CallMastRoot(root) => r := InvokeMastRoot(root, ctx);
      case DynExec =>
        r := Ok(Dyn);
      case DynCall =>
        r := Ok(Call(DYN_HASH, false));
      case Rejected => r := Err(InvalidInstruction);
    }
  }

  // World and lookups

  lemma WorldGrows(w: World, c: Cache, roots: set<Digest>)
    requires ClosedCache(w, c)
    ensures var w' := w.(phantoms := w.phantoms + roots); Grows(w, c, w', c) && ClosedCache(w', c)
  {
  }

  /** Requests granted since then have not broken any callset. */
  lemma GoodStackKept(w: World, log: seq<CacheOp>, w': World, log': seq<CacheOp>, st: Stack)
    requires w'.hash == w.hash && w'.calls == w.calls && w.phantoms <= w'.phantoms && log <= log'
    requires GoodStack(w, ApplyAll(w.hash, EMPTY_CACHE, log), st)
    ensures GoodStack(w', ApplyAll(w.hash, EMPTY_CACHE, log'), st)
  {
    LongerRunExtends(w.hash, log, log');
    GoodStackGrows(w, ApplyAll(w.hash, EMPTY_CACHE, log), w', ApplyAll(w.hash, EMPTY_CACHE, log'), st);
  }

  /** The same code is known, against a cache that has grown. */
  ghost predicate Later(k: Known, k': Known) {
    && k' == k.(cache := k'.cache)
    && forall i: nat :: Asked(i) ==> ValidKnown(k) && ValidKnown(k') && Extends(k.cache, k'.cache)
  }

  lemma LongerIsLater(k: Known, k': Known, log: seq<CacheOp>, log': seq<CacheOp>)
    requires k' == k.(cache := k'.cache) && log <= log'
    requires k.cache == ApplyAll(k.hash, EMPTY_CACHE, log) && k'.cache == ApplyAll(k.hash, EMPTY_CACHE, log')
    ensures Later(k, k')
  {
    LongerRunExtends(k.hash, log, log');
  }

  lemma LoweredKept(k: Known, k': Known, nodes: seq<Node>)
    requires Later(k, k')
    ensures ValidKnown(k) && ValidKnown(k')
    ensures LowerNodes(k, nodes).Some? ==> LowerNodes(k', nodes) == LowerNodes(k, nodes)
  {
    assert Asked(0);
    LowerNodesStable(k, k'.cache, nodes);
  }

  lemma LookupIsCached(hash: Hash, c: Cache, id: ProcId)
    requires ValidCache(hash, c) && Contains(c, id)
    ensures var p := Lookup(hash, c, id);
            p.Some? && hash(p.value.code) in c.procedures && c.procedures[hash(p.value.code)] == p.value
  {
  }

  /** Calling a cached procedure keeps callsets complete. */
  lemma CachedCallGood(w: World, c: Cache, st: Stack, id: ProcId, inlined: bool, isSyscall: bool)
    requires Determines(w.hash, w.calls) && ClosedCache(w, c) && Contains(c, id)
    requires InProcedure(st) && GoodStack(w, c, st)
    ensures Lookup(w.hash, c, id).Some?
    ensures var p := Lookup(w.hash, c, id).value;
            var st' := WithTopCallset(st, WithCall(w.hash, TopCallset(st), p, inlined));
            && GoodStack(w, c, st') && OnlyCallsetGrew(st, st')
            && Safe(Invocation(w.hash, p, inlined, isSyscall), TopCallset(st') + w.phantoms)
  {
    LookupIsCached(w.hash, c, id);
    var p := Lookup(w.hash, c, id).value;
    CachedCallable(w, c, Locals(st), w.hash(p.code));
    CallGood(w, c, st, p, inlined);
  }

  // Paths

  function PathOf(path: Option<Path>): Path {
    match path
    case Some(p) => p
    case None => ANON_PATH
  }

  /** A module just begun has nothing to be incomplete. */
  lemma StartedGood(w: World, c: Cache, st: Stack, proc: ProcedureContext)
    requires GoodStack(w, c, st) && st.InModule? && proc.callset == {}
    ensures GoodStack(w, c, Started(st, proc)) && InProcedure(Started(st, proc)) && Paths(Started(st, proc)) == Paths(st)
  {
  }

  lemma PushedModule(w: World, c: Cache, available: set<Path>, st: Stack, path: Path)
    requires GoodStack(w, c, st) && path !in Paths(st)
    ensures var st' := InModule(ModuleContext(NoProc, [], path, {}), st);
            GoodStack(w, c, st') && available - Paths(st') == available - Paths(st) - {path}
  {
  }

  lemma MainGood(w: World, c: Cache, st: Stack)
    requires ForMain(st) && Locals(st) == [] && ProgramCallset(st) == {}
    ensures GoodStack(w, c, st)
  {
    assert GoodProcStack(w, c, [], NoProc);
    assert GoodProcStack(w, c, [], st.current.procStack);
    assert GoodModule(w, c, st.current);
  }

  /** Beginning a provider module leaves fewer of them. */
  lemma RemainingWithout(available: set<Path>, open: set<Path>, path: Path)
    requires path in available
    ensures if path in open then available - open - {path} == available - open
            else |available - open - {path}| < |available - open|
  {
    if path !in open {
      assert path in available - open;
    }
  }

  // Cache

  lemma AliasKeepsClosed(w: World, c: Cache, d: Cache)
    requires ClosedCache(w, c) && ValidCache(w.hash, d) && d.procedures == c.procedures
    ensures ClosedCache(w, d)
  {
  }

  lemma InsertKeepsClosed(w: World, c: Cache, p: Procedure, id: Option<ProcId>)
    requires ClosedCache(w, c) && Inserted(w.hash, c, p, id).Ok?
    requires Complete(w, p) && p.callset <= c.procedures.Keys
    ensures ClosedCache(w, Inserted(w.hash, c, p, id).value)
  {
    InsertedValid(w.hash, c, p, id);
  }

  /** Exported procedures and those that are called have been cached. */
  ghost predicate CalledCached(hash: Hash, c: Cache, procs: seq<NamedProcedure>, callset: set<Digest>) {
    Roots(hash, procs) * callset <= c.procedures.Keys && ExportedRoots(hash, procs) <= c.procedures.Keys
  }

  lemma OneMoreCached(hash: Hash, c: Cache, d: Cache, procs: seq<NamedProcedure>, i: nat, callset: set<Digest>)
    requires i < |procs| && CalledCached(hash, c, procs[..i], callset) && c.procedures.Keys <= d.procedures.Keys
    requires var root := hash(procs[i].procedure.code);
             procs[i].isExport || root in callset ==> root in d.procedures
    ensures CalledCached(hash, d, procs[..i + 1], callset)
  {
    assert procs[..i + 1] == procs[..i] + [procs[i]];
    RootsSnoc(hash, procs[..i], procs[i]);
  }

  /** When its turn comes to be cached, everything a procedure of the module calls is cached. */
  lemma NextProcCallsCached(w: World, c: Cache, d: Cache, m: ModuleContext, i: nat)
    requires GoodModule(w, c, m) && i < |m.compiledProcs| && Extends(c, d)
    requires CalledCached(w.hash, d, m.compiledProcs[..i], m.callset)
    ensures Complete(w, m.compiledProcs[i].procedure)
    ensures m.compiledProcs[i].procedure.callset <= d.procedures.Keys
  {
    GoodProcAt(w, c, m.compiledProcs, m.callset, i);
  }

  // Refused procedures

  /** The procedure's code is cached with another number of locals. */
  predicate Conflicts(hash: Hash, c: Cache, p: Procedure) {
    hash(p.code) in c.procedures && c.procedures[hash(p.code)].numLocals != p.numLocals
  }

  /** The id is taken, or the code is cached with other locals. */
  predicate CannotInsert(hash: Hash, c: Cache, p: Procedure, id: Option<ProcId>, e: AssemblyError) {
    if e == DuplicateProcId then id.Some? && Contains(c, id.value)
    else e == ConflictingNumLocals && Conflicts(hash, c, p)
  }

  /** The id under which the `i`th procedure of a module is cached. */
  function IdFor(path: Option<Path>, idOfName: (Path, string) -> ProcId, idOfIndex: (Path, nat) -> ProcId, proc: NamedProcedure, i: nat): Option<ProcId> {
    match path
    case Some(p) => Some(if proc.isExport then idOfName(p, proc.name) else idOfIndex(p, i))
    case None => None
  }

  /** A procedure that has to be cached cannot be: its id is taken, or its code is cached with other locals. */
  predicate Refused(n: Naming, idOfIndex: (Path, nat) -> ProcId, callset: set<Digest>, c: Cache, proc: NamedProcedure, i: nat, e: AssemblyError) {
    && (proc.isExport || n.hash(proc.procedure.code) in callset)
    && CannotInsert(n.hash, c, proc.procedure, IdFor(n.path, n.idOfName, idOfIndex, proc, i), e)
  }

  ghost predicate AnyRefused(n: Naming, idOfIndex: (Path, nat) -> ProcId, c: Cache, procs: seq<NamedProcedure>, e: AssemblyError) {
    exists callset: set<Digest>, i: nat :: i < |procs| && Refused(n, idOfIndex, callset, c, procs[i], i, e)
  }

  /** The module's procedures could be compiled, but one of them cannot be cached. */
  ghost predicate RefusedModule(debug: bool, n: Naming, idOfIndex: (Path, nat) -> ProcId, c: Cache, ast: ModuleAst, e: AssemblyError) {
    exists locals: seq<NamedProcedure> ::
      LocalsCompiled(Known(debug, n.hash, locals, c), [], ast.procs) && AnyRefused(n, idOfIndex, c, locals, e)
  }

  lemma RefusedAfter<T>(n: Naming, idOfIndex: (Path, nat) -> ProcId, k: Known, log: seq<CacheOp>, log': seq<CacheOp>, ast: ModuleAst, r: Result<T, AssemblyError>)
    requires n.hash == k.hash && k.cache == ApplyAll(k.hash, EMPTY_CACHE, log) && log <= log' && LocalsCompiled(k, [], ast.procs)
    requires r.Err? ==> AnyRefused(n, idOfIndex, ApplyAll(k.hash, EMPTY_CACHE, log'), k.locals, r.error)
    ensures r.Err? ==> RefusedModule(k.debug, n, idOfIndex, ApplyAll(k.hash, EMPTY_CACHE, log'), ast, r.error)
  {
    var c := ApplyAll(k.hash, EMPTY_CACHE, log');
    LongerIsLater(k, k.(cache := c), log, log');
    LocalsKept(k, k.(cache := c), [], ast.procs);
    assert k.(cache := c) == Known(k.debug, n.hash, k.locals, c);
  }

  /** A module whose imports and re-exports are cached: what it re-exports can be named, its procedures can be compiled. */
  ghost predicate ModuleFine(s: Site, n: Naming, ast: ModuleAst) {
    && ReExportsFine(n, s.cache, ast.reexportedProcs, 0)
    && ProcsFine(s, Begun(PathOf(n.path), NoModule), ast.procs, true, 0)
  }

  function Begun(path: Path, importers: Stack): Stack {
    InModule(ModuleContext(NoProc, [], path, {}), importers)
  }

  lemma BegunFine(s: Site, n: Naming, ast: ModuleAst, st: Stack)
    requires st.InModule? && st == Begun(PathOf(n.path), st.importers)
    ensures ModuleFine(s, n, ast) ==>
              ReExportsFine(n, s.cache, ast.reexportedProcs, 0) && ProcsFine(s, st, ast.procs, true, 0)
  {
    var own := Begun(PathOf(n.path), NoModule);
    if ModuleFine(s, n, ast) {
      forall j: nat | Asked(j) && 0 <= j < |ast.procs|
        ensures ProcFine(s, st, ast.procs, true, 0, j)
      {
        assert ProcFine(s, own, ast.procs, true, 0, j);
        assert KnownName(st, ast.procs[j].name) == KnownName(own, ast.procs[j].name);
      }
    }
  }

  // What a module leaves in the cache

  /** How a module's procedures are named. */
  datatype Naming = Naming(hash: Hash, idOfName: (Path, string) -> ProcId, path: Option<Path>)

  /** The id resolves to a procedure with that root. */
  ghost predicate CachedAs(hash: Hash, c: Cache, id: ProcId, root: Digest) {
    ValidCache(hash, c) && Lookup(hash, c, id).Some? && hash(Lookup(hash, c, id).value.code) == root
  }

  lemma CachedAsKept(hash: Hash, log: seq<CacheOp>, log': seq<CacheOp>, id: ProcId, root: Digest)
    requires log <= log' && CachedAs(hash, ApplyAll(hash, EMPTY_CACHE, log), id, root)
    ensures CachedAs(hash, ApplyAll(hash, EMPTY_CACHE, log'), id, root)
  {
    LongerRunExtends(hash, log, log');
    LookupStable(hash, ApplyAll(hash, EMPTY_CACHE, log), ApplyAll(hash, EMPTY_CACHE, log'), id);
  }

  /** A re-exported procedure is cached, also under its name in this module if that has a path. */
  ghost predicate ReExportCached(n: Naming, c: Cache, proc: ProcReExport, root: Digest) {
    && CachedAs(n.hash, c, proc.procId, root)
    && (n.path.Some? ==> CachedAs(n.hash, c, n.idOfName(n.path.value, proc.name), root))
  }

  ghost predicate ReExportsCached(n: Naming, c: Cache, procs: seq<ProcReExport>, roots: seq<Digest>) {
    && |roots| == |procs|
    && (procs != [] ==>
          && ReExportsCached(n, c, procs[..|procs| - 1], roots[..|procs| - 1])
          && ReExportCached(n, c, procs[|procs| - 1], roots[|procs| - 1]))
  }

  lemma {:induction false} ReExportsKept(n: Naming, log: seq<CacheOp>, log': seq<CacheOp>, procs: seq<ProcReExport>, roots: seq<Digest>)
    requires log <= log' && ReExportsCached(n, ApplyAll(n.hash, EMPTY_CACHE, log), procs, roots)
    ensures ReExportsCached(n, ApplyAll(n.hash, EMPTY_CACHE, log'), procs, roots)
  {
    if procs != [] {
      var i := |procs| - 1;
      ReExportsKept(n, log, log', procs[..i], roots[..i]);
      CachedAsKept(n.hash, log, log', procs[i].procId, roots[i]);
      if n.path.Some? {
        CachedAsKept(n.hash, log, log', n.idOfName(n.path.value, procs[i].name), roots[i]);
      }
    }
  }

  lemma OneMoreReExport(n: Naming, log: seq<CacheOp>, log': seq<CacheOp>, procs: seq<ProcReExport>, i: nat, roots: seq<Digest>, root: Digest)
    requires log <= log' && i < |procs| && ReExportsCached(n, ApplyAll(n.hash, EMPTY_CACHE, log), procs[..i], roots)
    requires ReExportCached(n, ApplyAll(n.hash, EMPTY_CACHE, log'), procs[i], root)
    ensures ReExportsCached(n, ApplyAll(n.hash, EMPTY_CACHE, log'), procs[..i + 1], roots + [root])
  {
    ReExportsKept(n, log, log', procs[..i], roots);
    assert procs[..i + 1][..i] == procs[..i];
    assert (roots + [root])[..i] == roots;
  }

  /** Roots of the exported procedures, in order. */
  function ExportedList(hash: Hash, procs: seq<NamedProcedure>): seq<Digest> {
    if procs == [] then []
    else
      var init, p := ExportedList(hash, procs[..|procs| - 1]), procs[|procs| - 1];
      if p.isExport then init + [hash(p.procedure.code)] else init
  }

  /** Exported procedures in order, the others left out. */
  lemma {:induction false} ExportedInOrder(hash: Hash, p: NamedProcedure, procs: seq<NamedProcedure>)
    ensures ExportedList(hash, []) == []
    ensures ExportedList(hash, [p] + procs) == (if p.isExport then [hash(p.procedure.code)] else []) + ExportedList(hash, procs)
  {
    if procs == [] {
      assert [p] + procs == [p] && [p][..0] == [];
    } else {
      ExportedInOrder(hash, p, procs[..|procs| - 1]);
      assert ([p] + procs)[..|procs|] == [p] + procs[..|procs| - 1];
    }
  }

  function RootSet(roots: seq<Digest>): set<Digest> {
    set root | root in roots
  }

  /** Roots of the procedures that a module exports itself, after those of the ones it re-exports. */
  function OwnExports(ast: ModuleAst, roots: seq<Digest>): seq<Digest> {
    if |ast.reexportedProcs| <= |roots| then roots[|ast.reexportedProcs|..] else []
  }

  lemma {:induction false} ExportedListIsRoots(hash: Hash, procs: seq<NamedProcedure>)
    ensures RootSet(ExportedList(hash, procs)) == ExportedRoots(hash, procs)
  {
    if procs != [] {
      var init, p := procs[..|procs| - 1], procs[|procs| - 1];
      ExportedListIsRoots(hash, init);
      assert procs == init + [p];
      ExportedRootsSnoc(hash, init, p);
    }
  }

  lemma ExportedRootsSnoc(hash: Hash, procs: seq<NamedProcedure>, p: NamedProcedure)
    ensures ExportedRoots(hash, procs + [p]) ==
            ExportedRoots(hash, procs) + (if p.isExport then {hash(p.procedure.code)} else {})
  {
    var all := procs + [p];
    forall root | root in ExportedRoots(hash, all)
      ensures root in ExportedRoots(hash, procs) + (if p.isExport then {hash(p.procedure.code)} else {})
    {
      var i :| 0 <= i < |all| && all[i].isExport && hash(all[i].procedure.code) == root;
      assert i < |procs| ==> all[i] == procs[i];
    }
    forall root | root in ExportedRoots(hash, procs)
      ensures root in ExportedRoots(hash, all)
    {
      var i :| 0 <= i < |procs| && procs[i].isExport && hash(procs[i].procedure.code) == root;
      assert all[i] == procs[i];
    }
    if p.isExport {
      assert all[|procs|] == p;
    }
  }

  /** Each exported procedure is cached under its name, if the module has a path. */
  ghost predicate ExportsCached(n: Naming, c: Cache, procs: seq<NamedProcedure>) {
    procs != [] ==>
      && ExportsCached(n, c, procs[..|procs| - 1])
      && ExportCached(n, c, procs[|procs| - 1])
  }

  ghost predicate ExportCached(n: Naming, c: Cache, p: NamedProcedure) {
    p.isExport && n.path.Some? ==> CachedAs(n.hash, c, n.idOfName(n.path.value, p.name), n.hash(p.procedure.code))
  }

  lemma {:induction false} ExportsKept(n: Naming, log: seq<CacheOp>, log': seq<CacheOp>, procs: seq<NamedProcedure>)
    requires log <= log' && ExportsCached(n, ApplyAll(n.hash, EMPTY_CACHE, log), procs)
    ensures ExportsCached(n, ApplyAll(n.hash, EMPTY_CACHE, log'), procs)
  {
    if procs != [] {
      var p := procs[|procs| - 1];
      ExportsKept(n, log, log', procs[..|procs| - 1]);
      if p.isExport && n.path.Some? {
        CachedAsKept(n.hash, log, log', n.idOfName(n.path.value, p.name), n.hash(p.procedure.code));
      }
    }
  }

  lemma OneMoreExport(n: Naming, log: seq<CacheOp>, log': seq<CacheOp>, procs: seq<NamedProcedure>, i: nat)
    requires log <= log' && i < |procs| && ExportsCached(n, ApplyAll(n.hash, EMPTY_CACHE, log), procs[..i])
    requires ExportCached(n, ApplyAll(n.hash, EMPTY_CACHE, log'), procs[i])
    ensures ExportsCached(n, ApplyAll(n.hash, EMPTY_CACHE, log'), procs[..i + 1])
    ensures ExportedList(n.hash, procs[..i + 1]) ==
            ExportedList(n.hash, procs[..i]) + (if procs[i].isExport then [n.hash(procs[i].procedure.code)] else [])
  {
    ExportsKept(n, log, log', procs[..i]);
    assert procs[..i + 1][..i] == procs[..i];
  }

  /**
   The roots are those of the re-exported and of the exported procedures; all of them are cached
   under their names, and the procedures are compiled from their bodies.
   */
  ghost predicate ModuleCompiled(debug: bool, n: Naming, c: Cache, ast: ModuleAst, roots: seq<Digest>) {
    exists locals: seq<NamedProcedure>, reexported: seq<Digest> ::
      ModuleParts(Known(debug, n.hash, locals, c), n, ast, roots, reexported)
  }

  ghost predicate ModuleParts(k: Known, n: Naming, ast: ModuleAst, roots: seq<Digest>, reexported: seq<Digest>) {
    && roots == reexported + ExportedList(n.hash, k.locals)
    && ReExportsCached(n, k.cache, ast.reexportedProcs, reexported)
    && LocalsCompiled(k, [], ast.procs)
    && ExportsCached(n, k.cache, k.locals)
  }

  lemma ModuleKept(n: Naming, k: Known, log: seq<CacheOp>, log': seq<CacheOp>, ast: ModuleAst, reexported: seq<Digest>)
    requires n.hash == k.hash && k.cache == ApplyAll(k.hash, EMPTY_CACHE, log) && log <= log'
    requires ReExportsCached(n, k.cache, ast.reexportedProcs, reexported) && LocalsCompiled(k, [], ast.procs)
    requires ExportsCached(n, ApplyAll(k.hash, EMPTY_CACHE, log'), k.locals)
    ensures ModuleCompiled(k.debug, n, ApplyAll(k.hash, EMPTY_CACHE, log'), ast, reexported + ExportedList(k.hash, k.locals))
  {
    ReExportsKept(n, log, log', ast.reexportedProcs, reexported);
    var c := ApplyAll(k.hash, EMPTY_CACHE, log');
    LongerIsLater(k, k.(cache := c), log, log');
    LocalsKept(k, k.(cache := c), [], ast.procs);
    assert ModuleParts(Known(k.debug, n.hash, k.locals, c), n, ast, reexported + ExportedList(k.hash, k.locals), reexported);
  }

  /** A compiled module stays compiled as the cache grows. */
  lemma ModuleStays(k: Known, n: Naming, log: seq<CacheOp>, log': seq<CacheOp>, ast: ModuleAst, roots: seq<Digest>, reexported: seq<Digest>)
    requires n.hash == k.hash && k.cache == ApplyAll(k.hash, EMPTY_CACHE, log) && log <= log' && ModuleParts(k, n, ast, roots, reexported)
    ensures ModuleParts(k.(cache := ApplyAll(k.hash, EMPTY_CACHE, log')), n, ast, roots, reexported)
  {
    var later := k.(cache := ApplyAll(k.hash, EMPTY_CACHE, log'));
    ReExportsKept(n, log, log', ast.reexportedProcs, reexported);
    ExportsKept(n, log, log', k.locals);
    LongerIsLater(k, later, log, log');
    LocalsKept(k, later, [], ast.procs);
  }

  // Procedures

  /** Only the compiled procedures and the callset of the current module have changed. */
  ghost predicate SameModule(st: Stack, st': Stack) {
    && st.InModule? && st'.InModule?
    && st'.importers == st.importers
    && st'.current.procStack == st.current.procStack && st'.current.path == st.current.path
  }

  /** One procedure has been added to the current module. */
  ghost predicate AddedProc(st: Stack, st': Stack, proc: ProcedureAst) {
    && SameModule(st, st')
    && Locals(st') != [] && Locals(st') == Locals(st) + [LastProc(st')]
    && var p := LastProc(st');
       p.name == proc.name && p.isExport == proc.isExport && p.procedure.numLocals == proc.numLocals
  }

  lemma CompletedAdds(st: Stack, body: Stack, proc: ProcedureAst, code: CodeBlock)
    requires st.InModule? && OnlyCallsetGrew(Started(st, ProcedureContext(proc.name, proc.isExport, proc.numLocals, {})), body)
    ensures var st' := body.(current := Completed(body.current, code));
            AddedProc(st, st', proc) && LastProc(st').procedure.code == code
  {
  }

  function LastProc(st: Stack): NamedProcedure
    requires st.InModule? && Locals(st) != []
  {
    Locals(st)[|Locals(st)| - 1]
  }

  /** What a procedure is compiled against: only the procedures before it are known. */
  function Earlier(k: Known, n: nat): Known
    requires n <= |k.locals|
  {
    k.(locals := k.locals[..n])
  }

  /** A known local procedure is compiled from a procedure's body. */
  ghost predicate LocalCompiled(k: Known, i: nat, proc: ProcedureAst)
    requires i < |k.locals|
  {
    var p := k.locals[i];
    && p.name == proc.name && p.isExport == proc.isExport && p.procedure.numLocals == proc.numLocals
    && CompiledFrom(Earlier(k, i), proc.body, LocalsWrapper(proc.numLocals), p.procedure.code)
  }

  /** The known local procedures are the earlier ones followed by these, each compiled from its body. */
  ghost predicate LocalsCompiled(k: Known, earlier: seq<NamedProcedure>, procs: seq<ProcedureAst>) {
    && |k.locals| == |earlier| + |procs| && k.locals[..|earlier|] == earlier
    && forall i :: 0 <= i < |procs| ==> LocalCompiled(k, |earlier| + i, procs[i])
  }

  /** Compiled code stays what it is as the cache grows. */
  lemma CompiledKept(k: Known, k': Known, nodes: seq<Node>, w: Wrapper, b: CodeBlock)
    requires Later(k, k') && CompiledFrom(k, nodes, w, b)
    ensures CompiledFrom(k', nodes, w, b)
  {
    assert Asked(0);
    LoweredKept(k, k', nodes);
  }

  lemma LocalKept(k: Known, k': Known, i: nat, proc: ProcedureAst)
    requires Later(k, k') && i < |k.locals| && LocalCompiled(k, i, proc)
    ensures LocalCompiled(k', i, proc)
  {
    LaterEarlier(k, k', i);
    CompiledKept(Earlier(k, i), Earlier(k', i), proc.body, LocalsWrapper(proc.numLocals), k.locals[i].procedure.code);
  }

  lemma LaterEarlier(k: Known, k': Known, i: nat)
    requires Later(k, k') && i <= |k.locals|
    ensures Later(Earlier(k, i), Earlier(k', i))
  {
    assert Asked(0);
  }

  lemma LocalsKept(k: Known, k': Known, earlier: seq<NamedProcedure>, procs: seq<ProcedureAst>)
    requires Later(k, k') && LocalsCompiled(k, earlier, procs)
    ensures LocalsCompiled(k', earlier, procs)
  {
    forall i | 0 <= i < |procs|
      ensures LocalCompiled(k', |earlier| + i, procs[i])
    {
      assert LocalCompiled(k, |earlier| + i, procs[i]);
      LocalKept(k, k', |earlier| + i, procs[i]);
    }
  }

  /** More procedures after it do not matter to a procedure. */
  lemma LocalBeforeMore(k: Known, p: NamedProcedure, i: nat, proc: ProcedureAst)
    requires i < |k.locals| && LocalCompiled(k, i, proc)
    ensures LocalCompiled(WithLocal(k, p), i, proc)
  {
    assert (k.locals + [p])[..i] == k.locals[..i];
  }

  function WithLocal(k: Known, p: NamedProcedure): Known {
    k.(locals := k.locals + [p])
  }

  lemma NewLocalCompiled(k: Known, p: NamedProcedure, proc: ProcedureAst)
    requires p.name == proc.name && p.isExport == proc.isExport && p.procedure.numLocals == proc.numLocals
    requires CompiledFrom(k, proc.body, LocalsWrapper(proc.numLocals), p.procedure.code)
    ensures LocalCompiled(WithLocal(k, p), |k.locals|, proc)
  {
    assert (k.locals + [p])[..|k.locals|] == k.locals;
    assert Earlier(WithLocal(k, p), |k.locals|) == k;
  }

  lemma MoreLocals(k: Known, p: NamedProcedure, earlier: seq<NamedProcedure>, procs: seq<ProcedureAst>, proc: ProcedureAst)
    requires LocalsCompiled(k, earlier, procs) && LocalCompiled(WithLocal(k, p), |k.locals|, proc)
    ensures LocalsCompiled(WithLocal(k, p), earlier, procs + [proc])
  {
    var more, all := WithLocal(k, p), procs + [proc];
    assert more.locals[..|earlier|] == k.locals[..|earlier|];
    forall i | 0 <= i < |all|
      ensures LocalCompiled(more, |earlier| + i, all[i])
    {
      if i < |procs| {
        assert LocalCompiled(k, |earlier| + i, procs[i]);
        LocalBeforeMore(k, p, |earlier| + i, procs[i]);
      }
    }
  }

  lemma OneMoreLocal(k: Known, k': Known, earlier: seq<NamedProcedure>, procs: seq<ProcedureAst>, n: nat, p: NamedProcedure)
    requires Later(k, k') && n < |procs| && LocalsCompiled(k, earlier, procs[..n])
    requires LocalCompiled(WithLocal(k', p), |k.locals|, procs[n])
    ensures LocalsCompiled(WithLocal(k', p), earlier, procs[..n + 1])
  {
    LocalsKept(k, k', earlier, procs[..n]);
    assert procs[..n + 1] == procs[..n] + [procs[n]];
    MoreLocals(k', p, earlier, procs[..n], procs[n]);
  }

  lemma NextLocals(k: Known, k': Known, log: seq<CacheOp>, log': seq<CacheOp>, earlier: seq<NamedProcedure>, procs: seq<ProcedureAst>, n: nat)
    requires log <= log' && k.cache == ApplyAll(k.hash, EMPTY_CACHE, log) && k'.cache == ApplyAll(k.hash, EMPTY_CACHE, log')
    requires |k'.locals| == |k.locals| + 1 && k' == Known(k.debug, k.hash, k.locals + [k'.locals[|k.locals|]], k'.cache)
    requires n < |procs| && LocalsCompiled(k, earlier, procs[..n]) && LocalCompiled(k', |k.locals|, procs[n])
    ensures LocalsCompiled(k', earlier, procs[..n + 1])
  {
    var now := k.(cache := k'.cache);
    LongerIsLater(k, now, log, log');
    OneMoreLocal(k, now, earlier, procs, n, k'.locals[|k.locals|]);
  }

  // Programs

  datatype Program = Program(root: CodeBlock, kernel: set<Digest>, table: Table)

  /** Nothing that may be called, phantoms excepted, is missing from the table. */
  ghost predicate ClosedProgram(p: Program, phantoms: set<Digest>) {
    Safe(p.root, p.table.Keys + phantoms) && ClosedTable(p.table, phantoms) && ProperTable(p.table)
  }

  /** The root is compiled from the program's body, against its procedures compiled in order. */
  ghost predicate ProgramCompiled(k: Known, earlier: seq<NamedProcedure>, program: ProgramAst, root: CodeBlock) {
    LocalsCompiled(k, earlier, program.procs) && CompiledFrom(k, program.body, NO_WRAPPER, root)
  }

  /** All known code is proper. */
  ghost predicate ProperKnown(k: Known) {
    && (forall root :: root in k.cache.procedures ==> ProperBlock(k.cache.procedures[root].code))
    && (forall i :: 0 <= i < |k.locals| ==> ProperBlock(k.locals[i].procedure.code))
  }

  lemma ReadyIsProper(w: World, c: Cache, st: Stack, debug: bool)
    requires ClosedCache(w, c) && GoodStack(w, c, st) && st.InModule?
    ensures ProperKnown(Known(debug, w.hash, Locals(st), c))
  {
    forall i | 0 <= i < |Locals(st)|
      ensures ProperBlock(Locals(st)[i].procedure.code)
    {
      GoodProcAt(w, c, Locals(st), st.current.callset, i);
    }
    forall root | root in c.procedures
      ensures ProperBlock(c.procedures[root].code)
    {
      assert Complete(w, c.procedures[root]);
    }
  }

  lemma {:induction false} LoweredProper(k: Known, nodes: seq<Node>)
    requires ValidKnown(k) && ProperKnown(k) && LowerNodes(k, nodes).Some?
    ensures BodyCompiler.ProperBody(LowerNodes(k, nodes).value)
    decreases nodes, 1
  {
    if nodes != [] {
      var init, last := nodes[..|nodes| - 1], nodes[|nodes| - 1];
      LoweredProper(k, init);
      LoweredNodeProper(k, last);
      var code := LowerNodes(k, nodes).value;
      assert code[..|code| - 1] == LowerNodes(k, init).value;
    }
  }

  lemma {:induction false} LoweredNodeProper(k: Known, n: Node)
    requires ValidKnown(k) && ProperKnown(k) && LowerNode(k, n).Some?
    ensures BodyCompiler.ProperNode(LowerNode(k, n).value)
    decreases n, 0
  {
    match n
    case Instr(_, i) =>
      match i {
        case ExecImported(id) => LookupIsCached(k.hash, k.cache, id);
        case CallImported(id) => LookupIsCached(k.hash, k.cache, id);
        case SysCall(id) => LookupIsCached(k.hash, k.cache, id);
        case _ =>
      }
    case IfElse(trueCase, falseCase) =>
      LoweredProper(k, trueCase);
      LoweredProper(k, falseCase);
    case Repeat(_, body) =>
      LoweredProper(k, body);
    case While(body) =>
      LoweredProper(k, body);
  }

  lemma CompiledIsLowered(k: Known, nodes: seq<Node>, w: Wrapper, b: CodeBlock)
    requires CompiledFrom(k, nodes, w, b)
    ensures ValidKnown(k) && LowerNodes(k, nodes).Some? && BodyCompiler.CompileBody(LowerNodes(k, nodes).value, w) == Ok(b)
  {
    assert Asked(0);
  }

  /** The root is the program compiled against known code. */
  ghost predicate MeansProgram(k: Known, program: ProgramAst, root: CodeBlock) {
    && ProgramCompiled(k, [], program, root) && ProperKnown(k)
    && ValidKnown(k) && LowerNodes(k, program.body).Some?
  }

  /**
   Executing a compiled program never looks for a code block in vain, if no phantom calls were
   compiled; and it does what its body, lowered against its procedures, says, if decorators are
   silent or the last span of each run of the body is tidy.
   */
  lemma CompiledProgramRuns<S(!new)>(m: Machine<S>, p: Program, phantoms: set<Digest>, k: Known, program: ProgramAst, fuel: nat, s: S)
    requires ClosedProgram(p, phantoms) && MeansProgram(k, program, p.root)
    ensures var r := Exec(m, p.table, fuel, p.root, s);
            r.Failed? && r.error.CodeBlockNotFound? ==> r.error.root in phantoms
    ensures var body := LowerNodes(k, program.body).value;
            NoopIsIdentity(m) && (DecoratorErasure.Silent(m) || BodyCompiler.LossFree(body, NO_WRAPPER)) ==>
              Exec(m, p.table, fuel, p.root, s) == BodyCompiler.RunBody(m, p.table, fuel, body, s)
  {
    NeverMissing(m, p.table, phantoms, fuel, p.root, s);
    var body := LowerNodes(k, program.body).value;
    CompiledIsLowered(k, program.body, NO_WRAPPER, p.root);
    LoweredProper(k, program.body);
    BodyCompiler.PlainWrapper(m, p.table, fuel, body, s);
    if NoopIsIdentity(m) && BodyCompiler.LossFree(body, NO_WRAPPER) {
      BodyCompiler.BodyCompiles(body, NO_WRAPPER);
      BodyCompiler.BodyRuns(m, p.table, fuel, body, NO_WRAPPER, s);
    }
    if NoopIsIdentity(m) && DecoratorErasure.Silent(m) {
      DecoratorErasure.CompiledBodyRuns(m, p.table, fuel, body, NO_WRAPPER, s);
    }
  }

  // Bodies

  /** The node, lowered, takes the compiled part of a body from `p` to `q`. */
  ghost predicate NodeAdded(k: Known, n: Node, p: BodyCompiler.Partial, q: BodyCompiler.Partial) {
    forall i: nat :: Asked(i) ==>
      && ValidKnown(k)
      && LowerNode(k, n).Some?
      && BodyCompiler.CompileNode(p, LowerNode(k, n).value) == Ok(q)
  }

  lemma FlushedSafe(p: BodyCompiler.Partial, roots: set<Digest>)
    requires AllSafe(p.blocks, roots) && OpenOrdered(p.open)
    ensures Flush(p.blocks, p.open).Ok? ==> AllSafe(Flush(p.blocks, p.open).value, roots)
  {
  }

  lemma ItemsAdded(k: Known, tag: Label, i: Instruction, p: BodyCompiler.Partial, open: OpSpan)
    requires InstructionAdded(k, tag, i, p.open, None, open)
    ensures NodeAdded(k, Instr(tag, i), p, BodyCompiler.Partial(p.blocks, open))
  {
    assert Asked(0);
  }

  lemma BlockAdded(k: Known, tag: Label, i: Instruction, p: BodyCompiler.Partial, flushed: seq<CodeBlock>, b: CodeBlock)
    requires InstructionAdded(k, tag, i, p.open, Some(b), p.open) && Flush(p.blocks, p.open) == Ok(flushed)
    ensures NodeAdded(k, Instr(tag, i), p, BodyCompiler.Partial(flushed + [b], BodyCompiler.EMPTY))
  {
    assert Asked(0);
  }

  lemma ControlAdded(k: Known, n: Node, p: BodyCompiler.Partial, flushed: seq<CodeBlock>, more: seq<CodeBlock>)
    requires Flush(p.blocks, p.open) == Ok(flushed) && ControlBlocks(k, n, more)
    ensures NodeAdded(k, n, p, BodyCompiler.Partial(flushed + more, BodyCompiler.EMPTY))
  {
    assert Asked(0);
  }

  lemma AllSafeConcat(xs: seq<CodeBlock>, ys: seq<CodeBlock>, roots: set<Digest>, more: set<Digest>)
    requires AllSafe(xs, roots) && roots <= more && AllSafe(ys, more)
    ensures AllSafe(xs + ys, more)
  {
  }

  // Bodies that can be compiled

  /** Where a body is compiled: after so many procedures, against this cache, under these rules. */
  datatype Site = Site(n: nat, cache: Cache, rules: Rules, debug: bool)

  /** All the body invokes may be invoked, and no span of decorators only has to be closed. */
  ghost predicate BodyFine(s: Site, nodes: seq<Node>, w: Wrapper) {
    forall i: nat :: Asked(i) ==> AcceptsAll(s.n, s.cache, s.rules, nodes) && BodyCompiler.Compilable(Outlines(s.debug, nodes), w)
  }

  ghost predicate ControlFine(s: Site, n: Node) {
    forall i: nat :: Asked(i) ==> AcceptsNode(s.n, s.cache, s.rules, n) && BodyCompiler.CompilableNode(Outline(s.debug, n))
  }

  /** The same of a node after an open span. */
  ghost predicate NodeFine(s: Site, n: Node, open: OpSpan) {
    ControlFine(s, n) && forall i: nat :: Asked(i) ==> Outline(s.debug, n).Emit? || BodyCompiler.Closable(open)
  }

  lemma FineInstruction(s: Site, tag: Label, i: Instruction, open: OpSpan)
    ensures NodeFine(s, Instr(tag, i), open) ==>
              Accepts(s.n, s.cache, s.rules, i) && (i.Primitive? || i.Breakpoint? || i.DebugPrint? || BodyCompiler.Closable(open))
  {
    assert Asked(0);
  }

  lemma FineControl(s: Site, n: Node, open: OpSpan)
    requires !n.Instr?
    ensures NodeFine(s, n, open) ==> ControlFine(s, n) && BodyCompiler.Closable(open)
  {
    assert Asked(0);
  }

  lemma FineBranches(s: Site, trueCase: seq<Node>, falseCase: seq<Node>)
    ensures ControlFine(s, IfElse(trueCase, falseCase)) ==>
              BodyFine(s, trueCase, NO_WRAPPER) && (falseCase != [] ==> BodyFine(s, falseCase, NO_WRAPPER))
  {
    assert Asked(0);
    if ControlFine(s, IfElse(trueCase, falseCase)) {
      assert Outline(s.debug, IfElse(trueCase, falseCase)) == BodyCompiler.IfElse(Outlines(s.debug, trueCase), Outlines(s.debug, falseCase));
    }
  }

  lemma FineBody(s: Site, n: Node, body: seq<Node>)
    requires n == While(body) || (n.Repeat? && n.body == body)
    ensures ControlFine(s, n) ==> BodyFine(s, body, NO_WRAPPER)
  {
    assert Asked(0);
  }

  lemma {:induction false} AcceptedAt(n: nat, c: Cache, rules: Rules, nodes: seq<Node>, i: nat)
    requires i < |nodes| && AcceptsAll(n, c, rules, nodes)
    ensures AcceptsNode(n, c, rules, nodes[i])
  {
    if i < |nodes| - 1 {
      AcceptedAt(n, c, rules, nodes[..|nodes| - 1], i);
    }
  }

  lemma {:induction false} OutlinesPrefix(debug: bool, nodes: seq<Node>, i: nat)
    requires i <= |nodes|
    ensures Outlines(debug, nodes)[..i] == Outlines(debug, nodes[..i])
    ensures i < |nodes| ==> Outlines(debug, nodes)[i] == Outline(debug, nodes[i])
  {
    if i == |nodes| {
      assert nodes[..i] == nodes;
    } else {
      var init := nodes[..|nodes| - 1];
      OutlinesPrefix(debug, init, i);
      assert init[..i] == nodes[..i];
      assert Outlines(debug, nodes) == Outlines(debug, init) + [Outline(debug, nodes[|nodes| - 1])];
    }
  }

  lemma {:induction false} CompilableAt(code: seq<BodyCompiler.Code>, start: OpSpan, i: nat)
    requires i < |code| && BodyCompiler.CompilableNodes(code, start)
    ensures BodyCompiler.CompilableNode(code[i])
    ensures code[i].Emit? || BodyCompiler.Closable(BodyCompiler.OpenAfter(code[..i], start))
  {
    if i < |code| - 1 {
      CompilableAt(code[..|code| - 1], start, i);
      assert code[..|code| - 1][..i] == code[..i];
    }
  }

  // Procedures and programs that can be compiled

  /** So many procedures further on. */
  function Further(s: Site, d: nat): Site {
    s.(n := s.n + d)
  }

  /** Of the procedures from the `i`th on: the `j`th has a free name, and its body can be compiled after those before it. */
  ghost predicate ProcFine(s: Site, st: Stack, procs: seq<ProcedureAst>, mayExport: bool, i: nat, j: nat)
    requires st.InModule? && i <= j < |procs|
  {
    && (procs[j].isExport ==> mayExport)
    && !KnownName(st, procs[j].name) && (forall l: nat :: i <= l < j ==> procs[l].name != procs[j].name)
    && BodyFine(Further(s, j - i), procs[j].body, LocalsWrapper(procs[j].numLocals))
  }

  ghost predicate ProcsFine(s: Site, st: Stack, procs: seq<ProcedureAst>, mayExport: bool, i: nat)
    requires st.InModule?
  {
    forall j: nat {:trigger Asked(j)} :: Asked(j) && i <= j < |procs| ==> ProcFine(s, st, procs, mayExport, i, j)
  }

  ghost predicate ProgramFine(s: Site, st: Stack, program: ProgramAst)
    requires st.InModule?
  {
    ProcsFine(s, st, program.procs, false, 0) && BodyFine(Further(s, |program.procs|), program.body, NO_WRAPPER)
  }

  /**
   A program whose imports are cached and that calls no other roots: its procedures are not exported
   and have distinct names, and all bodies can be compiled.
   */
  ghost predicate ProgramAccepted(debug: bool, c: Cache, program: ProgramAst) {
    && (forall j: nat :: j < |program.procs| ==>
          var proc := program.procs[j];
          && !proc.isExport && proc.name != MAIN_PROC && (forall i: nat :: i < j ==> program.procs[i].name != proc.name)
          && BodyFine(Site(j, c, Rules(false, false), debug), proc.body, LocalsWrapper(proc.numLocals)))
    && BodyFine(Site(|program.procs|, c, Rules(false, false), debug), program.body, NO_WRAPPER)
  }

  /** A straight-line instruction that emits an operation. */
  predicate Plain(n: Node) {
    n.Instr? && n.instruction.Primitive? && OpsOf(n.instruction.items) != []
  }

  lemma {:induction false} PlainOutlines(debug: bool, n: nat, c: Cache, rules: Rules, nodes: seq<Node>, start: OpSpan)
    requires (forall i :: 0 <= i < |nodes| ==> Plain(nodes[i])) && start.decorators == []
    ensures AcceptsAll(n, c, rules, nodes)
    ensures BodyCompiler.CompilableNodes(Outlines(debug, nodes), start)
    ensures var open := BodyCompiler.OpenAfter(Outlines(debug, nodes), start); open.ops != [] || open.decorators == []
  {
    if nodes != [] {
      var init, last := nodes[..|nodes| - 1], nodes[|nodes| - 1];
      PlainOutlines(debug, n, c, rules, init, start);
      assert Plain(last);
      PlainOutline(debug, last);
      EmitLast(Outlines(debug, init), Outline(debug, last).items, start);
    }
  }

  lemma PlainOutline(debug: bool, n: Node)
    requires Plain(n)
    ensures Outline(debug, n).Emit? && OpsOf(Outline(debug, n).items) != []
  {
    assert Emitted(debug, n.tag, n.instruction) == Tracked(debug, n.tag, n.instruction.items);
    TrackedOps(debug, n.tag, n.instruction.items);
  }

  lemma EmitLast(code: seq<BodyCompiler.Code>, items: seq<Item>, start: OpSpan)
    ensures var all := code + [BodyCompiler.Emit(items)];
            && BodyCompiler.CompilableNodes(all, start) == BodyCompiler.CompilableNodes(code, start)
            && BodyCompiler.OpenAfter(all, start) == Append(BodyCompiler.OpenAfter(code, start), items)
  {
    assert (code + [BodyCompiler.Emit(items)])[..|code|] == code;
  }

  lemma PlainBody(s: Site, nodes: seq<Node>, w: Wrapper)
    requires forall i :: 0 <= i < |nodes| ==> Plain(nodes[i])
    ensures BodyFine(s, nodes, w)
  {
    PlainOutlines(s.debug, s.n, s.cache, s.rules, nodes, OpSpan(w.prologue, []));
  }

  lemma TrackedOps(debug: bool, tag: Label, items: seq<Item>)
    ensures OpsOf(Tracked(debug, tag, items)) == OpsOf(items)
  {
    if debug && OpsOf(items) != [] {
      PrependDecorator(AsmOp(tag, |OpsOf(items)| % 256), items, 0);
    }
  }

  /** Programs of such instructions only are accepted, so they compile. */
  lemma PlainAccepted(debug: bool, c: Cache, body: seq<Node>)
    requires forall i :: 0 <= i < |body| ==> Plain(body[i])
    ensures ProgramAccepted(debug, c, ProgramAst([], body))
  {
    PlainBody(Site(0, c, Rules(false, false), debug), body, NO_WRAPPER);
  }

  /** The same of modules: procedures of such instructions, with any locals and distinct names. */
  lemma PlainModuleFine(s: Site, n: Naming, ast: ModuleAst)
    requires ast.reexportedProcs == []
    requires forall i: nat, j: nat :: i < j < |ast.procs| ==> ast.procs[i].name != ast.procs[j].name
    requires forall j: nat :: j < |ast.procs| ==> PlainProc(ast.procs[j])
    ensures ModuleFine(s, n, ast)
  {
    var st := Begun(PathOf(n.path), NoModule);
    forall j: nat | Asked(j) && 0 <= j < |ast.procs|
      ensures ProcFine(s, st, ast.procs, true, 0, j)
    {
      assert PlainProc(ast.procs[j]);
      PlainBody(Further(s, j - 0), ast.procs[j].body, LocalsWrapper(ast.procs[j].numLocals));
      assert !NameOnStack(NoProc, ast.procs[j].name);
    }
  }

  predicate PlainProc(p: ProcedureAst) {
    forall i :: 0 <= i < |p.body| ==> Plain(p.body[i])
  }

  lemma MainFine(debug: bool, c: Cache, program: ProgramAst, st: Stack)
    requires ForMain(st) && Locals(st) == []
    ensures ProgramAccepted(debug, c, program) ==> ProgramFine(Site(0, c, Rules(false, false), debug), st, program)
  {
    var s := Site(0, c, Rules(false, false), debug);
    if ProgramAccepted(debug, c, program) {
      forall j: nat | j < |program.procs|
        ensures ProcFine(s, st, program.procs, false, 0, j)
      {
        var proc := program.procs[j];
        assert proc.name != MAIN_PROC;
        assert !NameOnStack(st.current.procStack.outer, proc.name);
        assert forall i: nat :: i < j ==> program.procs[i].name != proc.name;
        assert BodyFine(Site(j, c, Rules(false, false), debug), proc.body, LocalsWrapper(proc.numLocals));
        assert Further(s, j - 0) == Site(j, c, Rules(false, false), debug);
      }
      assert Further(s, |program.procs|) == Site(|program.procs|, c, Rules(false, false), debug);
    }
  }

  /** The caches differ by aliases only. */
  ghost predicate MoreAliases(c: Cache, d: Cache) {
    d.procedures == c.procedures && d.ids == c.ids && c.aliases.Keys <= d.aliases.Keys
  }

  ghost predicate OnlyAliased(c: Cache, d: Cache, added: set<ProcId>) {
    MoreAliases(c, d) && d.aliases.Keys <= c.aliases.Keys + added
  }

  /** The alias that a re-export adds. */
  function NewAlias(n: Naming, proc: ProcReExport): set<ProcId> {
    match n.path
    case Some(path) => {n.idOfName(path, proc.name)}
    case None => {}
  }

  /** What is re-exported is cached, and its new name is not; without a path it must not be an alias. */
  predicate ReExportFine(n: Naming, c: Cache, proc: ProcReExport) {
    && Contains(c, proc.procId)
    && match n.path
       case Some(path) => !Contains(c, n.idOfName(path, proc.name))
       case None => proc.procId !in c.aliases
  }

  /** The re-exports from the `i`th on can be named, all differently. */
  ghost predicate ReExportsFine(n: Naming, c: Cache, procs: seq<ProcReExport>, i: nat) {
    forall j: nat {:trigger Asked(j)} :: Asked(j) && i <= j < |procs| ==>
      && ReExportFine(n, c, procs[j])
      && forall l: nat :: i <= l < j ==> NewAlias(n, procs[l]) !! NewAlias(n, procs[j])
  }

  lemma NextReExport(n: Naming, c: Cache, procs: seq<ProcReExport>, i: nat)
    requires i < |procs|
    ensures ReExportsFine(n, c, procs, i) ==> ReExportFine(n, c, procs[i])
  {
    assert Asked(i);
  }

  lemma OtherReExports(n: Naming, c: Cache, d: Cache, procs: seq<ProcReExport>, i: nat)
    requires i < |procs| && ReExportsFine(n, c, procs, i) && OnlyAliased(c, d, NewAlias(n, procs[i]))
    ensures ReExportsFine(n, d, procs, i + 1)
  {
    forall j: nat | Asked(j) && i < j < |procs|
      ensures ReExportFine(n, d, procs[j]) && forall l: nat :: i + 1 <= l < j ==> NewAlias(n, procs[l]) !! NewAlias(n, procs[j])
    {
      assert ReExportFine(n, c, procs[j]);
      assert NewAlias(n, procs[i]) !! NewAlias(n, procs[j]);
      if n.path.Some? {
        assert n.idOfName(n.path.value, procs[j].name) in NewAlias(n, procs[j]);
        assert n.idOfName(n.path.value, procs[i].name) in NewAlias(n, procs[i]);
      }
    }
  }

  lemma {:induction false} AcceptsMore(n: nat, c: Cache, d: Cache, rules: Rules, nodes: seq<Node>)
    requires MoreAliases(c, d) && AcceptsAll(n, c, rules, nodes)
    ensures AcceptsAll(n, d, rules, nodes)
    decreases nodes, 1
  {
    if nodes != [] {
      AcceptsMore(n, c, d, rules, nodes[..|nodes| - 1]);
      AcceptsNodeMore(n, c, d, rules, nodes[|nodes| - 1]);
    }
  }

  lemma {:induction false} AcceptsNodeMore(n: nat, c: Cache, d: Cache, rules: Rules, node: Node)
    requires MoreAliases(c, d) && AcceptsNode(n, c, rules, node)
    ensures AcceptsNode(n, d, rules, node)
    decreases node, 0
  {
    match node
    case Instr(_, _) =>
    case IfElse(trueCase, falseCase) =>
      AcceptsMore(n, c, d, rules, trueCase);
      AcceptsMore(n, c, d, rules, falseCase);
    case Repeat(_, body) =>
      AcceptsMore(n, c, d, rules, body);
    case While(body) =>
      AcceptsMore(n, c, d, rules, body);
  }

  /** More aliases do no harm. */
  lemma ProcsFineMore(s: Site, d: Cache, st: Stack, procs: seq<ProcedureAst>, mayExport: bool, i: nat)
    requires st.InModule? && MoreAliases(s.cache, d)
    ensures ProcsFine(s, st, procs, mayExport, i) ==> ProcsFine(s.(cache := d), st, procs, mayExport, i)
  {
    if ProcsFine(s, st, procs, mayExport, i) {
      forall j: nat | Asked(j) && i <= j < |procs|
        ensures ProcFine(s.(cache := d), st, procs, mayExport, i, j)
      {
        assert ProcFine(s, st, procs, mayExport, i, j);
        BodyFineMore(Further(s, j - i), d, procs[j].body, LocalsWrapper(procs[j].numLocals));
        assert Further(s.(cache := d), j - i) == Further(s, j - i).(cache := d);
      }
    }
  }

  lemma BodyFineMore(s: Site, d: Cache, nodes: seq<Node>, w: Wrapper)
    requires MoreAliases(s.cache, d) && BodyFine(s, nodes, w)
    ensures BodyFine(s.(cache := d), nodes, w)
  {
    assert Asked(0);
    AcceptsMore(s.n, s.cache, d, s.rules, nodes);
  }

  /** Once the next procedure is compiled, the others still can be. */
  lemma OthersFine(s: Site, s': Site, st: Stack, st': Stack, procs: seq<ProcedureAst>, mayExport: bool, i: nat)
    requires i < |procs| && AddedProc(st, st', procs[i]) && s' == Further(s, 1)
    ensures ProcsFine(s, st, procs, mayExport, i) ==> ProcsFine(s', st', procs, mayExport, i + 1)
  {
    if ProcsFine(s, st, procs, mayExport, i) {
      var next := i + 1;
      forall j: nat | next <= j < |procs|
        ensures ProcFine(s', st', procs, mayExport, next, j)
      {
        assert Asked(j);
        assert ProcFine(s, st, procs, mayExport, i, j);
        assert Further(s', j - (i + 1)) == Further(s, j - i);
        assert procs[i].name != procs[j].name;
        assert BodyFine(Further(s', j - (i + 1)), procs[j].body, LocalsWrapper(procs[j].numLocals));
        NewName(st, st', procs[i], procs[j].name);
      }
    }
  }

  lemma NewName(st: Stack, st': Stack, proc: ProcedureAst, name: string)
    requires AddedProc(st, st', proc) && !KnownName(st, name) && proc.name != name
    ensures !KnownName(st', name)
  {
  }

  /** The next procedure can be compiled. */
  lemma NextFine(s: Site, st: Stack, procs: seq<ProcedureAst>, mayExport: bool, i: nat)
    requires st.InModule? && i < |procs|
    ensures ProcsFine(s, st, procs, mayExport, i) ==>
              && (procs[i].isExport ==> mayExport) && !KnownName(st, procs[i].name)
              && BodyFine(s, procs[i].body, LocalsWrapper(procs[i].numLocals))
  {
    if ProcsFine(s, st, procs, mayExport, i) {
      assert Asked(i);
      assert ProcFine(s, st, procs, mayExport, i, i);
      assert Further(s, 0) == s;
    }
  }

  /** What has been compiled leaves the span open that the outline says. */
  lemma OpenSoFar(k: Known, nodes: seq<Node>, w: Wrapper, p: BodyCompiler.Partial)
    requires CompiledSoFar(k, nodes, w, p)
    ensures p.open == BodyCompiler.OpenAfter(Outlines(k.debug, nodes), OpSpan(w.prologue, []))
  {
    assert Asked(0);
    BodyCompiler.NodesCompile(LowerNodes(k, nodes).value, OpSpan(w.prologue, []));
    OutlinesCompilable(k, nodes, OpSpan(w.prologue, []));
  }

  lemma FineNode(s: Site, k: Known, nodes: seq<Node>, i: nat, w: Wrapper, p: BodyCompiler.Partial)
    requires i < |nodes| && BodyFine(s, nodes, w) && CompiledSoFar(k, nodes[..i], w, p) && k.debug == s.debug
    ensures NodeFine(s, nodes[i], p.open)
  {
    assert Asked(0);
    AcceptedAt(s.n, s.cache, s.rules, nodes, i);
    OpenSoFar(k, nodes[..i], w, p);
    OutlinesPrefix(s.debug, nodes, i);
    CompilableAt(Outlines(s.debug, nodes), OpSpan(w.prologue, []), i);
  }

  lemma FineEnd(s: Site, k: Known, nodes: seq<Node>, w: Wrapper, p: BodyCompiler.Partial)
    requires BodyFine(s, nodes, w) && CompiledSoFar(k, nodes, w, p) && k.debug == s.debug
    ensures BodyCompiler.Finish(p, w.epilogue).Ok?
  {
    assert Asked(0);
    OpenSoFar(k, nodes, w, p);
    assert BodyCompiler.Closable(OpSpan(p.open.ops + w.epilogue, p.open.decorators));
  }

  /** The nodes, lowered, make the compiled part `p` of a body. */
  ghost predicate CompiledSoFar(k: Known, nodes: seq<Node>, w: Wrapper, p: BodyCompiler.Partial) {
    forall i: nat :: Asked(i) ==>
      && ValidKnown(k)
      && LowerNodes(k, nodes).Some?
      && BodyCompiler.CompileNodes(LowerNodes(k, nodes).value, OpSpan(w.prologue, [])) == Ok(p)
  }

  lemma CompiledOneMore(k: Known, k': Known, nodes: seq<Node>, i: nat, w: Wrapper, p: BodyCompiler.Partial, q: BodyCompiler.Partial)
    requires Later(k, k') && i < |nodes|
    requires CompiledSoFar(k, nodes[..i], w, p) && NodeAdded(k', nodes[i], p, q)
    ensures CompiledSoFar(k', nodes[..i + 1], w, q)
  {
    assert Asked(0);
    LoweredKept(k, k', nodes[..i]);
    assert nodes[..i + 1] == nodes[..i] + [nodes[i]];
    SoFarSnoc(k', nodes[..i], nodes[i], w, p, q);
  }

  lemma SoFarSnoc(k: Known, nodes: seq<Node>, n: Node, w: Wrapper, p: BodyCompiler.Partial, q: BodyCompiler.Partial)
    requires CompiledSoFar(k, nodes, w, p) && NodeAdded(k, n, p, q)
    ensures CompiledSoFar(k, nodes + [n], w, q)
  {
    assert Asked(0);
    LowerSnoc(k, nodes, n);
    CompileSnoc(LowerNodes(k, nodes).value, LowerNode(k, n).value, OpSpan(w.prologue, []), p, q);
  }

  lemma {:induction false} LowerSnoc(k: Known, nodes: seq<Node>, n: Node)
    requires ValidKnown(k) && LowerNodes(k, nodes).Some? && LowerNode(k, n).Some?
    ensures LowerNodes(k, nodes + [n]) == Some(LowerNodes(k, nodes).value + [LowerNode(k, n).value])
  {
    assert (nodes + [n])[..|nodes|] == nodes;
  }

  lemma {:induction false} CompileSnoc(code: seq<BodyCompiler.Code>, last: BodyCompiler.Code, start: OpSpan, p: BodyCompiler.Partial, q: BodyCompiler.Partial)
    requires BodyCompiler.CompileNodes(code, start) == Ok(p) && BodyCompiler.CompileNode(p, last) == Ok(q)
    ensures BodyCompiler.CompileNodes(code + [last], start) == Ok(q)
  {
    assert (code + [last])[..|code|] == code;
  }

  ghost predicate ControlBlocks(k: Known, n: Node, blocks: seq<CodeBlock>) {
    forall i: nat :: Asked(i) ==>
      && ValidKnown(k)
      && !n.Instr?
      && LowerNode(k, n).Some?
      && BodyCompiler.NodeBlocks(LowerNode(k, n).value) == Ok(blocks)
  }

  lemma NothingCompiled(k: Known, w: Wrapper)
    requires ValidKnown(k)
    ensures CompiledSoFar(k, [], w, BodyCompiler.Partial([], OpSpan(w.prologue, [])))
  {
  }

  lemma AllCompiled(k: Known, nodes: seq<Node>, w: Wrapper, p: BodyCompiler.Partial, b: CodeBlock)
    requires CompiledSoFar(k, nodes, w, p) && BodyCompiler.Finish(p, w.epilogue) == Ok(b)
    ensures CompiledFrom(k, nodes, w, b)
  {
    assert Asked(0);
  }

  lemma LoopBlocks(k: Known, body: seq<Node>, b: CodeBlock)
    requires CompiledFrom(k, body, NO_WRAPPER, b)
    ensures ControlBlocks(k, While(body), [Loop(b)])
  {
    assert Asked(0);
    LoopOf(LowerNodes(k, body).value, b);
  }

  lemma LoopOf(body: seq<BodyCompiler.Code>, b: CodeBlock)
    requires BodyCompiler.CompileBody(body, NO_WRAPPER) == Ok(b)
    ensures BodyCompiler.NodeBlocks(BodyCompiler.While(body)) == Ok([Loop(b)])
  {
  }

  lemma LoopSafe(b: CodeBlock, roots: set<Digest>)
    requires Safe(b, roots)
    ensures AllSafe([Loop(b)], roots)
  {
    assert Targets(Loop(b)) == Targets(b) && ProperBlock(Loop(b));
  }

  lemma SplitBlocks(k: Known, trueCase: seq<Node>, falseCase: seq<Node>, onTrue: CodeBlock, onFalse: CodeBlock)
    requires CompiledFrom(k, trueCase, NO_WRAPPER, onTrue)
    requires if falseCase == [] then onFalse == DecoratorLoss.NOOP_BLOCK else CompiledFrom(k, falseCase, NO_WRAPPER, onFalse)
    ensures ControlBlocks(k, IfElse(trueCase, falseCase), [Split(onTrue, onFalse)])
  {
    assert Asked(0);
    var code := BodyCompiler.IfElse(LowerNodes(k, trueCase).value, LowerNodes(k, falseCase).value);
    assert LowerNode(k, IfElse(trueCase, falseCase)) == Some(code);
    assert BodyCompiler.NodeBlocks(code) == Ok([Split(onTrue, onFalse)]);
  }

  lemma SplitSafe(onTrue: CodeBlock, onFalse: CodeBlock, roots: set<Digest>)
    requires Safe(onTrue, roots) && Safe(onFalse, roots)
    ensures Safe(Split(onTrue, onFalse), roots)
  {
    assert Targets(Split(onTrue, onFalse)) == Targets(onTrue) + Targets(onFalse);
  }

  /** The instruction's items are in the open span, or its block is returned. */
  ghost predicate InstructionAdded(k: Known, tag: Label, i: Instruction, open: OpSpan, block: Option<CodeBlock>, open': OpSpan) {
    forall asked: nat :: Asked(asked) ==>
      && ValidKnown(k)
      && LowerInstruction(k, tag, i).Some?
      && match LowerInstruction(k, tag, i).value
         case Emit(items) => block == None && open' == Append(open, items)
         case Inline(b) => block == Some(b) && open' == open
         case _ => false
  }

  lemma NothingEmitted(debug: bool, tag: Label, open: OpSpan)
    ensures Append(open, Tracked(debug, tag, [])) == open
  {
  }

  lemma DecoratorOnly(debug: bool, tag: Label, dec: Decorator)
    ensures Tracked(debug, tag, if debug then [Dec(dec)] else []) == if debug then [Dec(dec)] else []
  {
    assert [Dec(dec)][..0] == [];
    assert OpsOf([Dec(dec)]) == OpsOf([]) == [];
  }
}
