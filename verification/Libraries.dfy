/**
 Libraries come from the assembler: what compiling a module or a program promises is what a unit
 needs to join the library of the units before it.
 */
module Libraries {
  import opened Results
  import opened Mast
  import opened ProcedureCaching
  import opened AssemblyContexts
  import opened SpanBuilding
  import Syntax
  import opened Assembling
  import opened SourceMeaning

  lemma EmptyIsGood(debug: bool, hash: Hash, c: Cache)
    requires ValidCache(hash, c) && ProperCache(c)
    ensures GoodLibrary(Library(debug, hash, c, [], map[]))
  {
  }

  /** One more unit, and where the ids that it exports come from. */
  function WithUnit(lib: Library, unit: Unit, more: map<ProcId, Place>): Library {
    lib.(units := lib.units + [unit], origin := lib.origin + more)
  }

  /** The units before it do not notice a new one. */
  lemma EarlierUnits(lib: Library, unit: Unit, more: map<ProcId, Place>, p: Place)
    requires ValidLibrary(lib) && |unit.locals| == |unit.procs| && p.unit < |lib.units|
    ensures var lib' := WithUnit(lib, unit, more);
            && (IsPlace(lib', p) <==> IsPlace(lib, p))
            && (IsPlace(lib, p) ==> RootAt(lib', p) == RootAt(lib, p) && (CompiledAt(lib', p) <==> CompiledAt(lib, p)))
  {
    var lib' := WithUnit(lib, unit, more);
    assert lib'.units[p.unit] == lib.units[p.unit];
    if IsPlace(lib, p) {
      assert KnownIn(Inside(lib', p)) == KnownIn(Inside(lib, p));
    }
  }

  lemma NewUnit(lib: Library, unit: Unit, more: map<ProcId, Place>, i: nat)
    requires ValidLibrary(lib) && i < |unit.procs|
    requires LocalsCompiled(Syntax.Known(lib.debug, lib.hash, unit.locals, lib.cache), [], unit.procs)
    ensures var lib', p := WithUnit(lib, unit, more), Place(|lib.units|, i); IsPlace(lib', p) && CompiledAt(lib', p)
  {
    var lib', p, k := WithUnit(lib, unit, more), Place(|lib.units|, i), Syntax.Known(lib.debug, lib.hash, unit.locals, lib.cache);
    assert LocalCompiled(k, 0 + i, unit.procs[i]);
    assert KnownIn(Inside(lib', p)) == Earlier(k, i);
  }

  /** Ids added with a unit resolve to the roots of the procedures they are said to come from. */
  ghost predicate Resolved(lib: Library, more: map<ProcId, Place>) {
    forall id :: id in more ==> IsPlace(lib, more[id]) && CachedAs(lib.hash, lib.cache, id, RootAt(lib, more[id]))
  }

  lemma UnitJoins(lib: Library, unit: Unit, more: map<ProcId, Place>)
    requires GoodLibrary(lib)
    requires LocalsCompiled(Syntax.Known(lib.debug, lib.hash, unit.locals, lib.cache), [], unit.procs)
    requires Resolved(WithUnit(lib, unit, more), more)
    ensures GoodLibrary(WithUnit(lib, unit, more))
  {
    var lib' := WithUnit(lib, unit, more);
    forall p: Place | IsPlace(lib', p)
      ensures CompiledAt(lib', p)
    {
      if p.unit < |lib.units| {
        EarlierUnits(lib, unit, more, p);
      } else {
        NewUnit(lib, unit, more, p.idx);
      }
    }
    forall id | id in lib'.origin
      ensures IsPlace(lib', lib'.origin[id]) && CachedAs(lib'.hash, lib'.cache, id, RootAt(lib', lib'.origin[id]))
    {
      if id !in more {
        OldOrigin(lib, unit, more, id);
      }
    }
  }

  lemma OldOrigin(lib: Library, unit: Unit, more: map<ProcId, Place>, id: ProcId)
    requires GoodLibrary(lib) && |unit.locals| == |unit.procs| && id in lib.origin
    ensures var lib' := WithUnit(lib, unit, more);
            IsPlace(lib', lib.origin[id]) && CachedAs(lib.hash, lib.cache, id, RootAt(lib', lib.origin[id]))
  {
    EarlierUnits(lib, unit, more, lib.origin[id]);
  }

  // Modules

  /** The module exports the procedure under this id, as its own or from a unit before it. */
  ghost predicate ExportedAs(lib: Library, n: Naming, ast: Syntax.ModuleAst, locals: seq<NamedProcedure>, id: ProcId, p: Place) {
    && n.path.Some?
    && (|| (exists j: nat :: j < |locals| && locals[j].isExport && id == n.idOfName(n.path.value, locals[j].name) && p == Place(|lib.units|, j))
        || (exists i: nat :: i < |ast.reexportedProcs| && ReExports(lib, n.idOfName, n.path.value, ast.reexportedProcs[i], id, p)))
  }

  ghost predicate ReExports(lib: Library, idOfName: (Path, string) -> ProcId, path: Path, proc: Syntax.ProcReExport, id: ProcId, p: Place) {
    id == idOfName(path, proc.name) && proc.procId in lib.origin && p == lib.origin[proc.procId]
  }

  lemma {:induction false} ExportCachedAt(n: Naming, c: Cache, procs: seq<NamedProcedure>, j: nat)
    requires ExportsCached(n, c, procs) && j < |procs|
    ensures ExportCached(n, c, procs[j])
  {
    if j < |procs| - 1 {
      ExportCachedAt(n, c, procs[..|procs| - 1], j);
    }
  }

  lemma {:induction false} ReExportCachedAt(n: Naming, c: Cache, procs: seq<Syntax.ProcReExport>, roots: seq<Digest>, i: nat)
    requires ReExportsCached(n, c, procs, roots) && i < |procs|
    ensures ReExportCached(n, c, procs[i], roots[i])
  {
    if i < |procs| - 1 {
      ReExportCachedAt(n, c, procs[..|procs| - 1], roots[..|procs| - 1], i);
    }
  }

  /** A compiled module joins the library of the modules before it, with all that it exports. */
  lemma ModuleJoins(lib: Library, n: Naming, ast: Syntax.ModuleAst, locals: seq<NamedProcedure>, roots: seq<Digest>, reexported: seq<Digest>,
                    more: map<ProcId, Place>)
    requires GoodLibrary(lib) && n.hash == lib.hash
    requires ModuleParts(Syntax.Known(lib.debug, lib.hash, locals, lib.cache), n, ast, roots, reexported)
    requires forall id :: id in more ==> ExportedAs(lib, n, ast, locals, id, more[id])
    ensures GoodLibrary(WithUnit(lib, Unit(locals, ast.procs), more))
  {
    var unit := Unit(locals, ast.procs);
    forall id | id in more
      ensures var lib' := WithUnit(lib, unit, more);
              IsPlace(lib', more[id]) && CachedAs(lib'.hash, lib'.cache, id, RootAt(lib', more[id]))
    {
      ExportResolves(lib, n, ast, locals, roots, reexported, more, id);
    }
    UnitJoins(lib, unit, more);
  }

  lemma ExportResolves(lib: Library, n: Naming, ast: Syntax.ModuleAst, locals: seq<NamedProcedure>, roots: seq<Digest>, reexported: seq<Digest>,
                       more: map<ProcId, Place>, id: ProcId)
    requires GoodLibrary(lib) && n.hash == lib.hash && id in more && ExportedAs(lib, n, ast, locals, id, more[id])
    requires ModuleParts(Syntax.Known(lib.debug, lib.hash, locals, lib.cache), n, ast, roots, reexported)
    ensures var lib' := WithUnit(lib, Unit(locals, ast.procs), more);
            IsPlace(lib', more[id]) && CachedAs(lib'.hash, lib'.cache, id, RootAt(lib', more[id]))
  {
    var lib', p := WithUnit(lib, Unit(locals, ast.procs), more), more[id];
    if j: nat :| j < |locals| && locals[j].isExport && id == n.idOfName(n.path.value, locals[j].name) && p == Place(|lib.units|, j) {
      ExportCachedAt(n, lib.cache, locals, j);
      assert lib'.units[p.unit] == Unit(locals, ast.procs);
    } else {
      var i: nat :| i < |ast.reexportedProcs| && ReExports(lib, n.idOfName, n.path.value, ast.reexportedProcs[i], id, p);
      ReExportCachedAt(n, lib.cache, ast.reexportedProcs, reexported, i);
      OldOrigin(lib, Unit(locals, ast.procs), more, ast.reexportedProcs[i].procId);
    }
  }

  // Programs

  /** A compiled program completes the library of the modules it is compiled with. */
  lemma ProgramJoins(lib: Library, locals: seq<NamedProcedure>, program: Syntax.ProgramAst, root: CodeBlock)
    requires GoodLibrary(lib) && MeansProgram(Syntax.Known(lib.debug, lib.hash, locals, lib.cache), program, root)
    ensures ProgramIn(WithUnit(lib, Unit(locals, program.procs), map[]), program, root)
  {
    var unit := Unit(locals, program.procs);
    var lib' := WithUnit(lib, unit, map[]);
    UnitJoins(lib, unit, map[]);
    assert lib'.units[|lib.units|] == unit;
    assert locals[..|program.procs|] == locals;
    assert KnownIn(MainContext(lib')) == Syntax.Known(lib.debug, lib.hash, locals, lib.cache);
  }

  /** Also alone, its imports then meaning what they are compiled to. */
  lemma ProgramAlone(debug: bool, hash: Hash, c: Cache, locals: seq<NamedProcedure>, program: Syntax.ProgramAst, root: CodeBlock)
    requires MeansProgram(Syntax.Known(debug, hash, locals, c), program, root)
    ensures ProgramIn(WithUnit(Library(debug, hash, c, [], map[]), Unit(locals, program.procs), map[]), program, root)
  {
    EmptyIsGood(debug, hash, c);
    ProgramJoins(Library(debug, hash, c, [], map[]), locals, program, root);
  }
}
