/** The modules available to the assembler. */
module ModuleProviding {
  import opened Results
  import opened ProcedureCaching
  import opened AssemblyContexts
  import opened Syntax

  datatype LibraryError = DuplicateModulePath | InvalidProcedurePath

  /** Names of what a module re-exports, then of its procedures. */
  function Names(ast: ModuleAst): seq<string> {
    seq(|ast.reexportedProcs|, i requires 0 <= i < |ast.reexportedProcs| => ast.reexportedProcs[i].name) +
    seq(|ast.procs|, i requires 0 <= i < |ast.procs| => ast.procs[i].name)
  }

  class ModuleProvider {
    const idOfName: (Path, string) -> ProcId
    /** Whether a name can be appended to a path: the result must be a valid path. */
    const appends: (Path, string) -> bool
    var modules: seq<Module>
    var procedures: map<ProcId, nat>

    /** Every known procedure is in a module that exists, and module paths are distinct. */
    ghost predicate Valid()
      reads this
    {
      && (forall id :: id in procedures ==> procedures[id] < |modules|)
      && (forall i, j :: 0 <= i < j < |modules| ==> modules[i].path != modules[j].path)
    }

    ghost function ModulePaths(): set<Path>
      reads this
    {
      set i | 0 <= i < |modules| :: modules[i].path
    }

    constructor (idOfName: (Path, string) -> ProcId, appends: (Path, string) -> bool)
      ensures Valid() && modules == [] && procedures == map[] && this.idOfName == idOfName && this.appends == appends
    {
      this.idOfName, this.appends := idOfName, appends;
      modules, procedures := [], map[];
    }

    method GetModule(id: ProcId) returns (r: Option<Module>)
      requires Valid()
      ensures r.Some? <==> id in procedures
      ensures r.Some? ==> r.value == modules[procedures[id]] && r.value.path in ModulePaths()
    {
      r := if id in procedures then Some(modules[procedures[id]]) else None;
    }

    /**
     Adds a module and its procedures. A path that is taken is refused without any change. If a name
     cannot be appended to the path, the module is not added, but names before it stay registered
     with an index that has no module: the provider cannot be used any more.
     */
    method AddModule(module_: Module) returns (r: Result<(), LibraryError>)
      requires Valid()
      modifies this
      ensures r == Err(DuplicateModulePath) <==> exists i :: 0 <= i < |old(modules)| && old(modules)[i].path == module_.path
      ensures r == Err(DuplicateModulePath) ==> modules == old(modules) && procedures == old(procedures)
      ensures r.Ok? ==> forall name :: name in Names(module_.ast) ==> appends(module_.path, name)
      ensures r == Err(InvalidProcedurePath) ==>
                modules == old(modules) && exists name :: name in Names(module_.ast) && !appends(module_.path, name)
      ensures r.Ok? ==> Valid() && modules == old(modules) + [module_] && Registered(module_.path, Names(module_.ast), |old(modules)|)
      ensures r.Ok? ==> forall i :: 0 <= i < |module_.ast.reexportedProcs| ==>
                var id := idOfName(module_.path, module_.ast.reexportedProcs[i].name);
                id in procedures && procedures[id] == |old(modules)|
      ensures r.Ok? ==> forall i :: 0 <= i < |module_.ast.procs| ==>
                var id := idOfName(module_.path, module_.ast.procs[i].name);
                id in procedures && procedures[id] == |old(modules)|
      ensures OnlyAdded(old(procedures), procedures, |old(modules)|)
    {
      for i := 0 to |modules|
        invariant modules == old(modules) && procedures == old(procedures)
        invariant forall j :: 0 <= j < i ==> modules[j].path != module_.path
      {
        if modules[i].path == module_.path {
          return Err(DuplicateModulePath);
        }
      }
      var appended := RegisterAll(module_.path, Names(module_.ast), |modules|);
      if !appended {
        return Err(InvalidProcedurePath);
      }
      NamesAre(module_.ast);
      modules := modules + [module_];
      r := Ok(());
    }

    /** All names are registered with the index. */
    ghost predicate Registered(path: Path, names: seq<string>, index: nat)
      reads this
    {
      forall name :: name in names ==> idOfName(path, name) in procedures && procedures[idOfName(path, name)] == index
    }

    /** Registers names until one cannot be appended to the path. */
    method RegisterAll(path: Path, names: seq<string>, index: nat) returns (ok: bool)
      modifies this`procedures
      ensures ok <==> forall name :: name in names ==> appends(path, name)
      ensures ok ==> Registered(path, names, index)
      ensures OnlyAdded(old(procedures), procedures, index)
    {
      for i := 0 to |names|
        invariant forall name :: name in names[..i] ==> appends(path, name)
        invariant Registered(path, names[..i], index)
        invariant OnlyAdded(old(procedures), procedures, index)
      {
        if !appends(path, names[i]) {
          return false;
        }
        procedures := procedures[idOfName(path, names[i]) := index];
      }
      assert names[..|names|] == names;
      ok := true;
    }
  }

  lemma NamesAre(ast: ModuleAst)
    ensures forall i :: 0 <= i < |ast.reexportedProcs| ==> ast.reexportedProcs[i].name in Names(ast)
    ensures forall i :: 0 <= i < |ast.procs| ==> ast.procs[i].name in Names(ast)
  {
    var names := Names(ast);
    forall i | 0 <= i < |ast.reexportedProcs|
      ensures ast.reexportedProcs[i].name in names
    {
      assert names[i] == ast.reexportedProcs[i].name;
    }
    forall i | 0 <= i < |ast.procs|
      ensures ast.procs[i].name in names
    {
      assert names[|ast.reexportedProcs| + i] == ast.procs[i].name;
    }
  }

  /** Nothing is forgotten, and what is new has the index. */
  ghost predicate OnlyAdded(before: map<ProcId, nat>, after: map<ProcId, nat>, index: nat) {
    && (forall id :: id in before ==> id in after)
    && (forall id :: id in after ==> after[id] == index || (id in before && after[id] == before[id]))
  }
}
