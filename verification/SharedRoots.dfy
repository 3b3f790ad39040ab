/**
 Procedures that share a root: roots forget arguments that are not encoded, NOOPs and decorators, so
 one procedure may be run for another. What that means for programs, machine by machine.
 */
module SharedRoots {
  import opened Results
  import opened Mast
  import opened Execution
  import opened DecoratorLoss
  import opened DecoratorErasure
  import opened ProcedureCaching
  import opened AssemblyContexts
  import Syntax
  import opened Assembling
  import opened CodeLikeness
  import opened SourceMeaning

  // Code found under a root

  /** The code that stands for a root in a program: cached, or of the program's first procedure with it. */
  ghost function StoredIn(lib: Library, root: Digest): Option<CodeBlock>
    requires lib.units != []
  {
    Stored(lib.hash, lib.cache, lib.units[|lib.units| - 1].locals, root)
  }

  ghost predicate TableOf(lib: Library, t: Table)
    requires lib.units != []
  {
    TableFrom(lib.hash, lib.cache, lib.units[|lib.units| - 1].locals, t)
  }

  lemma StoredProper(lib: Library, root: Digest)
    requires GoodLibrary(lib) && lib.units != [] && StoredIn(lib, root).Some?
    ensures lib.hash(StoredIn(lib, root).value) == root && ProperBlock(StoredIn(lib, root).value)
  {
    if root !in lib.cache.procedures {
      var cx := MainContext(lib);
      var i := FirstLocalAt(lib.hash, lib.units[cx.unit].locals, root);
      KnownProper(cx);
      assert KnownIn(cx).locals[i] == lib.units[cx.unit].locals[i];
    }
  }

  lemma CodeProper(lib: Library, p: Place)
    requires GoodLibrary(lib) && IsPlace(lib, p)
    ensures ProperBlock(CodeAt(lib, p))
  {
    KnownProper(Inside(lib, p));
    PlaceProper(lib, p);
  }

  /** Whatever stands for the root of a used procedure is like the procedure's own code. */
  ghost predicate SharedAlike(same: (OpSpan, OpSpan) -> bool, lib: Library, uses: set<Use>)
    requires lib.units != []
  {
    forall u :: u in uses ==> UseAlike(same, lib, u)
  }

  ghost predicate UseAlike(same: (OpSpan, OpSpan) -> bool, lib: Library, u: Use)
    requires lib.units != []
  {
    IsPlace(lib, u.place) && StoredIn(lib, RootAt(lib, u.place)).Some? ==>
      Alike(same, StoredIn(lib, RootAt(lib, u.place)).value, CodeAt(lib, u.place))
  }

  /** What stands for the root of a procedure that is called loses no decorator. */
  ghost predicate CalledLossless(lib: Library, uses: set<Use>)
    requires lib.units != []
  {
    forall u: Use :: u in uses && u.ByCall? && IsPlace(lib, u.place) && StoredIn(lib, RootAt(lib, u.place)).Some? ==>
      Lossless(StoredIn(lib, RootAt(lib, u.place)).value)
  }

  lemma SharedUsesAgree<S(!new)>(m: Machine<S>, t: Table, lib: Library, same: (OpSpan, OpSpan) -> bool, uses: set<Use>)
    requires GoodLibrary(lib) && lib.units != [] && TableOf(lib, t)
    requires CannotTell(m, same) && SharedAlike(same, lib, uses)
    requires Silent(m) || CalledLossless(lib, uses)
    ensures UsesAgree(m, t, lib, uses)
  {
    forall u: Use, fuel: nat, s: S | u in uses
      ensures UseAgrees(m, t, lib, u, fuel, s)
    {
      if IsPlace(lib, u.place) && StoredIn(lib, RootAt(lib, u.place)).Some? {
        var found := StoredIn(lib, RootAt(lib, u.place)).value;
        assert UseAlike(same, lib, u);
        AlikeMeans(m, t, fuel, same, found, CodeAt(lib, u.place), s);
        if Silent(m) {
          SilentRuns(m, t, fuel, found, s);
        } else if u.ByCall? {
          StoredProper(lib, RootAt(lib, u.place));
          LosslessRuns(m, t, fuel, found, s);
        }
      }
    }
  }

  // Programs run as their source says

  ghost function ProgramUses(lib: Library, program: Syntax.ProgramAst): set<Use>
    requires ValidLibrary(lib) && lib.units != []
  {
    Uses(MainContext(lib), program.body)
  }

  /** Roots that tell groups apart are enough for machines that see only what is encoded. */
  lemma SharedByRoot(lib: Library, uses: set<Use>)
    requires GoodLibrary(lib) && lib.units != [] && DeterminesGroups(lib.hash)
    ensures SharedAlike(SameGroups, lib, uses) && SharedAlike(SameViews, lib, uses)
  {
    forall u | u in uses && IsPlace(lib, u.place) && StoredIn(lib, RootAt(lib, u.place)).Some?
      ensures UseAlike(SameGroups, lib, u) && UseAlike(SameViews, lib, u)
    {
      var found, code := StoredIn(lib, RootAt(lib, u.place)).value, CodeAt(lib, u.place);
      StoredProper(lib, RootAt(lib, u.place));
      CodeProper(lib, u.place);
      ProperMeans(found);
      ProperMeans(code);
      assert lib.hash(found) == lib.hash(code);
      GroupsImplyViews(found, code);
    }
  }

  /**
   Whole-program correctness for machines without effects of decorators whose operations do what
   their opcodes and immediate values say.
   */
  lemma EncodedProgramRuns<S(!new)>(m: Machine<S>, t: Table, lib: Library, program: Syntax.ProgramAst, root: CodeBlock, fuel: nat, s: S)
    requires NoopIsIdentity(m) && Silent(m) && StepsByView(m)
    requires ProgramIn(lib, program, root) && TableOf(lib, t) && DeterminesGroups(lib.hash)
    ensures Exec(m, t, fuel, root, s) == RunSource(m, t, fuel, MainContext(lib), program.body, s)
  {
    var uses := ProgramUses(lib, program);
    SharedByRoot(lib, uses);
    ViewsCannotTell(m);
    SharedUsesAgree(m, t, lib, SameViews, uses);
    ProgramRunsSource(m, t, lib, program, root, fuel, s);
  }

  /**
   For all machines without effects of decorators: procedures that stand for one that is called or
   imported have to have the same operations as that one, arguments included.
   */
  lemma SilentProgramRuns<S(!new)>(m: Machine<S>, t: Table, lib: Library, program: Syntax.ProgramAst, root: CodeBlock, fuel: nat, s: S)
    requires NoopIsIdentity(m) && Silent(m)
    requires ProgramIn(lib, program, root) && TableOf(lib, t) && SharedAlike(SameOps, lib, ProgramUses(lib, program))
    ensures Exec(m, t, fuel, root, s) == RunSource(m, t, fuel, MainContext(lib), program.body, s)
  {
    OpsCannotTell(m);
    SharedUsesAgree(m, t, lib, SameOps, ProgramUses(lib, program));
    ProgramRunsSource(m, t, lib, program, root, fuel, s);
  }

  /** For all machines: the same with decorators, none of which may be lost. */
  lemma EffectfulProgramRuns<S(!new)>(m: Machine<S>, t: Table, lib: Library, program: Syntax.ProgramAst, root: CodeBlock, fuel: nat, s: S)
    requires NoopIsIdentity(m)
    requires ProgramIn(lib, program, root) && TableOf(lib, t) && SharedAlike(SameItems, lib, ProgramUses(lib, program))
    requires CalledLossless(lib, ProgramUses(lib, program)) && MainLossFree(lib, program)
    ensures Exec(m, t, fuel, root, s) == RunSource(m, t, fuel, MainContext(lib), program.body, s)
  {
    ItemsCannotTell(m);
    SharedUsesAgree(m, t, lib, SameItems, ProgramUses(lib, program));
    ProgramRunsSource(m, t, lib, program, root, fuel, s);
  }
}
