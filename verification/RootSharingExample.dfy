/**
 Two procedures that differ only in an error code share a root, so that calling the second one runs
 the first: a program of two assertions and a call that fails with the wrong code.
 */
module RootSharingExample {
  import opened Results
  import opened Mast
  import opened Execution
  import opened OpBatching
  import opened SpanBuilding
  import opened BodyCompiler
  import opened DecoratorErasure
  import opened ProcedureCaching
  import opened AssemblyContexts
  import Syntax
  import opened Assembling
  import opened CodeLikeness
  import opened SourceMeaning
  import opened SharedRoots

  /** ASSERT with an error code, which is not encoded. */
  function Assert(code: nat): Operation {
    Basic(32, code)
  }

  function AssertSpan(code: nat): OpSpan {
    OpSpan([Assert(code)], [])
  }

  // One root for all assertions

  lemma GroupValuesOfOne(op: Operation)
    requires !op.HasImm()
    ensures GroupValues([op]) == [op.OpCode() as nat] + Filled(0, BATCH_SIZE - 1)
  {
    assert [op][..0] == [] && [op][1..] == [];
    assert PackAll([op]) == Pack(PackAll([]), op) == PackInto(Packing([], [], []), op);
    assert [] + [op] == [op];
    var gs: seq<seq<Operation>> := [[op]];
    var batches: seq<seq<seq<Operation>>> := [gs];
    assert PackAll([op]) == Packing([], [], [op]) && [] + [[op]] == gs;
    assert BatchGroups([op]) == batches;
    assert gs[..0] == [] && batches[..0] == [];
    assert Encode([op]) == op.OpCode() + 128 * Encode([op][1..]) == op.OpCode();
    assert Imms([op]) == Imms([op][..0]) + [] == [];
    assert Slots(gs) == Slots(gs[..0]) + [Encode([op])] + Imms([op]) == [op.OpCode() as nat];
    assert AllPadded(batches) == AllPadded(batches[..0]) + Padded(gs) == Padded(gs);
  }

  /** Two operations with one opcode and no immediate value. */
  lemma SameGroupsOfOne(x: Operation, y: Operation)
    requires !x.HasImm() && !y.HasImm() && x.OpCode() == y.OpCode()
    ensures GroupValues([x]) == GroupValues([y])
  {
    GroupValuesOfOne(x);
    GroupValuesOfOne(y);
  }

  lemma SpansAlike(same: (OpSpan, OpSpan) -> bool, x: OpSpan, y: OpSpan)
    requires same(x, y)
    ensures Alike(same, Span(x), Span(y))
  {
  }

  lemma AssertsShareRoot(hash: Hash, x: nat, y: nat)
    requires DependsOnGroups(hash)
    ensures hash(Span(AssertSpan(x))) == hash(Span(AssertSpan(y)))
  {
    SameGroupsOfOne(Assert(x), Assert(y));
    SpansAlike(SameGroups, AssertSpan(x), AssertSpan(y));
  }

  // The program

  /** A lawful machine: an assertion fails with its error code. */
  const ASSERTING: Machine<()> :=
    Machine((op: Operation, s) => if op.Basic? && op.code == 32 then Err(op.arg) else Ok(s), (dec, s) => Ok(s), s => 0, s => 0,
            (h, sys, s) => s, (parent, s) => Ok(s), {})

  /** proc.NAME assert.err=CODE end */
  function AssertProc(name: string, code: nat): Syntax.ProcedureAst {
    Syntax.ProcedureAst(name, false, 0, [Syntax.Instr(Label(name, "assert", false), Syntax.Primitive([Op(Assert(code))]))])
  }

  function CompiledAssert(name: string, code: nat): NamedProcedure {
    NamedProcedure(name, false, Procedure(0, Span(AssertSpan(code)), {}))
  }

  /** begin call.b end, after the procedures a and b */
  const PROGRAM := Syntax.ProgramAst([AssertProc("a", 1), AssertProc("b", 2)], [Syntax.Instr(Label(MAIN_PROC, "call", false), Syntax.CallLocal(1))])

  function TheLibrary(hash: Hash): Library {
    Library(false, hash, EMPTY_CACHE, [Unit([CompiledAssert("a", 1), CompiledAssert("b", 2)], PROGRAM.procs)], map[])
  }

  lemma AssertCompiled(k: Syntax.Known, name: string, code: nat)
    requires !k.debug && Syntax.ValidKnown(k)
    ensures Syntax.CompiledFrom(k, AssertProc(name, code).body, NO_WRAPPER, Span(AssertSpan(code)))
  {
    var n, items: seq<Item> := AssertProc(name, code).body[0], [Op(Assert(code))];
    assert Syntax.LowerNode(k, n) == Some(Emit(items));
    LowerOne(k, n);
    SingleInstruction(ASSERTING, map[], 0, items, ());
    AppendSnoc(EMPTY, [], Op(Assert(code)));
    assert [] + items == items;
    assert Append(EMPTY, []) == EMPTY && EMPTY.ops + [Assert(code)] == [Assert(code)];
  }

  lemma LibraryIsGood(hash: Hash)
    ensures GoodLibrary(TheLibrary(hash))
  {
    var lib := TheLibrary(hash);
    forall p: Place | IsPlace(lib, p)
      ensures CompiledAt(lib, p)
    {
      var name, code := if p.idx == 0 then "a" else "b", if p.idx == 0 then 1 else 2;
      AssertCompiled(KnownIn(Inside(lib, p)), name, code);
    }
  }

  lemma CallCompiled(hash: Hash)
    ensures ProgramIn(TheLibrary(hash), PROGRAM, Call(hash(Span(AssertSpan(2))), false))
  {
    var lib := TheLibrary(hash);
    LibraryIsGood(hash);
    var k, b := KnownIn(MainContext(lib)), Call(hash(Span(AssertSpan(2))), false);
    assert k.locals[1] == CompiledAssert("b", 2);
    assert Syntax.LowerNode(k, PROGRAM.body[0]) == Some(Inline(b));
    LowerOne(k, PROGRAM.body[0]);
    SingleInline(b);
  }

  lemma AssertFails(t: Table, fuel: nat, code: nat)
    ensures RunItems(ASSERTING, [Op(Assert(code))], ()) == Failed(OpError(code))
    ensures Exec(ASSERTING, t, fuel, Span(AssertSpan(code)), ()) == Failed(OpError(code))
  {
    assert [Assert(code)][1..] == [];
    assert Linear([Assert(code)], 0, []) == [Op(Assert(code))] + Linear([Assert(code)][1..], 1, []) == [Op(Assert(code))];
  }

  /**
   Whatever hash roots are made with: the program compiles, nothing is missing from its table, and
   the call of b ends with the error code of a.
   */
  lemma WrongErrorCode(hash: Hash)
    requires DependsOnGroups(hash) && hash(Span(AssertSpan(1))) != DYN_HASH
    ensures var lib, h, a := TheLibrary(hash), hash(Span(AssertSpan(1))), Span(AssertSpan(1));
            var t, root := map[h := a], Call(h, false);
            && ProgramIn(lib, PROGRAM, root) && TableOf(lib, t) && TableFor(hash, {h}, t) && ClosedProgram(Program(root, {}, t), {})
            && NoopIsIdentity(ASSERTING) && Silent(ASSERTING)
            && Exec(ASSERTING, t, 1, root, ()) == Failed(OpError(1))
            && RunSource(ASSERTING, t, 1, MainContext(lib), PROGRAM.body, ()) == Failed(OpError(2))
  {
    var lib, h, a := TheLibrary(hash), hash(Span(AssertSpan(1))), Span(AssertSpan(1));
    var t, root := map[h := a], Call(h, false);
    AssertsShareRoot(hash, 1, 2);
    CallCompiled(hash);
    FirstOfTwo(hash, h);
    AssertFails(t, 0, 1);
    SourceFails(hash, t);
  }

  lemma FirstOfTwo(hash: Hash, h: Digest)
    requires h == hash(Span(AssertSpan(1)))
    ensures StoredIn(TheLibrary(hash), h) == Some(Span(AssertSpan(1)))
  {
    var locals := TheLibrary(hash).units[0].locals;
    assert locals[..1] == [locals[0]] && locals[..1][..0] == [];
    assert FirstLocal(hash, locals[..1], h) == Some(Span(AssertSpan(1)));
  }

  lemma SourceFails(hash: Hash, t: Table)
    requires var h := hash(Span(AssertSpan(2))); h in t && h != DYN_HASH
    ensures RunSource(ASSERTING, t, 1, MainContext(TheLibrary(hash)), PROGRAM.body, ()) == Failed(OpError(2))
  {
    var lib, p := TheLibrary(hash), Place(0, 1);
    var cx, n := Inside(lib, p), AssertProc("b", 2).body[0];
    AssertFails(t, 0, 2);
    RunOne(ASSERTING, t, 0, cx, n, ());
    assert RunSource(ASSERTING, t, 0, cx, ProcAt(lib, p).body, ()) == Failed(OpError(2));
    assert AsItems([]) == [];
    assert RunProcedure(ASSERTING, t, 0, lib, p, ()) == Failed(OpError(2));
    assert RunCall(ASSERTING, t, 1, lib, p, false, ()) == Failed(OpError(2));
    assert Invoked(MainContext(lib), Syntax.CallLocal(1)) == Some(p);
    RunOne(ASSERTING, t, 1, MainContext(lib), PROGRAM.body[0], ());
  }
}
