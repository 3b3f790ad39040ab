/** The builder that collects operations and decorators until a span is complete. */
module SpanBuilding {
  import opened Results
  import opened Mast

  /** Failures of the assembler; the last three are the source's panics. */
  datatype AssemblyError =
    | CircularModuleDependency
    | DuplicateProcName
    | DuplicateProcId
    | ConflictingNumLocals
    | LocalProcNotFound
    | ImportedProcModuleNotFound
    | ImportedProcNotFoundInModule
    | ReExportedProcModuleNotFound
    | KernelProcNotFound
    | CallInKernel
    | PhantomCallsNotAllowed(root: Digest)
    | CallSetProcedureNotFound(root: Digest)
    | ExportedProcInProgram
    | InvalidProgramAssemblyContext
    | InvalidInstruction
    | DecoratorsInEmptySpan
    | AliasHasNoDirectRoot

  // Straight-line items added to a builder

  function OpsOf(items: seq<Item>): seq<Operation> {
    if items == [] then [] else
      var rest := OpsOf(items[..|items| - 1]);
      match items[|items| - 1]
      case Op(op) => rest + [op]
      case Dec(_) => rest
  }

  /** Decorators of the items, placed as if `k` operations came before. */
  function DecsOf(items: seq<Item>, k: nat): DecoratorList {
    if items == [] then [] else
      var init := items[..|items| - 1];
      match items[|items| - 1]
      case Op(_) => DecsOf(init, k)
      case Dec(dec) => DecsOf(init, k) + [(k + |OpsOf(init)|, dec)]
  }

  /** The open span after adding items. */
  function Append(open: OpSpan, items: seq<Item>): OpSpan {
    OpSpan(open.ops + OpsOf(items), open.decorators + DecsOf(items, |open.ops|))
  }

  /** What an open span says. */
  function Items(open: OpSpan): seq<Item> {
    Interleave(open.ops, 0, open.decorators)
  }

  ghost predicate OpenOrdered(open: OpSpan) {
    Ordered(0, |open.ops|, open.decorators)
  }

  lemma {:induction false} AppendSnoc(open: OpSpan, items: seq<Item>, item: Item)
    ensures Append(open, items + [item]) ==
            var b := Append(open, items);
            match item
            case Op(op) => OpSpan(b.ops + [op], b.decorators)
            case Dec(dec) => OpSpan(b.ops, b.decorators + [(|b.ops|, dec)])
  {
    assert (items + [item])[..|items|] == items;
  }

  /** Adding one item to an open span adds it at the end of what the span says. */
  lemma {:induction false} ItemsSnoc(b: OpSpan, item: Item)
    requires OpenOrdered(b)
    ensures var c := match item
                     case Op(op) => OpSpan(b.ops + [op], b.decorators)
                     case Dec(dec) => OpSpan(b.ops, b.decorators + [(|b.ops|, dec)]);
            OpenOrdered(c) && Items(c) == Items(b) + [item]
  {
    match item
    case Op(op) =>
      InterleaveAppend(b.ops, [op], 0, b.decorators, []);
      assert b.decorators + [] == b.decorators;
      assert [op][1..] == [];
      assert Interleave([op], |b.ops|, []) == [Op(op)];
    case Dec(dec) =>
      var d := (|b.ops|, dec);
      InterleaveAppend(b.ops, [], 0, b.decorators, [d]);
      assert b.ops + [] == b.ops;
      assert [d][1..] == [];
      assert Interleave([], |b.ops|, [d]) == [Dec(dec)];
  }

  /** The builder loses nothing: it says what it said before, then the new items in order. */
  lemma {:induction false} AppendItems(open: OpSpan, items: seq<Item>)
    requires OpenOrdered(open)
    ensures OpenOrdered(Append(open, items))
    ensures Items(Append(open, items)) == Items(open) + items
  {
    if items == [] {
      assert Append(open, items) == open;
    } else {
      var init, last := items[..|items| - 1], items[|items| - 1];
      AppendItems(open, init);
      assert items == init + [last];
      AppendSnoc(open, init, last);
      ItemsSnoc(Append(open, init), last);
    }
  }

  /** An instruction as compiled in debug mode: preceded by its tracking decorator if it emits operations. */
  function Tracked(debug: bool, tag: Label, items: seq<Item>): seq<Item> {
    var n := |OpsOf(items)|;
    if debug && n > 0 then [Dec(AsmOp(tag, n % 256))] + items else items
  }

  lemma EmittedItems(open: OpSpan, debug: bool, tag: Label, items: seq<Item>)
    requires OpenOrdered(open)
    ensures Items(Append(open, Tracked(debug, tag, items))) ==
            Items(open) + (if debug && OpsOf(items) != [] then [Dec(AsmOp(tag, |OpsOf(items)| % 256))] else []) + items
  {
    AppendItems(open, Tracked(debug, tag, items));
    if debug && OpsOf(items) != [] {
      Associate(Items(open), [Dec(AsmOp(tag, |OpsOf(items)| % 256))], items);
    } else {
      assert Items(open) + [] == Items(open);
    }
  }

  lemma {:induction false} PrependDecorator(dec: Decorator, items: seq<Item>, k: nat)
    ensures OpsOf([Dec(dec)] + items) == OpsOf(items)
    ensures DecsOf([Dec(dec)] + items, k) == [(k, dec)] + DecsOf(items, k)
  {
    if items == [] {
      assert [Dec(dec)] + items == [Dec(dec)];
      assert [Dec(dec)][..0] == [];
    } else {
      var init := items[..|items| - 1];
      PrependDecorator(dec, init, k);
      assert ([Dec(dec)] + items)[..|items|] == [Dec(dec)] + init;
    }
  }

  datatype Wrapper = Wrapper(prologue: seq<Operation>, epilogue: seq<Operation>)

  const NO_WRAPPER := Wrapper([], [])

  class SpanBuilder {
    var ops: seq<Operation>
    var decorators: DecoratorList
    var epilogue: seq<Operation>
    var lastAsmopPos: nat

    /** Operations and decorators waiting for the next span. */
    function Open(): OpSpan
      reads this
    {
      OpSpan(ops, decorators)
    }

    constructor (wrapper: Wrapper)
      ensures Open() == OpSpan(wrapper.prologue, [])
      ensures epilogue == wrapper.epilogue
    {
      ops := wrapper.prologue;
      decorators := [];
      epilogue := wrapper.epilogue;
      lastAsmopPos := 0;
    }

    method PushOp(op: Operation)
      modifies this
      ensures Open() == OpSpan(old(ops) + [op], old(decorators))
      ensures epilogue == old(epilogue) && lastAsmopPos == old(lastAsmopPos)
    {
      ops := ops + [op];
    }

    method PushDecorator(dec: Decorator)
      modifies this
      ensures Open() == OpSpan(old(ops), old(decorators) + [(|old(ops)|, dec)])
      ensures epilogue == old(epilogue) && lastAsmopPos == old(lastAsmopPos)
    {
      decorators := decorators + [(|ops|, dec)];
    }

    method PushItems(items: seq<Item>)
      modifies this
      ensures Open() == Append(old(Open()), items)
      ensures epilogue == old(epilogue) && lastAsmopPos == old(lastAsmopPos)
    {
      for i := 0 to |items|
        invariant Open() == Append(old(Open()), items[..i])
        invariant epilogue == old(epilogue) && lastAsmopPos == old(lastAsmopPos)
      {
        AppendSnoc(old(Open()), items[..i], items[i]);
        assert items[..i + 1] == items[..i] + [items[i]];
        match items[i]
        case Op(op) => PushOp(op);
        case Dec(dec) => PushDecorator(dec);
      }
      assert items[..|items|] == items;
    }

    method TrackInstruction(tag: Label)
      modifies this
      ensures Open() == OpSpan(old(ops), old(decorators) + [(|old(ops)|, AsmOp(tag, 0))])
      ensures lastAsmopPos == |old(decorators)| && epilogue == old(epilogue)
    {
      PushDecorator(AsmOp(tag, 0));
      lastAsmopPos := |decorators| - 1;
    }

    /** Sets the tracked instruction's cycle count, or removes its decorator if it has none. */
    method SetInstructionCycleCount()
      requires lastAsmopPos < |decorators|
      requires decorators[lastAsmopPos].1.AsmOp? && decorators[lastAsmopPos].0 <= |ops|
      modifies this
      ensures ops == old(ops) && epilogue == old(epilogue) && lastAsmopPos == old(lastAsmopPos)
      ensures var (start, asmop) := old(decorators)[old(lastAsmopPos)];
              decorators == if |ops| == start then old(decorators)[..old(lastAsmopPos)] + old(decorators)[old(lastAsmopPos) + 1..]
                            else old(decorators)[old(lastAsmopPos) := (start, AsmOp(asmop.tag, (|ops| - start) % 256))]
    {
      var (start, asmop) := decorators[lastAsmopPos];
      var cycleCount := |ops| - start;
      if cycleCount == 0 {
        decorators := decorators[..lastAsmopPos] + decorators[lastAsmopPos + 1..];
      } else {
        decorators := decorators[lastAsmopPos := (start, AsmOp(asmop.tag, cycleCount % 256))];
      }
    }

    /**
     Compiles an instruction that emits operations and decorators: all its items, in debug mode after
     a decorator with the number of its operations, modulo 256, if it has any.
     */
    method EmitInstruction(debug: bool, tag: Label, items: seq<Item>)
      modifies this
      ensures Open() == Append(old(Open()), Tracked(debug, tag, items))
      ensures OpenOrdered(old(Open())) ==>
                Items(Open()) == Items(old(Open())) + (if debug && OpsOf(items) != [] then [Dec(AsmOp(tag, |OpsOf(items)| % 256))] else []) + items
      ensures epilogue == old(epilogue)
    {
      if OpenOrdered(Open()) {
        EmittedItems(Open(), debug, tag, items);
      }
      if debug {
        TrackInstruction(tag);
      }
      PushItems(items);
      if debug {
        ghost var k := |old(decorators)|;
        assert decorators == old(decorators) + [(|old(ops)|, AsmOp(tag, 0))] + DecsOf(items, |old(ops)|);
        assert decorators[k] == (|old(ops)|, AsmOp(tag, 0));
        SetInstructionCycleCount();
        if OpsOf(items) != [] {
          TrackedCounted(old(decorators), |old(ops)|, tag, items);
        } else {
          DropBetween(old(decorators), (|old(ops)|, AsmOp(tag, 0)), DecsOf(items, |old(ops)|));
        }
      }
    }

    /** In debug mode a breakpoint is a tracked NOOP whose cycle count stays zero. */
    method EmitBreakpoint(debug: bool, tag: Label)
      modifies this
      ensures Open() == Append(old(Open()), Breakpoint(debug, tag))
      ensures OpenOrdered(old(Open())) ==>
                Items(Open()) == Items(old(Open())) + (if debug then [Dec(AsmOp(tag, 0)), Op(Noop)] else [])
      ensures epilogue == old(epilogue)
    {
      if OpenOrdered(Open()) {
        AppendItems(Open(), Breakpoint(debug, tag));
      }
      if debug {
        TrackInstruction(tag);
        PushOp(Noop);
        TrackInstruction(tag);
        SetInstructionCycleCount();
        BreakpointAppended(old(Open()), tag);
        assert decorators == old(decorators) + [(|old(ops)|, AsmOp(tag, 0))];
      } else {
        assert Append(old(Open()), []) == old(Open());
      }
    }

    /** Moves the open operations and decorators into a new span at the end of `target`. */
    method ExtractSpanInto(target: seq<CodeBlock>) returns (r: Result<seq<CodeBlock>, AssemblyError>)
      modifies this
      ensures r == Flush(target, old(Open()))
      ensures r.Ok? ==> Open() == OpSpan([], [])
      ensures epilogue == old(epilogue)
    {
      if ops != [] {
        var span := OpSpan(ops, decorators);
        ops, decorators := [], [];
        r := Ok(target + [Span(span)]);
      } else if decorators != [] {
        r := Err(DecoratorsInEmptySpan);
      } else {
        r := Ok(target);
      }
    }

    method ExtractFinalSpanInto(target: seq<CodeBlock>) returns (r: Result<seq<CodeBlock>, AssemblyError>)
      modifies this
      ensures r == Flush(target, OpSpan(old(ops) + old(epilogue), old(decorators)))
    {
      ops, epilogue := ops + epilogue, [];
      r := ExtractSpanInto(target);
    }
  }

  /** Setting the count of the tracking decorator gives the decorators of the tracked items. */
  lemma TrackedCounted(before: DecoratorList, n: nat, tag: Label, items: seq<Item>)
    requires OpsOf(items) != []
    ensures (before + [(n, AsmOp(tag, 0))] + DecsOf(items, n))[|before| := (n, AsmOp(tag, |OpsOf(items)| % 256))] ==
            before + DecsOf(Tracked(true, tag, items), n)
    ensures OpsOf(Tracked(true, tag, items)) == OpsOf(items)
  {
    PrependDecorator(AsmOp(tag, |OpsOf(items)| % 256), items, n);
    SetBetween(before, (n, AsmOp(tag, 0)), (n, AsmOp(tag, |OpsOf(items)| % 256)), DecsOf(items, n));
  }

  lemma SetBetween<T>(before: seq<T>, x: T, y: T, after: seq<T>)
    ensures (before + [x] + after)[|before| := y] == before + ([y] + after)
  {
  }

  lemma DropBetween<T>(before: seq<T>, x: T, after: seq<T>)
    ensures var all := before + [x] + after; all[..|before|] + all[|before| + 1..] == before + after
  {
  }

  function Breakpoint(debug: bool, tag: Label): seq<Item> {
    if debug then [Dec(AsmOp(tag, 0)), Op(Noop)] else []
  }

  lemma {:induction false} BreakpointAppended(open: OpSpan, tag: Label)
    ensures Append(open, Breakpoint(true, tag)) ==
            OpSpan(open.ops + [Noop], open.decorators + [(|open.ops|, AsmOp(tag, 0))])
  {
    var d: Item := Dec(AsmOp(tag, 0));
    assert Breakpoint(true, tag) == ([] + [d]) + [Op(Noop)];
    AppendSnoc(open, [] + [d], Op(Noop));
    AppendSnoc(open, [], d);
    assert Append(open, []) == open;
  }

  /** Closes the open span: nothing to do if it is empty, a panic if it has only decorators. */
  function Flush(blocks: seq<CodeBlock>, open: OpSpan): Result<seq<CodeBlock>, AssemblyError> {
    if open.ops != [] then Ok(blocks + [Span(open)])
    else if open.decorators != [] then Err(DecoratorsInEmptySpan)
    else Ok(blocks)
  }
}
