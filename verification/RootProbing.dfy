/**
 The condition on shared roots is exact: if the code found for a procedure has other operations than
 the procedure, a machine without effects of decorators tells them apart. It runs up to the
 operation in question, by way of chosen branches, and fails with that operation's number.
 */
module RootProbing {
  import opened Results
  import opened Mast
  import opened Execution
  import opened DecoratorErasure
  import opened AssemblyContexts
  import Syntax
  import BodyCompiler
  import opened GroupDecoding
  import opened CodeLikeness
  import opened IdealHash
  import opened SourceMeaning
  import opened SharedRoots

  // A machine that stops at a chosen operation

  /** The time is the number of operations and calls so far; an idle machine does nothing. */
  datatype Probe = Probe(clock: nat, idle: bool)

  /**
   Branches and loops are taken at the given times, and calls entered, while other calls are run
   idly. The operation at the last moment fails with its number.
   */
  function Probing(kernel: set<Digest>, ones: set<nat>, last: nat): Machine<Probe> {
    Machine(
      (op: Operation, s: Probe) =>
        if s.idle || op.Noop? then Ok(s) else if s.clock == last then Err(EncodeOp(op)) else Ok(Probe(s.clock + 1, false)),
      (dec: Decorator, s: Probe) => Ok(s),
      (s: Probe) => if !s.idle && s.clock in ones then ONE else ZERO,
      (s: Probe) => 0,
      (h: Digest, isSyscall: bool, s: Probe) => if !s.idle && s.clock in ones then Probe(s.clock + 1, false) else Probe(s.clock, true),
      (parent: Probe, s: Probe) => Ok(if parent.idle then parent else Probe(parent.clock + 1, false)),
      kernel)
  }

  lemma ProbingLawful(kernel: set<Digest>, ones: set<nat>, last: nat)
    ensures NoopIsIdentity(Probing(kernel, ones, last)) && Silent(Probing(kernel, ones, last))
  {
  }

  /** All calls are of code in the table, none is dynamic, and they nest no deeper than the fuel. */
  predicate CallsReturn(t: Table, fuel: nat, b: CodeBlock)
    decreases fuel, b
  {
    match b
    case Span(_) => true
    case Join(first, second) => CallsReturn(t, fuel, first) && CallsReturn(t, fuel, second)
    case Split(onTrue, onFalse) => CallsReturn(t, fuel, onTrue) && CallsReturn(t, fuel, onFalse)
    case Loop(body) => CallsReturn(t, fuel, body)
    case Call(h, _) => h != DYN_HASH && h in t && fuel > 0 && CallsReturn(t, fuel - 1, t[h])
    case Dyn => false
    case Proxy(_) => false
  }

  // Idle runs

  lemma {:induction false} IdlePlain(m: Machine<Probe>, kernel: set<Digest>, ones: set<nat>, last: nat, ops: seq<Operation>, s: Probe)
    requires m == Probing(kernel, ones, last) && s.idle
    ensures RunPlain(m, ops, s) == Done(s)
  {
    if ops != [] {
      IdlePlain(m, kernel, ones, last, ops[1..], s);
    }
  }

  lemma {:induction false} IdleReturns(m: Machine<Probe>, kernel: set<Digest>, ones: set<nat>, last: nat, t: Table, fuel: nat, b: CodeBlock, s: Probe)
    requires m == Probing(kernel, ones, last) && t.Keys <= kernel && CallsReturn(t, fuel, b) && s.idle
    ensures Exec(m, t, fuel, b, s) == Meaning(m, t, fuel, b, s) == Done(s)
    decreases fuel, b
  {
    ProbingLawful(kernel, ones, last);
    SilentRuns(m, t, fuel, b, s);
    match b
    case Span(span) =>
      SilentIsPlain(m, span.ops, 0, span.decorators, s);
      IdlePlain(m, kernel, ones, last, span.ops, s);
    case Join(first, second) =>
      IdleReturns(m, kernel, ones, last, t, fuel, first, s);
      IdleReturns(m, kernel, ones, last, t, fuel, second, s);
    case Split(onTrue, onFalse) =>
      IdleReturns(m, kernel, ones, last, t, fuel, onFalse, s);
    case Loop(body) =>
    case Call(h, isSyscall) =>
      assert m.enter(h, isSyscall, s) == s;
      IdleReturns(m, kernel, ones, last, t, fuel - 1, t[h], s);
  }

  // Passing through code

  /** Nothing special is to happen in the meantime. */
  predicate Clear(ones: set<nat>, last: nat, from: nat, to: nat) {
    (forall x :: x in ones ==> x < from || to <= x) && (last < from || to <= last)
  }

  /** Both blocks lead from one moment to the other. */
  ghost predicate Passed(kernel: set<Digest>, t: Table, fuel: nat, b: CodeBlock, c: CodeBlock, from: nat, to: nat) {
    from <= to && forall ones: set<nat>, last: nat :: Clear(ones, last, from, to) ==> PassesBoth(kernel, t, fuel, b, c, from, to, ones, last)
  }

  ghost predicate PassesBoth(kernel: set<Digest>, t: Table, fuel: nat, b: CodeBlock, c: CodeBlock, from: nat, to: nat, ones: set<nat>, last: nat) {
    var m := Probing(kernel, ones, last);
    Meaning(m, t, fuel, b, Probe(from, false)) == Meaning(m, t, fuel, c, Probe(from, false)) == Done(Probe(to, false))
  }

  lemma {:induction false} PassPlain(m: Machine<Probe>, kernel: set<Digest>, ones: set<nat>, last: nat, ops: seq<Operation>, from: nat)
    requires m == Probing(kernel, ones, last) && (last < from || from + |NonNoops(ops)| <= last)
    ensures RunPlain(m, ops, Probe(from, false)) == Done(Probe(from + |NonNoops(ops)|, false))
  {
    if ops != [] {
      PassPlain(m, kernel, ones, last, ops[1..], if ops[0].Noop? then from else from + 1);
    }
  }

  lemma PassSpan(m: Machine<Probe>, kernel: set<Digest>, ones: set<nat>, last: nat, t: Table, fuel: nat, span: OpSpan, from: nat)
    requires m == Probing(kernel, ones, last) && (last < from || from + |NonNoops(span.ops)| <= last)
    ensures Meaning(m, t, fuel, Span(span), Probe(from, false)) == Done(Probe(from + |NonNoops(span.ops)|, false))
  {
    ProbingLawful(kernel, ones, last);
    SilentIsPlain(m, span.ops, 0, span.decorators, Probe(from, false));
    PassPlain(m, kernel, ones, last, span.ops, from);
  }

  lemma PassCall(m: Machine<Probe>, kernel: set<Digest>, ones: set<nat>, last: nat, t: Table, fuel: nat, b: CodeBlock, from: nat)
    requires m == Probing(kernel, ones, last) && t.Keys <= kernel && b.Call? && CallsReturn(t, fuel, b) && from !in ones
    ensures Meaning(m, t, fuel, b, Probe(from, false)) == Done(Probe(from + 1, false))
  {
    IdleReturns(m, kernel, ones, last, t, fuel - 1, t[b.fnHash], Probe(from, true));
  }

  /** Alike code takes the same time, if no branch or loop is taken and no call is entered. */
  lemma {:induction false} Pass(kernel: set<Digest>, t: Table, fuel: nat, b: CodeBlock, c: CodeBlock, from: nat) returns (to: nat)
    requires Alike(SameViews, b, c) && CallsReturn(t, fuel, b) && t.Keys <= kernel
    ensures Passed(kernel, t, fuel, b, c, from, to)
    decreases b
  {
    match b
    case Span(span) =>
      ViewsOfKept(span.ops);
      ViewsOfKept(c.span.ops);
      to := from + |NonNoops(span.ops)|;
      forall ones: set<nat>, last: nat | Clear(ones, last, from, to)
        ensures PassesBoth(kernel, t, fuel, b, c, from, to, ones, last)
      {
        PassSpan(Probing(kernel, ones, last), kernel, ones, last, t, fuel, span, from);
        PassSpan(Probing(kernel, ones, last), kernel, ones, last, t, fuel, c.span, from);
      }
    case Join(first, second) =>
      var middle := Pass(kernel, t, fuel, first, c.first, from);
      to := Pass(kernel, t, fuel, second, c.second, middle);
      PassJoin(kernel, t, fuel, b, c, from, middle, to);
    case Split(onTrue, onFalse) =>
      to := Pass(kernel, t, fuel, onFalse, c.onFalse, from + 1);
      PassSplit(kernel, t, fuel, b, c, from, to);
    case Loop(body) =>
      to := from + 1;
    case Call(h, isSyscall) =>
      to := from + 1;
      forall ones: set<nat>, last: nat | Clear(ones, last, from, to)
        ensures PassesBoth(kernel, t, fuel, b, c, from, to, ones, last)
      {
        PassCall(Probing(kernel, ones, last), kernel, ones, last, t, fuel, b, from);
      }
  }

  lemma PassJoin(kernel: set<Digest>, t: Table, fuel: nat, b: CodeBlock, c: CodeBlock, from: nat, middle: nat, to: nat)
    requires b.Join? && c.Join?
    requires Passed(kernel, t, fuel, b.first, c.first, from, middle) && Passed(kernel, t, fuel, b.second, c.second, middle, to)
    ensures Passed(kernel, t, fuel, b, c, from, to)
  {
    forall ones: set<nat>, last: nat | Clear(ones, last, from, to)
      ensures PassesBoth(kernel, t, fuel, b, c, from, to, ones, last)
    {
      assert Clear(ones, last, from, middle) && Clear(ones, last, middle, to);
      assert PassesBoth(kernel, t, fuel, b.first, c.first, from, middle, ones, last);
      assert PassesBoth(kernel, t, fuel, b.second, c.second, middle, to, ones, last);
    }
  }

  lemma PassSplit(kernel: set<Digest>, t: Table, fuel: nat, b: CodeBlock, c: CodeBlock, from: nat, to: nat)
    requires b.Split? && c.Split? && Passed(kernel, t, fuel, b.onFalse, c.onFalse, from + 1, to)
    ensures Passed(kernel, t, fuel, b, c, from, to)
  {
    forall ones: set<nat>, last: nat | Clear(ones, last, from, to)
      ensures PassesBoth(kernel, t, fuel, b, c, from, to, ones, last)
    {
      assert Clear(ones, last, from + 1, to);
      assert PassesBoth(kernel, t, fuel, b.onFalse, c.onFalse, from + 1, to, ones, last);
    }
  }

  // Stopping at an operation that differs

  /** Both blocks fail, with different numbers. */
  ghost predicate FailBoth(kernel: set<Digest>, t: Table, fuel: nat, b: CodeBlock, c: CodeBlock, from: nat, ones: set<nat>, last: nat) {
    var m := Probing(kernel, ones, last);
    var x, y := Meaning(m, t, fuel, b, Probe(from, false)), Meaning(m, t, fuel, c, Probe(from, false));
    x.Failed? && y.Failed? && x != y
  }

  /** They do, whatever is to happen before. */
  ghost predicate Differ(kernel: set<Digest>, t: Table, fuel: nat, b: CodeBlock, c: CodeBlock, from: nat, ones: set<nat>, last: nat) {
    && (forall x :: x in ones ==> from <= x) && from <= last
    && forall before: set<nat> :: (forall x :: x in before ==> x < from) ==> FailBoth(kernel, t, fuel, b, c, from, before + ones, last)
  }

  lemma {:induction false} FailPlain(m: Machine<Probe>, kernel: set<Digest>, ones: set<nat>, last: nat, ops: seq<Operation>, from: nat)
    requires m == Probing(kernel, ones, last) && from <= last < from + |NonNoops(ops)|
    ensures RunPlain(m, ops, Probe(from, false)) == Failed(OpError(EncodeOp(NonNoops(ops)[last - from])))
  {
    if ops[0].Noop? {
      assert NonNoops(ops) == NonNoops(ops[1..]);
      FailPlain(m, kernel, ones, last, ops[1..], from);
    } else {
      assert NonNoops(ops)[1..] == NonNoops(ops[1..]);
      if from < last {
        FailPlain(m, kernel, ones, last, ops[1..], from + 1);
      }
    }
  }

  lemma FirstDifference(xs: seq<Operation>, ys: seq<Operation>) returns (i: nat)
    requires |xs| == |ys| && xs != ys
    ensures i < |xs| && xs[i] != ys[i]
  {
    i :| i < |xs| && xs[i] != ys[i];
  }

  lemma SpansDiffer(kernel: set<Digest>, t: Table, fuel: nat, x: OpSpan, y: OpSpan, from: nat) returns (last: nat)
    requires SameViews(x, y) && !SameOps(x, y)
    ensures Differ(kernel, t, fuel, Span(x), Span(y), from, {}, last)
  {
    ViewsOfKept(x.ops);
    ViewsOfKept(y.ops);
    var i := FirstDifference(NonNoops(x.ops), NonNoops(y.ops));
    last := from + i;
    forall before: set<nat> | forall z :: z in before ==> z < from
      ensures FailBoth(kernel, t, fuel, Span(x), Span(y), from, before + {}, last)
    {
      SpansFail(kernel, t, fuel, x, y, from, before + {}, i);
    }
  }

  lemma SpansFail(kernel: set<Digest>, t: Table, fuel: nat, x: OpSpan, y: OpSpan, from: nat, ones: set<nat>, i: nat)
    requires SameViews(x, y) && (forall z :: z in ones ==> z < from)
    requires i < |NonNoops(x.ops)| && i < |NonNoops(y.ops)| && NonNoops(x.ops)[i] != NonNoops(y.ops)[i]
    ensures FailBoth(kernel, t, fuel, Span(x), Span(y), from, ones, from + i)
  {
    var last := from + i;
    var m := Probing(kernel, ones, last);
    ProbingLawful(kernel, ones, last);
    SilentIsPlain(m, x.ops, 0, x.decorators, Probe(from, false));
    SilentIsPlain(m, y.ops, 0, y.decorators, Probe(from, false));
    FailPlain(m, kernel, ones, last, x.ops, from);
    FailPlain(m, kernel, ones, last, y.ops, from);
    if EncodeOp(NonNoops(x.ops)[i]) == EncodeOp(NonNoops(y.ops)[i]) {
      EncodeOpInjective(NonNoops(x.ops)[i], NonNoops(y.ops)[i]);
    }
  }

  /** Code that differs in an operation can be told apart from there. */
  lemma {:induction false} Tell(kernel: set<Digest>, t: Table, fuel: nat, b: CodeBlock, c: CodeBlock, from: nat) returns (ones: set<nat>, last: nat)
    requires Alike(SameViews, b, c) && !Alike(SameOps, b, c) && CallsReturn(t, fuel, b) && t.Keys <= kernel
    ensures Differ(kernel, t, fuel, b, c, from, ones, last)
    decreases b
  {
    match b
    case Span(x) =>
      ones := {};
      last := SpansDiffer(kernel, t, fuel, x, c.span, from);
    case Join(first, second) =>
      if !Alike(SameOps, first, c.first) {
        ones, last := Tell(kernel, t, fuel, first, c.first, from);
        TellFirst(kernel, t, fuel, b, c, from, ones, last);
      } else {
        var middle := Pass(kernel, t, fuel, first, c.first, from);
        ones, last := Tell(kernel, t, fuel, second, c.second, middle);
        TellSecond(kernel, t, fuel, b, c, from, middle, ones, last);
      }
    case Split(onTrue, onFalse) =>
      if !Alike(SameOps, onTrue, c.onTrue) {
        var later;
        later, last := Tell(kernel, t, fuel, onTrue, c.onTrue, from + 1);
        ones := {from} + later;
        TellTaken(kernel, t, fuel, b, c, onTrue, c.onTrue, from, later, last);
      } else {
        ones, last := Tell(kernel, t, fuel, onFalse, c.onFalse, from + 1);
        TellOther(kernel, t, fuel, b, c, from, ones, last);
      }
    case Loop(body) =>
      var later;
      later, last := Tell(kernel, t, fuel, body, c.body, from + 1);
      ones := {from} + later;
      TellTaken(kernel, t, fuel, b, c, body, c.body, from, later, last);
  }

  lemma TellFirst(kernel: set<Digest>, t: Table, fuel: nat, b: CodeBlock, c: CodeBlock, from: nat, ones: set<nat>, last: nat)
    requires b.Join? && c.Join? && Differ(kernel, t, fuel, b.first, c.first, from, ones, last)
    ensures Differ(kernel, t, fuel, b, c, from, ones, last)
  {
    forall before: set<nat> | forall x :: x in before ==> x < from
      ensures FailBoth(kernel, t, fuel, b, c, from, before + ones, last)
    {
      assert FailBoth(kernel, t, fuel, b.first, c.first, from, before + ones, last);
    }
  }

  lemma TellSecond(kernel: set<Digest>, t: Table, fuel: nat, b: CodeBlock, c: CodeBlock, from: nat, middle: nat, ones: set<nat>, last: nat)
    requires b.Join? && c.Join? && Passed(kernel, t, fuel, b.first, c.first, from, middle)
    requires Differ(kernel, t, fuel, b.second, c.second, middle, ones, last)
    ensures Differ(kernel, t, fuel, b, c, from, ones, last)
  {
    forall before: set<nat> | forall x :: x in before ==> x < from
      ensures FailBoth(kernel, t, fuel, b, c, from, before + ones, last)
    {
      assert Clear(before + ones, last, from, middle);
      assert PassesBoth(kernel, t, fuel, b.first, c.first, from, middle, before + ones, last);
      assert FailBoth(kernel, t, fuel, b.second, c.second, middle, before + ones, last);
    }
  }

  /** A branch or loop that is taken. */
  lemma TellTaken(kernel: set<Digest>, t: Table, fuel: nat, b: CodeBlock, c: CodeBlock, x: CodeBlock, y: CodeBlock, from: nat, later: set<nat>, last: nat)
    requires (b.Split? && c.Split? && x == b.onTrue && y == c.onTrue) || (b.Loop? && c.Loop? && x == b.body && y == c.body)
    requires Differ(kernel, t, fuel, x, y, from + 1, later, last)
    ensures Differ(kernel, t, fuel, b, c, from, {from} + later, last)
  {
    forall before: set<nat> | forall z :: z in before ==> z < from
      ensures FailBoth(kernel, t, fuel, b, c, from, before + ({from} + later), last)
    {
      assert before + ({from} + later) == (before + {from}) + later;
      assert FailBoth(kernel, t, fuel, x, y, from + 1, (before + {from}) + later, last);
    }
  }

  lemma TellOther(kernel: set<Digest>, t: Table, fuel: nat, b: CodeBlock, c: CodeBlock, from: nat, ones: set<nat>, last: nat)
    requires b.Split? && c.Split? && Differ(kernel, t, fuel, b.onFalse, c.onFalse, from + 1, ones, last)
    ensures Differ(kernel, t, fuel, b, c, from, ones, last)
  {
    forall before: set<nat> | forall x :: x in before ==> x < from
      ensures FailBoth(kernel, t, fuel, b, c, from, before + ones, last)
    {
      assert FailBoth(kernel, t, fuel, b.onFalse, c.onFalse, from + 1, before + ones, last);
    }
  }

  // The least procedure that is not run as it says

  predicate Below(p: Place, unit: nat, idx: nat) {
    p.unit < unit || (p.unit == unit && p.idx < idx)
  }

  /** Uses are of procedures before; what these use is used as well. */
  lemma {:induction false} UsesInside(cx: Context, nodes: seq<Syntax.Node>, u: Use)
    requires InLibrary(cx) && u in Uses(cx, nodes)
    ensures IsPlace(cx.lib, u.place) && Below(u.place, cx.unit, cx.known) && ProcedureUses(cx.lib, u.place) <= Uses(cx, nodes)
    decreases cx.unit, cx.known, Syntax.NodesSize(nodes), 0
  {
    if u in Uses(cx, nodes[..|nodes| - 1]) {
      UsesInside(cx, nodes[..|nodes| - 1], u);
    } else {
      NodeUsesInside(cx, nodes[|nodes| - 1], u);
    }
  }

  lemma {:induction false} NodeUsesInside(cx: Context, n: Syntax.Node, u: Use)
    requires InLibrary(cx) && u in NodeUses(cx, n)
    ensures IsPlace(cx.lib, u.place) && Below(u.place, cx.unit, cx.known) && ProcedureUses(cx.lib, u.place) <= NodeUses(cx, n)
    decreases cx.unit, cx.known, Syntax.NodeSize(n), 0
  {
    match n
    case Instr(_, i) =>
      var p := Invoked(cx, i).value;
      if u in ProcedureUses(cx.lib, p) {
        UsesInside(Inside(cx.lib, p), ProcAt(cx.lib, p).body, u);
      }
    case IfElse(trueCase, falseCase) =>
      if u in Uses(cx, trueCase) {
        UsesInside(cx, trueCase, u);
      } else {
        UsesInside(cx, falseCase, u);
      }
    case Repeat(_, body) =>
      UsesInside(cx, body, u);
    case While(body) =>
      UsesInside(cx, body, u);
  }

  lemma {:induction false} LeastUnlike(lib: Library, uses: set<Use>, u: Use) returns (least: Use)
    requires lib.units != [] && u in uses && !UseAlike(SameOps, lib, u)
    ensures least in uses && !UseAlike(SameOps, lib, least)
    ensures forall v :: v in uses && Below(v.place, least.place.unit, least.place.idx) ==> UseAlike(SameOps, lib, v)
    decreases u.place.unit, u.place.idx
  {
    if v :| v in uses && Below(v.place, u.place.unit, u.place.idx) && !UseAlike(SameOps, lib, v) {
      least := LeastUnlike(lib, uses, v);
    } else {
      least := u;
    }
  }

  /** Calls made by the code found for the uses of a program come back. */
  ghost predicate FoundCallsReturn(t: Table, fuel: nat, lib: Library, uses: set<Use>)
    requires lib.units != []
  {
    forall u: Use :: u in uses && IsPlace(lib, u.place) && StoredIn(lib, RootAt(lib, u.place)).Some? ==>
      CallsReturn(t, fuel, StoredIn(lib, RootAt(lib, u.place)).value)
  }

  /**
   The condition of `SilentProgramRuns` is exact: if it does not hold, a procedure that the program
   calls or imports is run differently from what its source says, on a lawful machine without
   effects of decorators. If the procedure is called, so is the call.
   */
  lemma UnlikeIsTold(t: Table, fuel: nat, lib: Library, program: Syntax.ProgramAst, root: CodeBlock)
    returns (u: Use, m: Machine<Probe>, s: Probe, caller: Probe)
    requires ProgramIn(lib, program, root) && TableOf(lib, t) && DeterminesGroups(lib.hash)
    requires !SharedAlike(SameOps, lib, ProgramUses(lib, program)) && FoundCallsReturn(t, fuel, lib, ProgramUses(lib, program))
    ensures NoopIsIdentity(m) && Silent(m) && u in ProgramUses(lib, program) && IsPlace(lib, u.place)
    ensures var found := StoredIn(lib, RootAt(lib, u.place));
            found.Some? && Exec(m, t, fuel, found.value, s) != RunProcedure(m, t, fuel, lib, u.place, s)
    ensures var h := RootAt(lib, u.place);
            h in t && h != DYN_HASH ==> Exec(m, t, fuel + 1, Call(h, false), caller) != RunCall(m, t, fuel + 1, lib, u.place, false, caller)
  {
    var ones, last;
    u, ones, last := LeastTold(t, fuel, lib, program);
    m, s, caller := Probing(t.Keys, {0} + ones, last), Probe(1, false), Probe(0, false);
    ProbingLawful(t.Keys, {0} + ones, last);
    SilentRuns(m, t, fuel, StoredIn(lib, RootAt(lib, u.place)).value, s);
    LeastMeansSource(m, t, fuel, lib, program, u, s);
    CallEntered(m, t.Keys, {0} + ones, last, t, fuel, lib, u.place);
  }

  /** The code found for the least use in question is told from the procedure's own code. */
  lemma LeastTold(t: Table, fuel: nat, lib: Library, program: Syntax.ProgramAst) returns (u: Use, ones: set<nat>, last: nat)
    requires GoodLibrary(lib) && lib.units != [] && DeterminesGroups(lib.hash)
    requires !SharedAlike(SameOps, lib, ProgramUses(lib, program)) && FoundCallsReturn(t, fuel, lib, ProgramUses(lib, program))
    ensures u in ProgramUses(lib, program) && IsPlace(lib, u.place) && StoredIn(lib, RootAt(lib, u.place)).Some?
    ensures forall v :: v in ProgramUses(lib, program) && Below(v.place, u.place.unit, u.place.idx) ==> UseAlike(SameOps, lib, v)
    ensures FailBoth(t.Keys, t, fuel, StoredIn(lib, RootAt(lib, u.place)).value, CodeAt(lib, u.place), 1, {0} + ones, last)
  {
    var bad :| bad in ProgramUses(lib, program) && !UseAlike(SameOps, lib, bad);
    u := LeastUnlike(lib, ProgramUses(lib, program), bad);
    ones, last := UseTold(t, fuel, lib, u);
  }

  lemma UseTold(t: Table, fuel: nat, lib: Library, u: Use) returns (ones: set<nat>, last: nat)
    requires GoodLibrary(lib) && lib.units != [] && DeterminesGroups(lib.hash) && !UseAlike(SameOps, lib, u)
    requires CallsReturn(t, fuel, StoredIn(lib, RootAt(lib, u.place)).value)
    ensures FailBoth(t.Keys, t, fuel, StoredIn(lib, RootAt(lib, u.place)).value, CodeAt(lib, u.place), 1, {0} + ones, last)
  {
    SharedByRoot(lib, {u});
    assert UseAlike(SameViews, lib, u);
    ones, last := TellEntered(t, fuel, StoredIn(lib, RootAt(lib, u.place)).value, CodeAt(lib, u.place));
  }

  lemma TellEntered(t: Table, fuel: nat, b: CodeBlock, c: CodeBlock) returns (ones: set<nat>, last: nat)
    requires Alike(SameViews, b, c) && !Alike(SameOps, b, c) && CallsReturn(t, fuel, b)
    ensures FailBoth(t.Keys, t, fuel, b, c, 1, {0} + ones, last)
  {
    ones, last := Tell(t.Keys, t, fuel, b, c, 1);
  }

  lemma LeastMeansSource<S(!new)>(m: Machine<S>, t: Table, fuel: nat, lib: Library, program: Syntax.ProgramAst, u: Use, s: S)
    requires NoopIsIdentity(m) && Silent(m) && GoodLibrary(lib) && lib.units != [] && TableOf(lib, t)
    requires u in ProgramUses(lib, program)
    requires forall v :: v in ProgramUses(lib, program) && Below(v.place, u.place.unit, u.place.idx) ==> UseAlike(SameOps, lib, v)
    ensures IsPlace(lib, u.place) && Meaning(m, t, fuel, CodeAt(lib, u.place), s) == RunProcedure(m, t, fuel, lib, u.place, s)
  {
    UsesInside(MainContext(lib), program.body, u);
    forall v | v in ProcedureUses(lib, u.place)
      ensures UseAlike(SameOps, lib, v)
    {
      UsesInside(Inside(lib, u.place), ProcAt(lib, u.place).body, v);
    }
    OpsCannotTell(m);
    SharedUsesAgree(m, t, lib, SameOps, ProcedureUses(lib, u.place));
    ProcedureMeansSource(m, t, fuel, lib, u.place, s);
  }

  /** A call that is entered fails as the callee does. */
  lemma CallEntered(m: Machine<Probe>, kernel: set<Digest>, ones: set<nat>, last: nat, t: Table, fuel: nat, lib: Library, p: Place)
    requires m == Probing(kernel, ones, last) && 0 in ones && IsPlace(lib, p)
    requires RunProcedure(m, t, fuel, lib, p, Probe(1, false)).Failed?
    ensures var h := RootAt(lib, p);
            h in t && h != DYN_HASH && Exec(m, t, fuel, t[h], Probe(1, false)).Failed? ==>
              && Exec(m, t, fuel + 1, Call(h, false), Probe(0, false)) == Exec(m, t, fuel, t[h], Probe(1, false))
              && RunCall(m, t, fuel + 1, lib, p, false, Probe(0, false)) == RunProcedure(m, t, fuel, lib, p, Probe(1, false))
  {
    assert m.enter(RootAt(lib, p), false, Probe(0, false)) == Probe(1, false);
  }

  /** On this machine, the code found for a use is executed as the procedure's source says. */
  ghost predicate RunsAsSource<S>(m: Machine<S>, t: Table, fuel: nat, lib: Library, u: Use, s: S)
    requires lib.units != []
  {
    IsPlace(lib, u.place) && StoredIn(lib, RootAt(lib, u.place)).Some? ==>
      Exec(m, t, fuel, StoredIn(lib, RootAt(lib, u.place)).value, s) == RunProcedure(m, t, fuel, lib, u.place, s)
  }

  lemma AlikeRunsAsSource<S(!new)>(m: Machine<S>, t: Table, fuel: nat, lib: Library, program: Syntax.ProgramAst, u: Use, s: S)
    requires NoopIsIdentity(m) && Silent(m) && GoodLibrary(lib) && lib.units != [] && TableOf(lib, t)
    requires SharedAlike(SameOps, lib, ProgramUses(lib, program)) && u in ProgramUses(lib, program)
    ensures RunsAsSource(m, t, fuel, lib, u, s)
  {
    LeastMeansSource(m, t, fuel, lib, program, u, s);
    if StoredIn(lib, RootAt(lib, u.place)).Some? {
      var found := StoredIn(lib, RootAt(lib, u.place)).value;
      assert UseAlike(SameOps, lib, u);
      OpsCannotTell(m);
      AlikeMeans(m, t, fuel, SameOps, found, CodeAt(lib, u.place), s);
      SilentRuns(m, t, fuel, found, s);
    }
  }

  /**
   Both directions: the procedures that a program calls or imports are all run as their sources say,
   on every lawful machine without effects of decorators, exactly under the condition of
   `SilentProgramRuns`.
   */
  lemma RunAsSourceExactly(t: Table, fuel: nat, lib: Library, program: Syntax.ProgramAst, root: CodeBlock)
    requires ProgramIn(lib, program, root) && TableOf(lib, t) && DeterminesGroups(lib.hash)
    requires FoundCallsReturn(t, fuel, lib, ProgramUses(lib, program))
    ensures SharedAlike(SameOps, lib, ProgramUses(lib, program)) <==>
            forall u: Use, m: Machine<Probe>, s: Probe ::
              u in ProgramUses(lib, program) && NoopIsIdentity(m) && Silent(m) ==> RunsAsSource(m, t, fuel, lib, u, s)
  {
    if SharedAlike(SameOps, lib, ProgramUses(lib, program)) {
      forall u: Use, m: Machine<Probe>, s: Probe | u in ProgramUses(lib, program) && NoopIsIdentity(m) && Silent(m)
        ensures RunsAsSource(m, t, fuel, lib, u, s)
      {
        AlikeRunsAsSource(m, t, fuel, lib, program, u, s);
      }
    } else {
      var u, m, s, caller := UnlikeIsTold(t, fuel, lib, program, root);
      assert !RunsAsSource(m, t, fuel, lib, u, s);
    }
  }

  // The program of one call

  /** The same procedures, and a body that calls one of them. */
  function OneCall(program: Syntax.ProgramAst, idx: nat): Syntax.ProgramAst {
    program.(body := [Syntax.Instr(Label(MAIN_PROC, "call", false), Syntax.CallLocal(idx))])
  }

  /** The place is that of one of the program's own procedures. */
  ghost predicate InMain(lib: Library, p: Place) {
    IsPlace(lib, p) && p.unit == |lib.units| - 1
  }

  lemma OneCallCompiled(lib: Library, program: Syntax.ProgramAst, root: CodeBlock, p: Place)
    requires ProgramIn(lib, program, root) && InMain(lib, p)
    ensures ProgramIn(lib, OneCall(program, p.idx), Call(RootAt(lib, p), false))
  {
    var k, n := KnownIn(MainContext(lib)), OneCall(program, p.idx).body[0];
    assert k.locals[p.idx] == lib.units[p.unit].locals[p.idx];
    assert Syntax.LowerNode(k, n) == Some(BodyCompiler.Inline(Call(RootAt(lib, p), false)));
    LowerOne(k, n);
    BodyCompiler.SingleInline(Call(RootAt(lib, p), false));
  }

  lemma OneCallRuns<S>(m: Machine<S>, t: Table, fuel: nat, lib: Library, program: Syntax.ProgramAst, p: Place, s: S)
    requires ValidLibrary(lib) && InMain(lib, p)
    ensures RunSource(m, t, fuel, MainContext(lib), OneCall(program, p.idx).body, s) == RunCall(m, t, fuel, lib, p, false, s)
  {
    assert Invoked(MainContext(lib), Syntax.CallLocal(p.idx)) == Some(p);
    RunOne(m, t, fuel, MainContext(lib), OneCall(program, p.idx).body[0], s);
  }

  /** The program of one call is compiled, and is not executed as its source says. */
  ghost predicate CallDiffers<S>(m: Machine<S>, t: Table, fuel: nat, lib: Library, program: Syntax.ProgramAst, p: Place, s: S)
    requires InMain(lib, p)
  {
    && ProgramIn(lib, OneCall(program, p.idx), Call(RootAt(lib, p), false))
    && Exec(m, t, fuel, Call(RootAt(lib, p), false), s) != RunSource(m, t, fuel, MainContext(lib), OneCall(program, p.idx).body, s)
  }

  /**
   As a program: if the least procedure in question is one of the program's own, then calling it is
   a program with the same procedures and table that is not executed as its source says.
   */
  lemma UnlikeProgramDiffers(t: Table, fuel: nat, lib: Library, program: Syntax.ProgramAst, root: CodeBlock)
    returns (u: Use, m: Machine<Probe>, s: Probe)
    requires ProgramIn(lib, program, root) && TableOf(lib, t) && DeterminesGroups(lib.hash)
    requires !SharedAlike(SameOps, lib, ProgramUses(lib, program)) && FoundCallsReturn(t, fuel, lib, ProgramUses(lib, program))
    ensures NoopIsIdentity(m) && Silent(m) && u in ProgramUses(lib, program) && IsPlace(lib, u.place)
    ensures InMain(lib, u.place) && RootAt(lib, u.place) in t && RootAt(lib, u.place) != DYN_HASH ==>
              CallDiffers(m, t, fuel + 1, lib, program, u.place, s)
  {
    var callee;
    u, m, callee, s := UnlikeIsTold(t, fuel, lib, program, root);
    if InMain(lib, u.place) {
      OneCallCompiled(lib, program, root, u.place);
      OneCallRuns(m, t, fuel + 1, lib, program, u.place, s);
    }
  }
}
