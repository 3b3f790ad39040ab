/**
 The meaning of MAST programs: what the executor computes for each kind of block, for an
 arbitrary deterministic instruction set.

 Fuel is spent only by loop iterations and calls, so equal fuel on two programs means equal
 nesting of loops and calls. `OutOfFuel` says nothing about the run; `FuelMonotone` shows that any
 other outcome is the outcome for every larger amount of fuel.
 */
module Execution {
  import opened Results
  import opened Mast

  datatype Error =
    | OpError(code: nat)
    | NotBinaryValue(value: Felt)
    | CodeBlockNotFound(root: Digest)
    | DynamicCodeBlockNotFound(root: Digest)
    | SyscallTargetNotInKernel(root: Digest)
    | UnexecutableCodeBlock

  /**
   The instruction set: how operations and decorators change the VM state (the clock excepted),
   what the top of the stack is, and how a call switches the execution context and back.
   */
  datatype Machine<!S> = Machine(
    step: (Operation, S) -> Result<S, nat>,
    decorate: (Decorator, S) -> Result<S, nat>,
    peek: S -> Felt,
    topWord: S -> Digest,
    enter: (Digest, bool, S) -> S,
    leave: (S, S) -> Result<S, nat>,
    kernel: set<Digest>)

  /** NOOP changes nothing but the clock. */
  ghost predicate NoopIsIdentity<S(!new)>(m: Machine<S>) {
    forall s: S :: m.step(Noop, s) == Ok(s)
  }

  datatype Outcome<+S> = Done(state: S) | Failed(error: Error) | OutOfFuel {
    predicate IsFailure() {
      !Done?
    }

    function PropagateFailure<T>(): Outcome<T>
      requires !Done?
    {
      match this
      case Failed(e) => Failed(e)
      case OutOfFuel => OutOfFuel
    }

    function Extract(): S
      requires Done?
    {
      state
    }
  }

  type Table = map<Digest, CodeBlock>

  function FromStep<S>(r: Result<S, nat>): Outcome<S> {
    match r
    case Ok(s) => Done(s)
    case Err(e) => Failed(OpError(e))
  }

  function RunItem<S>(m: Machine<S>, item: Item, s: S): Outcome<S> {
    match item
    case Op(op) => FromStep(m.step(op, s))
    case Dec(dec) => FromStep(m.decorate(dec, s))
  }

  /** Runs straight-line code up to the first failure. */
  function RunItems<S>(m: Machine<S>, items: seq<Item>, s: S): Outcome<S> {
    if items == [] then Done(s) else
      var s1 :- RunItem(m, items[0], s);
      RunItems(m, items[1..], s1)
  }

  /** Removes the condition at the top of the stack. */
  function PopTop<S>(m: Machine<S>, s: S): Outcome<S> {
    FromStep(m.step(Drop, s))
  }

  /** The root a CALL or DYN block stands for: the top word of the stack when it is dynamic. */
  function Resolve<S>(m: Machine<S>, h: Digest, s: S): Digest {
    if h == DYN_HASH then m.topWord(s) else h
  }

  function Missing<S>(m: Machine<S>, h: Digest, s: S): Error {
    if h == DYN_HASH then DynamicCodeBlockNotFound(m.topWord(s)) else CodeBlockNotFound(h)
  }

  function Exec<S>(m: Machine<S>, t: Table, fuel: nat, b: CodeBlock, s: S): Outcome<S>
    decreases fuel, b, 0
  {
    match b
    case Span(span) => RunItems(m, Linear(span.ops, 0, span.decorators), s)
    case Join(first, second) =>
      var s1 :- Exec(m, t, fuel, first, s);
      Exec(m, t, fuel, second, s1)
    case Split(onTrue, onFalse) =>
      var s1 :- PopTop(m, s);
      if m.peek(s) == ONE then Exec(m, t, fuel, onTrue, s1)
      else if m.peek(s) == ZERO then Exec(m, t, fuel, onFalse, s1)
      else Failed(NotBinaryValue(m.peek(s)))
    case Loop(body) =>
      var s1 :- PopTop(m, s);
      if m.peek(s) == ONE then
        var s2 :- Exec(m, t, fuel, body, s1);
        Iterate(m, t, fuel, body, s2)
      else if m.peek(s) == ZERO then Done(s1)
      else Failed(NotBinaryValue(m.peek(s)))
    case Call(h, isSyscall) =>
      if isSyscall && h !in m.kernel then Failed(SyscallTargetNotInKernel(h))
      else
        var s1 := m.enter(h, isSyscall, s);
        var root := Resolve(m, h, s1);
        if root !in t then Failed(Missing(m, h, s1))
        else if fuel == 0 then OutOfFuel
        else
          var s2 :- Exec(m, t, fuel - 1, t[root], s1);
          FromStep(m.leave(s, s2))
    case Dyn =>
      var root := m.topWord(s);
      if root !in t then Failed(DynamicCodeBlockNotFound(root))
      else if fuel == 0 then OutOfFuel
      else Exec(m, t, fuel - 1, t[root], s)
    case Proxy(_) => Failed(UnexecutableCodeBlock)
  }

  /** After an iteration: go on while the top of the stack is ONE, then drop the condition. */
  function Iterate<S>(m: Machine<S>, t: Table, fuel: nat, body: CodeBlock, s: S): Outcome<S>
    decreases fuel, body, 1
  {
    var s1 :- PopTop(m, s);
    if m.peek(s) != ONE then Done(s1)
    else if fuel == 0 then OutOfFuel
    else
      var s2 :- Exec(m, t, fuel - 1, body, s1);
      Iterate(m, t, fuel - 1, body, s2)
  }

  // What blocks say

  /**
   The meaning of a block: as executed, but with every decorator of its spans. Code that is called
   is looked up and executed by the executor.
   */
  function Meaning<S>(m: Machine<S>, t: Table, fuel: nat, b: CodeBlock, s: S): Outcome<S>
    decreases fuel, b, 0
  {
    match b
    case Span(span) => RunItems(m, Interleave(span.ops, 0, span.decorators), s)
    case Join(first, second) =>
      var s1 :- Meaning(m, t, fuel, first, s);
      Meaning(m, t, fuel, second, s1)
    case Split(onTrue, onFalse) =>
      var s1 :- PopTop(m, s);
      if m.peek(s) == ONE then Meaning(m, t, fuel, onTrue, s1)
      else if m.peek(s) == ZERO then Meaning(m, t, fuel, onFalse, s1)
      else Failed(NotBinaryValue(m.peek(s)))
    case Loop(body) =>
      var s1 :- PopTop(m, s);
      if m.peek(s) == ONE then
        var s2 :- Meaning(m, t, fuel, body, s1);
        MeaningAgain(m, t, fuel, body, s2)
      else if m.peek(s) == ZERO then Done(s1)
      else Failed(NotBinaryValue(m.peek(s)))
    case Call(_, _) => Exec(m, t, fuel, b, s)
    case Dyn => Exec(m, t, fuel, b, s)
    case Proxy(_) => Exec(m, t, fuel, b, s)
  }

  function MeaningAgain<S>(m: Machine<S>, t: Table, fuel: nat, body: CodeBlock, s: S): Outcome<S>
    decreases fuel, body, 1
  {
    var s1 :- PopTop(m, s);
    if m.peek(s) != ONE then Done(s1)
    else if fuel == 0 then OutOfFuel
    else
      var s2 :- Meaning(m, t, fuel - 1, body, s1);
      MeaningAgain(m, t, fuel - 1, body, s2)
  }

  /** What blocks say one after the other. */
  function MeaningSeq<S>(m: Machine<S>, t: Table, fuel: nat, bs: seq<CodeBlock>, s: S): Outcome<S> {
    if bs == [] then Done(s) else
      var s1 :- MeaningSeq(m, t, fuel, bs[..|bs| - 1], s);
      Meaning(m, t, fuel, bs[|bs| - 1], s1)
  }

  // Straight-line code

  lemma {:induction false} RunItemsConcat<S>(m: Machine<S>, xs: seq<Item>, ys: seq<Item>, s: S)
    ensures RunItems(m, xs + ys, s) ==
            match RunItems(m, xs, s) { case Done(s1) => RunItems(m, ys, s1) case o => o }
  {
    if xs == [] {
      assert xs + ys == ys;
    } else {
      assert (xs + ys)[1..] == xs[1..] + ys;
      var r := RunItem(m, xs[0], s);
      if r.Done? {
        RunItemsConcat(m, xs[1..], ys, r.state);
      }
    }
  }

  /** An operation is a step of the machine, a decorator a step of its own; their errors end the run. */
  lemma OneItem<S>(m: Machine<S>, op: Operation, dec: Decorator, s: S)
    ensures RunItems(m, [Op(op)], s) == match m.step(op, s) { case Ok(s1) => Done(s1) case Err(e) => Failed(OpError(e)) }
    ensures RunItems(m, [Dec(dec)], s) == match m.decorate(dec, s) { case Ok(s1) => Done(s1) case Err(e) => Failed(OpError(e)) }
    ensures RunItems(m, [], s) == Done(s)
  {
    assert [Op(op)][1..] == [] && [Dec(dec)][1..] == [];
  }

  lemma {:induction false} MeaningSeqSnoc<S>(m: Machine<S>, t: Table, fuel: nat, bs: seq<CodeBlock>, b: CodeBlock, s: S)
    ensures MeaningSeq(m, t, fuel, bs + [b], s) ==
            match MeaningSeq(m, t, fuel, bs, s) { case Done(s1) => Meaning(m, t, fuel, b, s1) case o => o }
  {
    assert (bs + [b])[..|bs + [b]| - 1] == bs;
  }

  lemma {:induction false} MeaningSeqConcat<S>(m: Machine<S>, t: Table, fuel: nat, xs: seq<CodeBlock>, ys: seq<CodeBlock>, s: S)
    ensures MeaningSeq(m, t, fuel, xs + ys, s) ==
            match MeaningSeq(m, t, fuel, xs, s) { case Done(s1) => MeaningSeq(m, t, fuel, ys, s1) case o => o }
  {
    if ys == [] {
      assert xs + ys == xs;
    } else {
      assert (xs + ys)[..|xs + ys| - 1] == xs + ys[..|ys| - 1];
      MeaningSeqConcat(m, t, fuel, xs, ys[..|ys| - 1], s);
    }
  }

  // Fuel

  /** Any outcome but `OutOfFuel` is the outcome for every larger amount of fuel. */
  lemma {:induction false} FuelMonotone<S>(m: Machine<S>, t: Table, fuel: nat, more: nat, b: CodeBlock, s: S)
    requires fuel <= more
    requires !Exec(m, t, fuel, b, s).OutOfFuel?
    ensures Exec(m, t, more, b, s) == Exec(m, t, fuel, b, s)
    decreases fuel, b, 0
  {
    match b
    case Join(first, second) =>
      FuelMonotone(m, t, fuel, more, first, s);
      var r := Exec(m, t, fuel, first, s);
      if r.Done? {
        FuelMonotone(m, t, fuel, more, second, r.state);
      }
    case Split(onTrue, onFalse) =>
      var r := PopTop(m, s);
      if r.Done? {
        if m.peek(s) == ONE {
          FuelMonotone(m, t, fuel, more, onTrue, r.state);
        } else if m.peek(s) == ZERO {
          FuelMonotone(m, t, fuel, more, onFalse, r.state);
        }
      }
    case Loop(body) =>
      var r := PopTop(m, s);
      if r.Done? && m.peek(s) == ONE {
        FuelMonotone(m, t, fuel, more, body, r.state);
        var r1 := Exec(m, t, fuel, body, r.state);
        if r1.Done? {
          IterateMonotone(m, t, fuel, more, body, r1.state);
        }
      }
    case Call(h, isSyscall) =>
      var s1 := m.enter(h, isSyscall, s);
      var root := Resolve(m, h, s1);
      if (isSyscall ==> h in m.kernel) && root in t && fuel > 0 {
        FuelMonotone(m, t, fuel - 1, more - 1, t[root], s1);
      }
    case Dyn =>
      if m.topWord(s) in t && fuel > 0 {
        FuelMonotone(m, t, fuel - 1, more - 1, t[m.topWord(s)], s);
      }
    case Span(_) =>
    case Proxy(_) =>
  }

  lemma {:induction false} IterateMonotone<S>(m: Machine<S>, t: Table, fuel: nat, more: nat, body: CodeBlock, s: S)
    requires fuel <= more
    requires !Iterate(m, t, fuel, body, s).OutOfFuel?
    ensures Iterate(m, t, more, body, s) == Iterate(m, t, fuel, body, s)
    decreases fuel, body, 1
  {
    var r := PopTop(m, s);
    if r.Done? && m.peek(s) == ONE && fuel > 0 {
      FuelMonotone(m, t, fuel - 1, more - 1, body, r.state);
      var r1 := Exec(m, t, fuel - 1, body, r.state);
      if r1.Done? {
        IterateMonotone(m, t, fuel - 1, more - 1, body, r1.state);
      }
    }
  }

  // Block by block

  /** A condition is dropped before a branch is taken; anything but zero and one is an error. */
  lemma ConditionDecides<S>(m: Machine<S>, t: Table, fuel: nat, a: CodeBlock, b: CodeBlock, s: S)
    requires m.step(Drop, s).Ok?
    ensures var s1 := m.step(Drop, s).value;
            && (m.peek(s) == 1 ==> Exec(m, t, fuel, Split(a, b), s) == Exec(m, t, fuel, a, s1))
            && (m.peek(s) == 0 ==> Exec(m, t, fuel, Split(a, b), s) == Exec(m, t, fuel, b, s1))
            && (m.peek(s) == 0 ==> Exec(m, t, fuel, Loop(a), s) == Done(s1))
            && (m.peek(s) > 1 ==> Exec(m, t, fuel, Split(a, b), s) == Failed(NotBinaryValue(m.peek(s))))
            && (m.peek(s) > 1 ==> Exec(m, t, fuel, Loop(a), s) == Failed(NotBinaryValue(m.peek(s))))
  {
  }

  /** A loop that is entered runs its body and is then entered again, or drops the condition and ends. */
  lemma LoopUnrolls<S>(m: Machine<S>, t: Table, fuel: nat, body: CodeBlock, s: S, s1: S, s2: S)
    requires m.step(Drop, s) == Ok(s1) && m.peek(s) == 1 && Exec(m, t, fuel, body, s1) == Done(s2)
    ensures m.peek(s2) == 1 && fuel > 0 ==> Exec(m, t, fuel, Loop(body), s) == Exec(m, t, fuel - 1, Loop(body), s2)
    ensures m.peek(s2) != 1 ==> Exec(m, t, fuel, Loop(body), s) == FromStep(m.step(Drop, s2))
  {
    assert Exec(m, t, fuel, Loop(body), s) == Iterate(m, t, fuel, body, s2);
    if m.peek(s2) == 1 && fuel > 0 {
      var r := PopTop(m, s2);
      if r.Done? {
        assert Exec(m, t, fuel - 1, Loop(body), s2) ==
               match Exec(m, t, fuel - 1, body, r.state) { case Done(s3) => Iterate(m, t, fuel - 1, body, s3) case o => o };
      }
    }
  }

  /** A call of code that the table does not have fails with the root called, dynamic or not. */
  lemma MissingCallFails<S>(m: Machine<S>, t: Table, fuel: nat, h: Digest, isSyscall: bool, s: S)
    requires isSyscall ==> h in m.kernel
    ensures var s1 := m.enter(h, isSyscall, s);
            && (h != DYN_HASH && h !in t ==> Exec(m, t, fuel, Call(h, isSyscall), s) == Failed(CodeBlockNotFound(h)))
            && (h == DYN_HASH && m.topWord(s1) !in t ==>
                Exec(m, t, fuel, Call(h, isSyscall), s) == Failed(DynamicCodeBlockNotFound(m.topWord(s1))))
    ensures m.topWord(s) !in t ==> Exec(m, t, fuel, Dyn, s) == Failed(DynamicCodeBlockNotFound(m.topWord(s)))
  {
  }

  /** A call runs the code of the table in a context of its own; a system call needs a kernel procedure. */
  lemma CallRuns<S>(m: Machine<S>, t: Table, fuel: nat, h: Digest, isSyscall: bool, s: S)
    ensures isSyscall && h !in m.kernel ==> Exec(m, t, fuel, Call(h, isSyscall), s) == Failed(SyscallTargetNotInKernel(h))
    ensures (isSyscall ==> h in m.kernel) && h != DYN_HASH && h in t && fuel > 0 ==>
              Exec(m, t, fuel, Call(h, isSyscall), s) ==
              match Exec(m, t, fuel - 1, t[h], m.enter(h, isSyscall, s)) { case Done(s2) => FromStep(m.leave(s, s2)) case o => o }
    ensures m.topWord(s) in t && fuel > 0 ==> Exec(m, t, fuel, Dyn, s) == Exec(m, t, fuel - 1, t[m.topWord(s)], s)
  {
  }

  // Code block table

  /** Every static call target of the table's code is in the table or is a phantom. */
  ghost predicate ClosedTable(t: Table, phantoms: set<Digest>) {
    forall h :: h in t ==> Targets(t[h]) <= t.Keys + phantoms
  }

  /**
   A closed table is never missed by a static call: if execution reports a missing code block,
   its root is a phantom.
   */
  lemma {:induction false} NeverMissing<S>(m: Machine<S>, t: Table, phantoms: set<Digest>, fuel: nat, b: CodeBlock, s: S)
    requires ClosedTable(t, phantoms)
    requires Targets(b) <= t.Keys + phantoms
    ensures var r := Exec(m, t, fuel, b, s); r.Failed? && r.error.CodeBlockNotFound? ==> r.error.root in phantoms
    decreases fuel, b, 0
  {
    match b
    case Span(span) =>
      ItemsNeverMissing(m, Linear(span.ops, 0, span.decorators), s);
    case Join(first, second) =>
      NeverMissing(m, t, phantoms, fuel, first, s);
      var r := Exec(m, t, fuel, first, s);
      if r.Done? {
        NeverMissing(m, t, phantoms, fuel, second, r.state);
      }
    case Split(onTrue, onFalse) =>
      var r := PopTop(m, s);
      if r.Done? {
        NeverMissing(m, t, phantoms, fuel, onTrue, r.state);
        NeverMissing(m, t, phantoms, fuel, onFalse, r.state);
      }
    case Loop(body) =>
      var r := PopTop(m, s);
      if r.Done? {
        NeverMissing(m, t, phantoms, fuel, body, r.state);
        var r1 := Exec(m, t, fuel, body, r.state);
        if r1.Done? {
          IterateNeverMissing(m, t, phantoms, fuel, body, r1.state);
        }
      }
    case Call(h, isSyscall) =>
      var s1 := m.enter(h, isSyscall, s);
      var root := Resolve(m, h, s1);
      if root in t && fuel > 0 {
        NeverMissing(m, t, phantoms, fuel - 1, t[root], s1);
      }
    case Dyn =>
      if m.topWord(s) in t && fuel > 0 {
        NeverMissing(m, t, phantoms, fuel - 1, t[m.topWord(s)], s);
      }
    case Proxy(_) =>
  }

  lemma {:induction false} IterateNeverMissing<S>(m: Machine<S>, t: Table, phantoms: set<Digest>, fuel: nat, body: CodeBlock, s: S)
    requires ClosedTable(t, phantoms)
    requires Targets(body) <= t.Keys + phantoms
    ensures var r := Iterate(m, t, fuel, body, s); r.Failed? && r.error.CodeBlockNotFound? ==> r.error.root in phantoms
    decreases fuel, body, 1
  {
    var r := PopTop(m, s);
    if r.Done? && m.peek(s) == ONE && fuel > 0 {
      NeverMissing(m, t, phantoms, fuel - 1, body, r.state);
      var r1 := Exec(m, t, fuel - 1, body, r.state);
      if r1.Done? {
        IterateNeverMissing(m, t, phantoms, fuel - 1, body, r1.state);
      }
    }
  }

  /** Straight-line code fails only with an error of one of its operations or decorators. */
  lemma {:induction false} ItemsNeverMissing<S>(m: Machine<S>, items: seq<Item>, s: S)
    ensures var r := RunItems(m, items, s); r.Done? || (r.Failed? && r.error.OpError?)
  {
    if items != [] {
      var r := RunItem(m, items[0], s);
      if r.Done? {
        ItemsNeverMissing(m, items[1..], r.state);
      }
    }
  }
}
