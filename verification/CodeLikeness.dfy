/**
 Code that is alike: the same tree with the same calls, and spans that have something in common.
 Roots tell code apart only up to likeness.
 */
module CodeLikeness {
  import opened Results
  import opened Mast
  import opened Execution
  import opened OpBatching
  import opened GroupDecoding
  import opened DecoratorErasure
  import opened ProcedureCaching

  /** The same tree with the same calls, spans being related. */
  ghost predicate Alike(same: (OpSpan, OpSpan) -> bool, b: CodeBlock, c: CodeBlock) {
    match b
    case Span(x) => c.Span? && same(x, c.span)
    case Join(first, second) => c.Join? && Alike(same, first, c.first) && Alike(same, second, c.second)
    case Split(onTrue, onFalse) => c.Split? && Alike(same, onTrue, c.onTrue) && Alike(same, onFalse, c.onFalse)
    case Loop(body) => c.Loop? && Alike(same, body, c.body)
    case Call(_, _) => c == b
    case Dyn => c == b
    case Proxy(_) => c == b
  }

  /** The same group values: all that the root of a span depends on. */
  predicate SameGroups(x: OpSpan, y: OpSpan) {
    GroupValues(x.ops) == GroupValues(y.ops)
  }

  /** The same opcodes and immediate values, up to NOOPs. */
  predicate SameViews(x: OpSpan, y: OpSpan) {
    Views(x.ops) == Views(y.ops)
  }

  /** The same operations with their arguments, up to NOOPs. */
  predicate SameOps(x: OpSpan, y: OpSpan) {
    NonNoops(x.ops) == NonNoops(y.ops)
  }

  /** The same operations and decorators in the same order, up to NOOPs. */
  predicate SameItems(x: OpSpan, y: OpSpan) {
    KeptItems(Interleave(x.ops, 0, x.decorators)) == KeptItems(Interleave(y.ops, 0, y.decorators))
  }

  function NonNoops(ops: seq<Operation>): seq<Operation> {
    if ops == [] then [] else (if ops[0].Noop? then [] else [ops[0]]) + NonNoops(ops[1..])
  }

  function KeptItems(items: seq<Item>): seq<Item> {
    if items == [] then [] else (if items[0] == Op(Noop) then [] else [items[0]]) + KeptItems(items[1..])
  }

  lemma {:induction false} AlikeImplies(same: (OpSpan, OpSpan) -> bool, like: (OpSpan, OpSpan) -> bool, b: CodeBlock, c: CodeBlock)
    requires Alike(same, b, c)
    requires forall x, y :: same(x, y) ==> like(x, y)
    ensures Alike(like, b, c)
  {
    match b
    case Join(first, second) =>
      AlikeImplies(same, like, first, c.first);
      AlikeImplies(same, like, second, c.second);
    case Split(onTrue, onFalse) =>
      AlikeImplies(same, like, onTrue, c.onTrue);
      AlikeImplies(same, like, onFalse, c.onFalse);
    case Loop(body) =>
      AlikeImplies(same, like, body, c.body);
    case _ =>
  }

  lemma GroupsImplyViews(b: CodeBlock, c: CodeBlock)
    requires Alike(SameGroups, b, c)
    ensures Alike(SameViews, b, c)
  {
    forall x, y | SameGroups(x, y)
      ensures SameViews(x, y)
    {
      SameGroupsSameViews(x.ops, y.ops);
    }
    AlikeImplies(SameGroups, SameViews, b, c);
  }

  lemma {:induction false} AlikeTargets(same: (OpSpan, OpSpan) -> bool, b: CodeBlock, c: CodeBlock)
    requires Alike(same, b, c)
    ensures Targets(b) == Targets(c) && (ProxyFree(b) <==> ProxyFree(c))
  {
    match b
    case Join(first, second) =>
      AlikeTargets(same, first, c.first);
      AlikeTargets(same, second, c.second);
    case Split(onTrue, onFalse) =>
      AlikeTargets(same, onTrue, c.onTrue);
      AlikeTargets(same, onFalse, c.onFalse);
    case Loop(body) =>
      AlikeTargets(same, body, c.body);
    case _ =>
  }

  // Roots

  /** Code without proxies that has the same root is alike: what collision resistance gives. */
  ghost predicate DeterminesGroups(hash: Hash) {
    forall b: CodeBlock, c: CodeBlock {:trigger hash(b), hash(c)} ::
      ProxyFree(b) && ProxyFree(c) && hash(b) == hash(c) ==> Alike(SameGroups, b, c)
  }

  /** Roots are computed from the tree, the calls and the group values and from nothing else. */
  ghost predicate DependsOnGroups(hash: Hash) {
    && (forall b: CodeBlock, c: CodeBlock {:trigger hash(b), hash(c)} :: Alike(SameGroups, b, c) ==> hash(b) == hash(c))
    && (forall h :: hash(Proxy(h)) == h)
    && hash(Dyn) == DYN_HASH
  }

  // Alike code means the same to machines that do not tell the spans apart

  ghost predicate SpanSame<S>(m: Machine<S>, x: OpSpan, y: OpSpan, s: S) {
    RunItems(m, Interleave(x.ops, 0, x.decorators), s) == RunItems(m, Interleave(y.ops, 0, y.decorators), s)
  }

  ghost predicate CannotTell<S(!new)>(m: Machine<S>, same: (OpSpan, OpSpan) -> bool) {
    forall x: OpSpan, y: OpSpan, s: S :: same(x, y) ==> SpanSame(m, x, y, s)
  }

  lemma {:induction false} AlikeMeans<S(!new)>(m: Machine<S>, t: Table, fuel: nat, same: (OpSpan, OpSpan) -> bool, b: CodeBlock, c: CodeBlock, s: S)
    requires CannotTell(m, same) && Alike(same, b, c)
    ensures Meaning(m, t, fuel, b, s) == Meaning(m, t, fuel, c, s)
    decreases fuel, b, 0
  {
    match b
    case Span(x) =>
      assert SpanSame(m, x, c.span, s);
    case Join(first, second) =>
      AlikeMeans(m, t, fuel, same, first, c.first, s);
      var r := Meaning(m, t, fuel, first, s);
      if r.Done? {
        AlikeMeans(m, t, fuel, same, second, c.second, r.state);
      }
    case Split(onTrue, onFalse) =>
      var r := PopTop(m, s);
      if r.Done? {
        AlikeMeans(m, t, fuel, same, onTrue, c.onTrue, r.state);
        AlikeMeans(m, t, fuel, same, onFalse, c.onFalse, r.state);
      }
    case Loop(body) =>
      var r := PopTop(m, s);
      if r.Done? {
        AlikeMeans(m, t, fuel, same, body, c.body, r.state);
        var r1 := Meaning(m, t, fuel, body, r.state);
        if r1.Done? {
          AlikeAgain(m, t, fuel, same, body, c.body, r1.state);
        }
      }
    case _ =>
  }

  lemma {:induction false} AlikeAgain<S(!new)>(m: Machine<S>, t: Table, fuel: nat, same: (OpSpan, OpSpan) -> bool, b: CodeBlock, c: CodeBlock, s: S)
    requires CannotTell(m, same) && Alike(same, b, c)
    ensures MeaningAgain(m, t, fuel, b, s) == MeaningAgain(m, t, fuel, c, s)
    decreases fuel, b, 1
  {
    var r := PopTop(m, s);
    if r.Done? && m.peek(s) == ONE && fuel > 0 {
      AlikeMeans(m, t, fuel - 1, same, b, c, r.state);
      var r1 := Meaning(m, t, fuel - 1, b, r.state);
      if r1.Done? {
        AlikeAgain(m, t, fuel - 1, same, b, c, r1.state);
      }
    }
  }

  // Which machines cannot tell what apart

  /** Steps depend only on what is encoded of an operation. */
  ghost predicate StepsByView<S(!new)>(m: Machine<S>) {
    forall x: Operation, y: Operation, s: S :: SameStep(m, x, y, s)
  }

  ghost predicate SameStep<S>(m: Machine<S>, x: Operation, y: Operation, s: S) {
    View(x) == View(y) ==> m.step(x, s) == m.step(y, s)
  }

  /** Operations one after the other, without decorators. */
  function RunPlain<S>(m: Machine<S>, ops: seq<Operation>, s: S): Outcome<S> {
    if ops == [] then Done(s) else
      var s1 :- FromStep(m.step(ops[0], s));
      RunPlain(m, ops[1..], s1)
  }

  lemma {:induction false} RunFirst<S>(m: Machine<S>, item: Item, items: seq<Item>, s: S)
    ensures RunItems(m, [item] + items, s) == match RunItem(m, item, s) { case Done(s1) => RunItems(m, items, s1) case o => o }
  {
    assert ([item] + items)[1..] == items;
  }

  /** With silent decorators a span does what its operations do. */
  lemma {:induction false} SilentIsPlain<S(!new)>(m: Machine<S>, ops: seq<Operation>, pos: nat, decs: DecoratorList, s: S)
    requires Silent(m)
    ensures RunItems(m, Interleave(ops, pos, decs), s) == RunPlain(m, ops, s)
    decreases |ops| + |decs|
  {
    if decs != [] && (ops == [] || decs[0].0 == pos) {
      SilentIsPlain(m, ops, pos, decs[1..], s);
      RunFirst(m, Dec(decs[0].1), Interleave(ops, pos, decs[1..]), s);
      assert m.decorate(decs[0].1, s) == Ok(s);
    } else if ops != [] {
      RunFirst(m, Op(ops[0]), Interleave(ops[1..], pos + 1, decs), s);
      var r := m.step(ops[0], s);
      if r.Ok? {
        SilentIsPlain(m, ops[1..], pos + 1, decs, r.value);
      }
    }
  }

  lemma {:induction false} NoopsDoNothing<S(!new)>(m: Machine<S>, ops: seq<Operation>, s: S)
    requires NoopIsIdentity(m)
    ensures RunPlain(m, ops, s) == RunPlain(m, NonNoops(ops), s)
  {
    if ops != [] {
      if ops[0].Noop? {
        NoopsDoNothing(m, ops[1..], s);
        assert NonNoops(ops) == NonNoops(ops[1..]);
      } else {
        assert NonNoops(ops)[1..] == NonNoops(ops[1..]);
        var r := m.step(ops[0], s);
        if r.Ok? {
          NoopsDoNothing(m, ops[1..], r.value);
        }
      }
    }
  }

  lemma {:induction false} ViewsOfKept(ops: seq<Operation>)
    ensures |NonNoops(ops)| == |Views(ops)|
    ensures forall i :: 0 <= i < |Views(ops)| ==> !NonNoops(ops)[i].Noop? && View(NonNoops(ops)[i]) == Views(ops)[i]
  {
    if ops != [] {
      var rest := NonNoops(ops[1..]);
      ViewsOfKept(ops[1..]);
      if ops[0].Noop? {
        assert NonNoops(ops) == rest && Views(ops) == Views(ops[1..]);
      } else {
        forall i | 0 <= i < |Views(ops)|
          ensures !NonNoops(ops)[i].Noop? && View(NonNoops(ops)[i]) == Views(ops)[i]
        {
          if i > 0 {
            assert NonNoops(ops)[i] == rest[i - 1] && Views(ops)[i] == Views(ops[1..])[i - 1];
          }
        }
      }
    }
  }

  lemma {:induction false} SameViewsRun<S(!new)>(m: Machine<S>, xs: seq<Operation>, ys: seq<Operation>, s: S)
    requires StepsByView(m) && |xs| == |ys| && forall i :: 0 <= i < |xs| ==> View(xs[i]) == View(ys[i])
    ensures RunPlain(m, xs, s) == RunPlain(m, ys, s)
  {
    if xs != [] {
      var r := m.step(xs[0], s);
      assert SameStep(m, xs[0], ys[0], s);
      if r.Ok? {
        SameViewsRun(m, xs[1..], ys[1..], r.value);
      }
    }
  }

  lemma ViewsCannotTell<S(!new)>(m: Machine<S>)
    requires NoopIsIdentity(m) && Silent(m) && StepsByView(m)
    ensures CannotTell(m, SameViews)
  {
    forall x: OpSpan, y: OpSpan, s: S | SameViews(x, y)
      ensures SpanSame(m, x, y, s)
    {
      SilentIsPlain(m, x.ops, 0, x.decorators, s);
      SilentIsPlain(m, y.ops, 0, y.decorators, s);
      NoopsDoNothing(m, x.ops, s);
      NoopsDoNothing(m, y.ops, s);
      ViewsOfKept(x.ops);
      ViewsOfKept(y.ops);
      SameViewsRun(m, NonNoops(x.ops), NonNoops(y.ops), s);
    }
  }

  lemma OpsCannotTell<S(!new)>(m: Machine<S>)
    requires NoopIsIdentity(m) && Silent(m)
    ensures CannotTell(m, SameOps)
  {
    forall x: OpSpan, y: OpSpan, s: S | SameOps(x, y)
      ensures SpanSame(m, x, y, s)
    {
      SilentIsPlain(m, x.ops, 0, x.decorators, s);
      SilentIsPlain(m, y.ops, 0, y.decorators, s);
      NoopsDoNothing(m, x.ops, s);
      NoopsDoNothing(m, y.ops, s);
    }
  }

  lemma {:induction false} KeptItemsRun<S(!new)>(m: Machine<S>, items: seq<Item>, s: S)
    requires NoopIsIdentity(m)
    ensures RunItems(m, items, s) == RunItems(m, KeptItems(items), s)
  {
    if items != [] {
      if items[0] == Op(Noop) {
        KeptItemsRun(m, items[1..], s);
        assert KeptItems(items) == KeptItems(items[1..]);
      } else {
        assert KeptItems(items)[1..] == KeptItems(items[1..]);
        var r := RunItem(m, items[0], s);
        if r.Done? {
          KeptItemsRun(m, items[1..], r.state);
        }
      }
    }
  }

  lemma ItemsCannotTell<S(!new)>(m: Machine<S>)
    requires NoopIsIdentity(m)
    ensures CannotTell(m, SameItems)
  {
    forall x: OpSpan, y: OpSpan, s: S | SameItems(x, y)
      ensures SpanSame(m, x, y, s)
    {
      KeptItemsRun(m, Interleave(x.ops, 0, x.decorators), s);
      KeptItemsRun(m, Interleave(y.ops, 0, y.decorators), s);
    }
  }
}
