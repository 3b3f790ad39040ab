/**
 When execution loses decorators: the executor runs at most one decorator after the last operation
 of a span. A block is executed as it says, by every machine, exactly if its spans are tidy.
 */
module DecoratorLoss {
  import opened Results
  import opened Mast
  import opened Execution

  const NOOP_BLOCK: CodeBlock := Span(OpSpan([Noop], []))

  // Tidy spans lose nothing

  /** A proper block of tidy spans is executed as it says. */
  lemma {:induction false} LosslessRuns<S>(m: Machine<S>, t: Table, fuel: nat, b: CodeBlock, s: S)
    requires ProperBlock(b) && Lossless(b)
    ensures Exec(m, t, fuel, b, s) == Meaning(m, t, fuel, b, s)
    decreases fuel, b, 0
  {
    match b
    case Span(span) =>
      LinearIsInterleave(span.ops, 0, span.decorators);
    case Join(first, second) =>
      LosslessRuns(m, t, fuel, first, s);
      var r := Exec(m, t, fuel, first, s);
      if r.Done? {
        LosslessRuns(m, t, fuel, second, r.state);
      }
    case Split(onTrue, onFalse) =>
      var r := PopTop(m, s);
      if r.Done? {
        LosslessRuns(m, t, fuel, onTrue, r.state);
        LosslessRuns(m, t, fuel, onFalse, r.state);
      }
    case Loop(body) =>
      var r := PopTop(m, s);
      if r.Done? {
        LosslessRuns(m, t, fuel, body, r.state);
        var r1 := Exec(m, t, fuel, body, r.state);
        if r1.Done? {
          LosslessAgain(m, t, fuel, body, r1.state);
        }
      }
    case _ =>
  }

  lemma {:induction false} LosslessAgain<S>(m: Machine<S>, t: Table, fuel: nat, body: CodeBlock, s: S)
    requires ProperBlock(body) && Lossless(body)
    ensures Iterate(m, t, fuel, body, s) == MeaningAgain(m, t, fuel, body, s)
    decreases fuel, body, 1
  {
    var r := PopTop(m, s);
    if r.Done? && m.peek(s) == ONE && fuel > 0 {
      LosslessRuns(m, t, fuel - 1, body, r.state);
      var r1 := Exec(m, t, fuel - 1, body, r.state);
      if r1.Done? {
        LosslessAgain(m, t, fuel - 1, body, r1.state);
      }
    }
  }

  lemma NoopBlockMeans<S(!new)>(m: Machine<S>, t: Table, fuel: nat, s: S)
    requires NoopIsIdentity(m)
    ensures Exec(m, t, fuel, NOOP_BLOCK, s) == Meaning(m, t, fuel, NOOP_BLOCK, s) == Done(s)
  {
    assert [Noop][1..] == [];
    assert Linear([Noop], 0, []) == [Op(Noop)] + Linear([Noop][1..], 1, []) == [Op(Noop)];
    assert Interleave([Noop], 0, []) == [Op(Noop)] + Interleave([Noop][1..], 1, []) == [Op(Noop)];
    assert RunItems(m, [Op(Noop)], s) == RunItems(m, [Op(Noop)][1..], s);
  }

  // Untidy spans lose decorators on a machine that follows a script

  /** The values still to be found on the stack, ONE or not, and the decorators seen so far. */
  datatype Tape = Tape(choices: seq<bool>, seen: nat)

  /** A lawful machine that takes branches from its tape and counts the decorators it runs. */
  function Scripted(kernel: set<Digest>): Machine<Tape> {
    Machine(
      (op: Operation, s: Tape) => Ok(if op.Drop? && s.choices != [] then s.(choices := s.choices[1..]) else s),
      (dec: Decorator, s: Tape) => Ok(s.(seen := s.seen + 1)),
      (s: Tape) => if s.choices != [] && s.choices[0] then ONE else ZERO,
      (s: Tape) => 0,
      (h: Digest, isSyscall: bool, s: Tape) => s,
      (parent: Tape, s: Tape) => Ok(s),
      kernel)
  }

  lemma ScriptedLawful(kernel: set<Digest>)
    ensures NoopIsIdentity(Scripted(kernel))
  {
  }

  /** Every hash that is called, dynamic calls included. */
  function Hashes(b: CodeBlock): set<Digest> {
    match b
    case Join(first, second) => Hashes(first) + Hashes(second)
    case Split(onTrue, onFalse) => Hashes(onTrue) + Hashes(onFalse)
    case Loop(body) => Hashes(body)
    case Call(h, _) => {h}
    case Span(_) => {}
    case Dyn => {}
    case Proxy(_) => {}
  }

  /** Whatever the block calls is there and does nothing. */
  predicate Serves(t: Table, kernel: set<Digest>, b: CodeBlock) {
    Hashes(b) <= kernel && Hashes(b) + {0} <= t.Keys && forall h :: h in t ==> t[h] == NOOP_BLOCK
  }

  function ServingTable(b: CodeBlock): (t: Table)
    ensures Serves(t, Hashes(b), b)
  {
    map h | h in Hashes(b) + {0} :: NOOP_BLOCK
  }

  /** Values that the operations drop, none of them ONE. */
  function Drops(ops: seq<Operation>): seq<bool> {
    if ops == [] then [] else (if ops[0].Drop? then [false] else []) + Drops(ops[1..])
  }

  /** A script that leads through the whole block, by way of an untidy span if there is one. */
  function Script(b: CodeBlock): seq<bool> {
    match b
    case Span(span) => Drops(span.ops)
    case Join(first, second) => Script(first) + Script(second)
    case Split(onTrue, onFalse) => if !Lossless(onTrue) then [true] + Script(onTrue) else [false] + Script(onFalse)
    case Loop(body) => [true] + Script(body) + [false]
    case Call(_, _) => []
    case Dyn => []
    case Proxy(_) => []
  }

  function DecCount(items: seq<Item>): nat {
    if items == [] then 0 else (if items[0].Dec? then 1 else 0) + DecCount(items[1..])
  }

  /** Decorators that the script leads to; as executed or as written. */
  function Seen(b: CodeBlock, written: bool): nat {
    match b
    case Span(span) => DecCount(if written then Interleave(span.ops, 0, span.decorators) else Linear(span.ops, 0, span.decorators))
    case Join(first, second) => Seen(first, written) + Seen(second, written)
    case Split(onTrue, onFalse) => if !Lossless(onTrue) then Seen(onTrue, written) else Seen(onFalse, written)
    case Loop(body) => Seen(body, written)
    case Call(_, _) => 0
    case Dyn => 0
    case Proxy(_) => 0
  }

  function DropsOf(items: seq<Item>): seq<bool> {
    if items == [] then [] else (if items[0].Op? && items[0].op.Drop? then [false] else []) + DropsOf(items[1..])
  }

  lemma {:induction false} ItemsFollowScript(kernel: set<Digest>, items: seq<Item>, rest: seq<bool>, n: nat)
    ensures RunItems(Scripted(kernel), items, Tape(DropsOf(items) + rest, n)) == Done(Tape(rest, n + DecCount(items)))
  {
    if items == [] {
      assert DropsOf(items) + rest == rest;
    } else {
      var s := Tape(DropsOf(items) + rest, n);
      var tail := DropsOf(items[1..]) + rest;
      if items[0].Op? && items[0].op.Drop? {
        assert s.choices == [false] + tail;
        assert s.choices[1..] == tail;
      } else {
        assert s.choices == tail;
      }
      ItemsFollowScript(kernel, items[1..], rest, if items[0].Dec? then n + 1 else n);
    }
  }

  lemma {:induction false} DropsOfCons(item: Item, items: seq<Item>)
    ensures DropsOf([item] + items) == (if item.Op? && item.op.Drop? then [false] else []) + DropsOf(items)
  {
    assert ([item] + items)[1..] == items;
  }

  lemma {:induction false} DropsOfSpan(ops: seq<Operation>, pos: nat, decs: DecoratorList)
    ensures DropsOf(Linear(ops, pos, decs)) == Drops(ops) && DropsOf(Interleave(ops, pos, decs)) == Drops(ops)
    decreases |ops| + |decs|
  {
    if decs != [] {
      DropsOfSpan(ops, pos, decs[1..]);
      DropsOfCons(Dec(decs[0].1), Linear(ops, pos, decs[1..]));
      DropsOfCons(Dec(decs[0].1), Interleave(ops, pos, decs[1..]));
    }
    if ops == [] {
      if decs != [] {
        assert Linear(ops, pos, decs) == [Dec(decs[0].1)] + [];
        DropsOfCons(Dec(decs[0].1), []);
      }
    } else {
      DropsOfSpan(ops[1..], pos + 1, decs);
      DropsOfCons(Op(ops[0]), Linear(ops[1..], pos + 1, decs));
      DropsOfCons(Op(ops[0]), Interleave(ops[1..], pos + 1, decs));
    }
  }

  /** The choices lead through the block; only the number of decorators seen depends on the reading. */
  predicate Leads(t: Table, kernel: set<Digest>, fuel: nat, b: CodeBlock, choices: seq<bool>, n: nat, rest: seq<bool>) {
    var m, s := Scripted(kernel), Tape(choices, n);
    && Exec(m, t, fuel, b, s) == Done(Tape(rest, n + Seen(b, false)))
    && Meaning(m, t, fuel, b, s) == Done(Tape(rest, n + Seen(b, true)))
  }

  lemma {:induction false} ScriptLeads(t: Table, kernel: set<Digest>, fuel: nat, b: CodeBlock, rest: seq<bool>, n: nat)
    requires ProxyFree(b) && Serves(t, kernel, b) && fuel > 0
    ensures Leads(t, kernel, fuel, b, Script(b) + rest, n, rest)
  {
    var choices := Script(b) + rest;
    match b
    case Span(span) =>
      SpanLeads(t, kernel, fuel, span, rest, n);
    case Join(first, second) =>
      var middle := Script(second) + rest;
      ScriptOfJoin(first, second, rest);
      ScriptLeads(t, kernel, fuel, first, middle, n);
      ScriptLeads(t, kernel, fuel, second, rest, n + Seen(first, false));
      ScriptLeads(t, kernel, fuel, second, rest, n + Seen(first, true));
      JoinLeads(t, kernel, fuel, first, second, choices, n, middle, rest);
    case Split(onTrue, onFalse) =>
      var next := if !Lossless(onTrue) then onTrue else onFalse;
      ScriptOfSplit(onTrue, onFalse, rest);
      ScriptLeads(t, kernel, fuel, next, rest, n);
      SplitLeads(t, kernel, fuel, onTrue, onFalse, choices, n, rest);
    case Loop(body) =>
      ScriptOfLoop(body, rest);
      ScriptLeads(t, kernel, fuel, body, [false] + rest, n);
      LoopLeads(t, kernel, fuel, body, choices, n, rest);
    case Call(_, _) =>
      assert choices == rest;
      CallsServed(t, kernel, fuel, b, Tape(rest, n));
    case Dyn =>
      assert choices == rest;
      CallsServed(t, kernel, fuel, b, Tape(rest, n));
  }

  lemma ScriptOfJoin(first: CodeBlock, second: CodeBlock, rest: seq<bool>)
    ensures Script(Join(first, second)) + rest == Script(first) + (Script(second) + rest)
  {
  }

  lemma ScriptOfSplit(onTrue: CodeBlock, onFalse: CodeBlock, rest: seq<bool>)
    ensures var choices, next := Script(Split(onTrue, onFalse)) + rest, if !Lossless(onTrue) then onTrue else onFalse;
            choices != [] && choices[0] == !Lossless(onTrue) && choices[1..] == Script(next) + rest
  {
  }

  lemma ScriptOfLoop(body: CodeBlock, rest: seq<bool>)
    ensures var choices := Script(Loop(body)) + rest;
            choices != [] && choices[0] && choices[1..] == Script(body) + ([false] + rest)
  {
  }

  lemma SpanLeads(t: Table, kernel: set<Digest>, fuel: nat, span: OpSpan, rest: seq<bool>, n: nat)
    ensures Leads(t, kernel, fuel, Span(span), Script(Span(span)) + rest, n, rest)
  {
    DropsOfSpan(span.ops, 0, span.decorators);
    ItemsFollowScript(kernel, Linear(span.ops, 0, span.decorators), rest, n);
    ItemsFollowScript(kernel, Interleave(span.ops, 0, span.decorators), rest, n);
  }

  lemma JoinLeads(t: Table, kernel: set<Digest>, fuel: nat, first: CodeBlock, second: CodeBlock, choices: seq<bool>, n: nat, middle: seq<bool>, rest: seq<bool>)
    requires Leads(t, kernel, fuel, first, choices, n, middle)
    requires Leads(t, kernel, fuel, second, middle, n + Seen(first, false), rest)
    requires Leads(t, kernel, fuel, second, middle, n + Seen(first, true), rest)
    ensures Leads(t, kernel, fuel, Join(first, second), choices, n, rest)
  {
  }

  lemma SplitLeads(t: Table, kernel: set<Digest>, fuel: nat, onTrue: CodeBlock, onFalse: CodeBlock, choices: seq<bool>, n: nat, rest: seq<bool>)
    requires choices != [] && choices[0] == !Lossless(onTrue)
    requires Leads(t, kernel, fuel, if !Lossless(onTrue) then onTrue else onFalse, choices[1..], n, rest)
    ensures Leads(t, kernel, fuel, Split(onTrue, onFalse), choices, n, rest)
  {
    assert PopTop(Scripted(kernel), Tape(choices, n)) == Done(Tape(choices[1..], n));
  }

  lemma LoopLeads(t: Table, kernel: set<Digest>, fuel: nat, body: CodeBlock, choices: seq<bool>, n: nat, rest: seq<bool>)
    requires choices != [] && choices[0]
    requires Leads(t, kernel, fuel, body, choices[1..], n, [false] + rest)
    ensures Leads(t, kernel, fuel, Loop(body), choices, n, rest)
  {
    assert PopTop(Scripted(kernel), Tape(choices, n)) == Done(Tape(choices[1..], n));
    LeavesLoop(t, kernel, fuel, body, rest, n + Seen(body, false));
    LeavesLoop(t, kernel, fuel, body, rest, n + Seen(body, true));
  }

  lemma LeavesLoop(t: Table, kernel: set<Digest>, fuel: nat, body: CodeBlock, rest: seq<bool>, n: nat)
    ensures Iterate(Scripted(kernel), t, fuel, body, Tape([false] + rest, n)) == Done(Tape(rest, n))
    ensures MeaningAgain(Scripted(kernel), t, fuel, body, Tape([false] + rest, n)) == Done(Tape(rest, n))
  {
    assert ([false] + rest)[1..] == rest;
  }

  lemma CallsServed(t: Table, kernel: set<Digest>, fuel: nat, b: CodeBlock, s: Tape)
    requires Serves(t, kernel, b) && fuel > 0 && (b.Call? || b.Dyn?)
    ensures Exec(Scripted(kernel), t, fuel, b, s) == Done(s)
  {
    ScriptedLawful(kernel);
    NoopBlockMeans(Scripted(kernel), t, fuel - 1, s);
  }

  lemma {:induction false} SpanSeen(span: OpSpan)
    requires WellFormedSpan(span)
    ensures Seen(Span(span), false) <= Seen(Span(span), true)
    ensures Seen(Span(span), false) == Seen(Span(span), true) <==> Lossless(Span(span))
  {
    var executed, written := Linear(span.ops, 0, span.decorators), Interleave(span.ops, 0, span.decorators);
    LinearIsInterleave(span.ops, 0, span.decorators);
    SpanKeepsOps(span.ops, 0, span.decorators);
    if |executed| == |written| {
      assert executed == written;
    }
  }

  lemma {:induction false} SpanKeepsOps(ops: seq<Operation>, pos: nat, decs: DecoratorList)
    ensures |Linear(ops, pos, decs)| == |ops| + DecCount(Linear(ops, pos, decs))
    ensures |Interleave(ops, pos, decs)| == |ops| + DecCount(Interleave(ops, pos, decs))
    decreases |ops| + |decs|
  {
    if decs != [] {
      SpanKeepsOps(ops, pos, decs[1..]);
    }
    if ops != [] {
      SpanKeepsOps(ops[1..], pos + 1, decs);
    }
  }

  /** On the way of the script decorators are lost exactly if some span is untidy. */
  lemma {:induction false} SeenMeans(b: CodeBlock)
    requires ProperBlock(b)
    ensures Seen(b, false) <= Seen(b, true)
    ensures Seen(b, false) == Seen(b, true) <==> Lossless(b)
  {
    match b
    case Span(span) => SpanSeen(span);
    case Join(first, second) =>
      SeenMeans(first);
      SeenMeans(second);
    case Split(onTrue, onFalse) =>
      SeenMeans(onTrue);
      SeenMeans(onFalse);
    case Loop(body) => SeenMeans(body);
    case _ =>
  }

  /**
   The condition is exact: a proper block with an untidy span is executed differently from what it
   says by a lawful machine from some state.
   */
  lemma LossyDiffers(b: CodeBlock, n: nat)
    requires ProperBlock(b) && !Lossless(b)
    ensures var m, s := Scripted(Hashes(b)), Tape(Script(b), n);
            NoopIsIdentity(m) && Exec(m, ServingTable(b), 1, b, s) != Meaning(m, ServingTable(b), 1, b, s)
  {
    ProperMeans(b);
    SeenMeans(b);
    ScriptLeads(ServingTable(b), Hashes(b), 1, b, [], n);
    assert Script(b) + [] == Script(b);
    ScriptedLawful(Hashes(b));
  }
}
