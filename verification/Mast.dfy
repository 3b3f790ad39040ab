/**
 The program representation of the VM: operations, decorators and the code blocks of a
 Merkelized abstract syntax tree (MAST).
 */
module Mast {
  import opened Results

  /** The modulus of the VM's prime field. */
  const MODULUS: nat := 18446744069414584321

  type Felt = n: nat | n < MODULUS witness 0

  const ZERO: Felt := 0
  const ONE: Felt := 1

  /** Field negation. */
  function Neg(x: Felt): Felt {
    if x == 0 then 0 else MODULUS - x
  }

  /** MAST roots; hashing is a parameter wherever a root has to be computed. */
  type Digest = nat

  /** Opcodes are seven bits wide. */
  type Opcode = n: nat | n < 128 witness 0

  /** Opcodes of the operations without a name of their own below; no two operations share one. */
  type BasicCode = n: Opcode | n != 0 && n != 41 && n != 47 && n != 100 witness 1

  /**
   Operations the compiler and the executor treat specially are named; every other operation is
   `Basic`, with its opcode and an argument that is not part of the encoding (an error code, say).
   */
  datatype Operation = Noop | Drop | FmpUpdate | Push(imm: Felt) | Basic(code: BasicCode, arg: nat) {
    function OpCode(): Opcode {
      match this
      case Noop => 0
      case Drop => 41
      case FmpUpdate => 47
      case Push(_) => 100
      case Basic(code, _) => code
    }

    /** Only PUSH carries an immediate value. */
    predicate HasImm() {
      Push?
    }
  }

  /** Operations with one opcode differ in their arguments only, and just PUSH has opcode 100. */
  lemma OpcodesUnique(a: Operation, b: Operation)
    requires a.OpCode() == b.OpCode()
    ensures (a.Noop? <==> b.Noop?) && (a.Drop? <==> b.Drop?) && (a.FmpUpdate? <==> b.FmpUpdate?)
    ensures a.Push? == b.Push? == a.HasImm() == b.HasImm() == (a.OpCode() == 100)
    ensures a.Basic? && b.Basic? ==> a.code == b.code
    ensures Noop.OpCode() == 0 && Drop.OpCode() == 41 && FmpUpdate.OpCode() == 47
  {
  }

  /** What the tracking decorator of an instruction says: the procedure it is in, its text, whether to break. */
  datatype Label = Label(contextName: string, op: string, shouldBreak: bool)

  datatype Decorator = Advice(injector: nat) | AsmOp(tag: Label, cycles: nat) | Debug(options: nat)

  /** Decorators of a span, each with the index of the operation it precedes. */
  type DecoratorList = seq<(nat, Decorator)>

  /** The content of a SPAN block: straight-line operations and the decorators among them. */
  datatype OpSpan = OpSpan(ops: seq<Operation>, decorators: DecoratorList)

  datatype CodeBlock =
    | Span(span: OpSpan)
    | Join(first: CodeBlock, second: CodeBlock)
    | Split(onTrue: CodeBlock, onFalse: CodeBlock)
    | Loop(body: CodeBlock)
    | Call(fnHash: Digest, isSyscall: bool)
    | Dyn
    | Proxy(codeHash: Digest)

  /** The constant that identifies every DYN block; a CALL of it is a dynamic call. */
  const DYN_HASH: Digest := 8115106948140260551

  /** Static targets of the CALL and SYSCALL blocks in a MAST. */
  function Targets(b: CodeBlock): set<Digest> {
    match b
    case Join(first, second) => Targets(first) + Targets(second)
    case Split(onTrue, onFalse) => Targets(onTrue) + Targets(onFalse)
    case Loop(body) => Targets(body)
    case Call(h, _) => if h == DYN_HASH then {} else {h}
    case Span(_) => {}
    case Dyn => {}
    case Proxy(_) => {}
  }

  /** No span of the MAST is empty, as the span constructor demands. */
  predicate SpansNonEmpty(b: CodeBlock) {
    match b
    case Join(first, second) => SpansNonEmpty(first) && SpansNonEmpty(second)
    case Split(onTrue, onFalse) => SpansNonEmpty(onTrue) && SpansNonEmpty(onFalse)
    case Loop(body) => SpansNonEmpty(body)
    case Span(span) => span.ops != []
    case Call(_, _) => true
    case Dyn => true
    case Proxy(_) => true
  }

  /** No block only stands for the hash of another one; executing such a block fails. */
  predicate ProxyFree(b: CodeBlock) {
    match b
    case Join(first, second) => ProxyFree(first) && ProxyFree(second)
    case Split(onTrue, onFalse) => ProxyFree(onTrue) && ProxyFree(onFalse)
    case Loop(body) => ProxyFree(body)
    case Span(_) => true
    case Call(_, _) => true
    case Dyn => true
    case Proxy(_) => false
  }

  /** A straight-line step of a program: an operation or a decorator. */
  datatype Item = Op(op: Operation) | Dec(dec: Decorator)

  /** Decorators are in order, with positions from `lo` to `hi`. */
  ghost predicate Ordered(lo: nat, hi: nat, decs: DecoratorList) {
    && (forall i :: 0 <= i < |decs| ==> lo <= decs[i].0 <= hi)
    && (forall i, j :: 0 <= i < j < |decs| ==> decs[i].0 <= decs[j].0)
  }

  /** At most one decorator comes after the last of `numOps` operations. */
  predicate Tidy(numOps: nat, decs: DecoratorList) {
    |decs| < 2 || decs[|decs| - 2].0 < numOps
  }

  /** A span as its constructor demands it. */
  ghost predicate WellFormedSpan(span: OpSpan) {
    span.ops != [] && Ordered(0, |span.ops|, span.decorators)
  }

  /** A MAST of well-formed spans without proxies: what the assembler makes. */
  ghost predicate ProperBlock(b: CodeBlock) {
    match b
    case Span(span) => WellFormedSpan(span)
    case Join(first, second) => ProperBlock(first) && ProperBlock(second)
    case Split(onTrue, onFalse) => ProperBlock(onTrue) && ProperBlock(onFalse)
    case Loop(body) => ProperBlock(body)
    case Call(_, _) => true
    case Dyn => true
    case Proxy(_) => false
  }

  lemma ProperMeans(b: CodeBlock)
    requires ProperBlock(b)
    ensures SpansNonEmpty(b) && ProxyFree(b)
  {
  }

  /** Every span of the MAST is tidy. */
  predicate Lossless(b: CodeBlock) {
    match b
    case Span(span) => Tidy(|span.ops|, span.decorators)
    case Join(first, second) => Lossless(first) && Lossless(second)
    case Split(onTrue, onFalse) => Lossless(onTrue) && Lossless(onFalse)
    case Loop(body) => Lossless(body)
    case Call(_, _) => true
    case Dyn => true
    case Proxy(_) => true
  }

  /**
   What the executor runs for the operations at positions `pos..` and the decorators still to
   come: a decorator runs just before the operation at its position, and once the operations are
   exhausted at most one leftover decorator runs.
   */
  function Linear(ops: seq<Operation>, pos: nat, decs: DecoratorList): seq<Item>
    decreases |ops| + |decs|
  {
    if ops == [] then
      if decs == [] then [] else [Dec(decs[0].1)]
    else if decs != [] && decs[0].0 == pos then
      [Dec(decs[0].1)] + Linear(ops, pos, decs[1..])
    else
      [Op(ops[0])] + Linear(ops[1..], pos + 1, decs)
  }

  /** The straight-line meaning of a span: every decorator in its place, leftovers included. */
  function Interleave(ops: seq<Operation>, pos: nat, decs: DecoratorList): seq<Item>
    decreases |ops| + |decs|
  {
    if decs != [] && (ops == [] || decs[0].0 == pos) then
      [Dec(decs[0].1)] + Interleave(ops, pos, decs[1..])
    else if ops == [] then
      []
    else
      [Op(ops[0])] + Interleave(ops[1..], pos + 1, decs)
  }

  /** Moves every decorator `k` operations further on. */
  function Shift(decs: DecoratorList, k: nat): DecoratorList {
    seq(|decs|, i requires 0 <= i < |decs| => (decs[i].0 + k, decs[i].1))
  }

  // Straight-line meaning of spans

  lemma {:induction false} InterleaveLength(ops: seq<Operation>, pos: nat, decs: DecoratorList)
    requires Ordered(pos, pos + |ops|, decs)
    ensures |Interleave(ops, pos, decs)| == |ops| + |decs|
    decreases |ops| + |decs|
  {
    if decs != [] && (ops == [] || decs[0].0 == pos) {
      InterleaveLength(ops, pos, decs[1..]);
    } else if ops != [] {
      InterleaveLength(ops[1..], pos + 1, decs);
    }
  }

  /** The executor runs exactly the straight-line meaning of a span iff the span is tidy. */
  lemma {:induction false} LinearIsInterleave(ops: seq<Operation>, pos: nat, decs: DecoratorList)
    requires Ordered(pos, pos + |ops|, decs)
    ensures Linear(ops, pos, decs) <= Interleave(ops, pos, decs)
    ensures Linear(ops, pos, decs) == Interleave(ops, pos, decs) <==> Tidy(pos + |ops|, decs)
    decreases |ops| + |decs|
  {
    if ops == [] {
      InterleaveLength(ops, pos, decs);
    } else if decs != [] && decs[0].0 == pos {
      var rest := decs[1..];
      LinearIsInterleave(ops, pos, rest);
      assert |rest| >= 2 ==> rest[|rest| - 2] == decs[|decs| - 2];
      assert |decs| == 2 ==> decs[0].0 == pos;
    } else {
      LinearIsInterleave(ops[1..], pos + 1, decs);
    }
  }

  /** Moving operations and decorators together changes nothing. */
  lemma {:induction false} ShiftInvariant(ops: seq<Operation>, pos: nat, decs: DecoratorList, k: nat)
    ensures Interleave(ops, pos + k, Shift(decs, k)) == Interleave(ops, pos, decs)
    ensures Linear(ops, pos + k, Shift(decs, k)) == Linear(ops, pos, decs)
    decreases |ops| + |decs|
  {
    if decs != [] {
      assert Shift(decs, k)[1..] == Shift(decs[1..], k);
      ShiftInvariant(ops, pos, decs[1..], k);
    }
    if ops != [] {
      ShiftInvariant(ops[1..], pos + 1, decs, k);
    }
  }

  lemma DecoratorFirst(ops: seq<Operation>, pos: nat, dec: (nat, Decorator), decs: DecoratorList)
    requires ops == [] || dec.0 == pos
    ensures Interleave(ops, pos, [dec] + decs) == [Dec(dec.1)] + Interleave(ops, pos, decs)
    ensures ops != [] ==> Linear(ops, pos, [dec] + decs) == [Dec(dec.1)] + Linear(ops, pos, decs)
  {
    assert ([dec] + decs)[1..] == decs;
  }

  lemma OperationFirst(op: Operation, ops: seq<Operation>, pos: nat, decs: DecoratorList)
    requires decs == [] || decs[0].0 != pos
    ensures Interleave([op] + ops, pos, decs) == [Op(op)] + Interleave(ops, pos + 1, decs)
    ensures Linear([op] + ops, pos, decs) == [Op(op)] + Linear(ops, pos + 1, decs)
  {
    assert ([op] + ops)[1..] == ops;
  }

  /** The decorators of a first span and then those of a second one: which of them come next. */
  lemma {:induction false} FirstOfBoth(ops1: seq<Operation>, pos: nat, decs1: DecoratorList, decs2: DecoratorList)
    requires Ordered(pos, pos + |ops1|, decs1)
    requires forall i :: 0 <= i < |decs2| ==> pos + |ops1| <= decs2[i].0
    ensures decs1 != [] ==> Ordered(pos, pos + |ops1|, decs1[1..])
    ensures decs1 != [] && ops1 == [] ==> decs1[0].0 == pos
    ensures ops1 != [] && (decs1 == [] || decs1[0].0 != pos) ==>
              Ordered(pos + 1, pos + |ops1|, decs1) && (decs1 + decs2 == [] || (decs1 + decs2)[0].0 != pos)
  {
    if ops1 != [] && decs1 != [] && decs1[0].0 != pos {
      forall i | 0 <= i < |decs1| ensures pos + 1 <= decs1[i].0 {
        assert decs1[0].0 <= decs1[i].0;
      }
    }
    if decs1 + decs2 != [] {
      assert (decs1 + decs2)[0] == if decs1 == [] then decs2[0] else decs1[0];
    }
  }

  lemma HeadAndTail<T>(s: seq<T>)
    requires s != []
    ensures [s[0]] + s[1..] == s
  {
  }

  lemma NothingFirst(ops: seq<Operation>, decs: DecoratorList)
    ensures [] + ops == ops && [] + decs == decs
  {
  }

  /** Two adjacent spans in one: what the first leaves over comes before the second. */
  lemma {:induction false} InterleaveAppend(ops1: seq<Operation>, ops2: seq<Operation>, pos: nat, decs1: DecoratorList, decs2: DecoratorList)
    requires Ordered(pos, pos + |ops1|, decs1)
    requires forall i :: 0 <= i < |decs2| ==> pos + |ops1| <= decs2[i].0
    ensures Interleave(ops1 + ops2, pos, decs1 + decs2) ==
            Interleave(ops1, pos, decs1) + Interleave(ops2, pos + |ops1|, decs2)
    decreases |ops1| + |decs1|, 1
  {
    if decs1 != [] && (ops1 == [] || decs1[0].0 == pos) {
      InterleaveAppendAtDecorator(ops1, ops2, pos, decs1, decs2);
    } else if ops1 != [] {
      InterleaveAppendAtOperation(ops1, ops2, pos, decs1, decs2);
    } else {
      NothingFirst(ops2, decs2);
    }
  }

  lemma {:induction false} InterleaveAppendAtDecorator(ops1: seq<Operation>, ops2: seq<Operation>, pos: nat, decs1: DecoratorList, decs2: DecoratorList)
    requires Ordered(pos, pos + |ops1|, decs1)
    requires forall i :: 0 <= i < |decs2| ==> pos + |ops1| <= decs2[i].0
    requires decs1 != [] && (ops1 == [] || decs1[0].0 == pos)
    ensures Interleave(ops1 + ops2, pos, decs1 + decs2) ==
            Interleave(ops1, pos, decs1) + Interleave(ops2, pos + |ops1|, decs2)
    decreases |ops1| + |decs1|, 0
  {
    FirstOfBoth(ops1, pos, decs1, decs2);
    InterleaveAppendDecorator(ops1, ops2, pos, decs1[0], decs1[1..], decs2);
    HeadAndTail(decs1);
  }

  lemma {:induction false} InterleaveAppendAtOperation(ops1: seq<Operation>, ops2: seq<Operation>, pos: nat, decs1: DecoratorList, decs2: DecoratorList)
    requires Ordered(pos, pos + |ops1|, decs1)
    requires forall i :: 0 <= i < |decs2| ==> pos + |ops1| <= decs2[i].0
    requires ops1 != [] && (decs1 == [] || decs1[0].0 != pos)
    ensures Interleave(ops1 + ops2, pos, decs1 + decs2) ==
            Interleave(ops1, pos, decs1) + Interleave(ops2, pos + |ops1|, decs2)
    decreases |ops1| + |decs1|, 0
  {
    FirstOfBoth(ops1, pos, decs1, decs2);
    InterleaveAppendOperation(ops1[0], ops1[1..], ops2, pos, decs1, decs2);
    HeadAndTail(ops1);
  }

  lemma {:induction false} InterleaveAppendDecorator(
    ops1: seq<Operation>, ops2: seq<Operation>, pos: nat, d: (nat, Decorator), decs1: DecoratorList, decs2: DecoratorList)
    requires Ordered(pos, pos + |ops1|, decs1)
    requires forall i :: 0 <= i < |decs2| ==> pos + |ops1| <= decs2[i].0
    requires d.0 == pos
    ensures Interleave(ops1 + ops2, pos, ([d] + decs1) + decs2) ==
            Interleave(ops1, pos, ([d] + decs1)) + Interleave(ops2, pos + |ops1|, decs2)
    decreases |ops1| + |decs1|, 2
  {
    InterleaveAppend(ops1, ops2, pos, decs1, decs2);
    DecoratorFirst(ops1 + ops2, pos, d, decs1 + decs2);
    DecoratorFirst(ops1, pos, d, decs1);
    Associate([d], decs1, decs2);
    Associate([Dec(d.1)], Interleave(ops1, pos, decs1), Interleave(ops2, pos + |ops1|, decs2));
  }

  lemma {:induction false} InterleaveAppendOperation(
    op: Operation, ops1: seq<Operation>, ops2: seq<Operation>, pos: nat, decs1: DecoratorList, decs2: DecoratorList)
    requires Ordered(pos + 1, pos + 1 + |ops1|, decs1)
    requires forall i :: 0 <= i < |decs2| ==> pos + 1 + |ops1| <= decs2[i].0
    requires decs1 == [] || decs1[0].0 != pos
    requires decs1 + decs2 == [] || (decs1 + decs2)[0].0 != pos
    ensures Interleave(([op] + ops1) + ops2, pos, decs1 + decs2) ==
            Interleave(([op] + ops1), pos, decs1) + Interleave(ops2, pos + (1 + |ops1|), decs2)
    decreases |ops1| + |decs1|, 2
  {
    InterleaveAppend(ops1, ops2, pos + 1, decs1, decs2);
    OperationFirst(op, ops1 + ops2, pos, decs1 + decs2);
    OperationFirst(op, ops1, pos, decs1);
    Associate([op], ops1, ops2);
    Associate([Op(op)], Interleave(ops1, pos + 1, decs1), Interleave(ops2, pos + 1 + |ops1|, decs2));
  }

  /** As executed, the leftover decorators of the first span are no longer dropped. */
  lemma {:induction false} LinearAppend(ops1: seq<Operation>, ops2: seq<Operation>, pos: nat, decs1: DecoratorList, decs2: DecoratorList)
    requires Ordered(pos, pos + |ops1|, decs1)
    requires forall i :: 0 <= i < |decs2| ==> pos + |ops1| <= decs2[i].0
    requires ops2 != []
    ensures Linear(ops1 + ops2, pos, decs1 + decs2) ==
            Interleave(ops1, pos, decs1) + Linear(ops2, pos + |ops1|, decs2)
    decreases |ops1| + |decs1|, 1
  {
    if decs1 != [] && (ops1 == [] || decs1[0].0 == pos) {
      LinearAppendAtDecorator(ops1, ops2, pos, decs1, decs2);
    } else if ops1 != [] {
      LinearAppendAtOperation(ops1, ops2, pos, decs1, decs2);
    } else {
      NothingFirst(ops2, decs2);
    }
  }

  lemma {:induction false} LinearAppendAtDecorator(ops1: seq<Operation>, ops2: seq<Operation>, pos: nat, decs1: DecoratorList, decs2: DecoratorList)
    requires Ordered(pos, pos + |ops1|, decs1)
    requires forall i :: 0 <= i < |decs2| ==> pos + |ops1| <= decs2[i].0
    requires ops2 != []
    requires decs1 != [] && (ops1 == [] || decs1[0].0 == pos)
    ensures Linear(ops1 + ops2, pos, decs1 + decs2) ==
            Interleave(ops1, pos, decs1) + Linear(ops2, pos + |ops1|, decs2)
    decreases |ops1| + |decs1|, 0
  {
    FirstOfBoth(ops1, pos, decs1, decs2);
    LinearAppendDecorator(ops1, ops2, pos, decs1[0], decs1[1..], decs2);
    HeadAndTail(decs1);
  }

  lemma {:induction false} LinearAppendAtOperation(ops1: seq<Operation>, ops2: seq<Operation>, pos: nat, decs1: DecoratorList, decs2: DecoratorList)
    requires Ordered(pos, pos + |ops1|, decs1)
    requires forall i :: 0 <= i < |decs2| ==> pos + |ops1| <= decs2[i].0
    requires ops2 != []
    requires ops1 != [] && (decs1 == [] || decs1[0].0 != pos)
    ensures Linear(ops1 + ops2, pos, decs1 + decs2) ==
            Interleave(ops1, pos, decs1) + Linear(ops2, pos + |ops1|, decs2)
    decreases |ops1| + |decs1|, 0
  {
    FirstOfBoth(ops1, pos, decs1, decs2);
    LinearAppendOperation(ops1[0], ops1[1..], ops2, pos, decs1, decs2);
    HeadAndTail(ops1);
  }

  lemma {:induction false} LinearAppendDecorator(
    ops1: seq<Operation>, ops2: seq<Operation>, pos: nat, d: (nat, Decorator), decs1: DecoratorList, decs2: DecoratorList)
    requires Ordered(pos, pos + |ops1|, decs1)
    requires forall i :: 0 <= i < |decs2| ==> pos + |ops1| <= decs2[i].0
    requires ops2 != []
    requires d.0 == pos
    ensures Linear(ops1 + ops2, pos, ([d] + decs1) + decs2) ==
            Interleave(ops1, pos, ([d] + decs1)) + Linear(ops2, pos + |ops1|, decs2)
    decreases |ops1| + |decs1|, 2
  {
    LinearAppend(ops1, ops2, pos, decs1, decs2);
    DecoratorFirst(ops1 + ops2, pos, d, decs1 + decs2);
    DecoratorFirst(ops1, pos, d, decs1);
    Associate([d], decs1, decs2);
    Associate([Dec(d.1)], Interleave(ops1, pos, decs1), Linear(ops2, pos + |ops1|, decs2));
  }

  lemma {:induction false} LinearAppendOperation(
    op: Operation, ops1: seq<Operation>, ops2: seq<Operation>, pos: nat, decs1: DecoratorList, decs2: DecoratorList)
    requires Ordered(pos + 1, pos + 1 + |ops1|, decs1)
    requires forall i :: 0 <= i < |decs2| ==> pos + 1 + |ops1| <= decs2[i].0
    requires ops2 != []
    requires decs1 == [] || decs1[0].0 != pos
    requires decs1 + decs2 == [] || (decs1 + decs2)[0].0 != pos
    ensures Linear(([op] + ops1) + ops2, pos, decs1 + decs2) ==
            Interleave(([op] + ops1), pos, decs1) + Linear(ops2, pos + (1 + |ops1|), decs2)
    decreases |ops1| + |decs1|, 2
  {
    LinearAppend(ops1, ops2, pos + 1, decs1, decs2);
    OperationFirst(op, ops1 + ops2, pos, decs1 + decs2);
    OperationFirst(op, ops1, pos, decs1);
    Associate([op], ops1, ops2);
    Associate([Op(op)], Interleave(ops1, pos + 1, decs1), Linear(ops2, pos + 1 + |ops1|, decs2));
  }
}
