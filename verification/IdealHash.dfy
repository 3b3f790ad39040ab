/**
 A hash without collisions, as an example of one that meets all that is asked of MAST roots: it is
 computed from the tree, the calls and the group values, as roots are, and tells them apart.
 */
module IdealHash {
  import opened Mast
  import opened Powers
  import opened OpBatching
  import opened ProcedureCaching
  import opened AssemblyContexts
  import opened CodeLikeness

  // Pairs of numbers as numbers

  function Pair(a: nat, b: nat): nat {
    Pow2(a) * (2 * b + 1)
  }

  lemma {:induction false} PairSplit(a: nat, b: nat)
    ensures a == 0 ==> Pair(a, b) == 2 * b + 1
    ensures a > 0 ==> Pair(a, b) == 2 * Pair(a - 1, b)
  {
    if a > 0 {
      assert Pow2(a) * (2 * b + 1) == 2 * (Pow2(a - 1) * (2 * b + 1));
    }
  }

  lemma {:induction false} PairInjective(a: nat, b: nat, c: nat, d: nat)
    requires Pair(a, b) == Pair(c, d)
    ensures a == c && b == d
  {
    PairSplit(a, b);
    PairSplit(c, d);
    if a > 0 && c > 0 {
      PairInjective(a - 1, b, c - 1, d);
    }
  }

  lemma {:induction false} PairPositive(a: nat, b: nat)
    ensures Pair(a, b) > 0
  {
    PairSplit(a, b);
    if a > 0 {
      PairPositive(a - 1, b);
    }
  }

  function OpTag(op: Operation): (nat, nat) {
    match op
    case Noop => (0, 0)
    case Drop => (1, 0)
    case FmpUpdate => (2, 0)
    case Push(imm) => (3, imm)
    case Basic(code, arg) => (4, Pair(code, arg))
  }

  function EncodeOp(op: Operation): nat {
    var (i, x) := OpTag(op); Pair(i, x)
  }

  lemma EncodeOpInjective(op: Operation, other: Operation)
    requires EncodeOp(op) == EncodeOp(other)
    ensures op == other
  {
    var (a, b) := OpTag(op);
    var (c, d) := OpTag(other);
    PairInjective(a, b, c, d);
    if op.Basic? {
      PairInjective(op.code, op.arg, other.code, other.arg);
    }
  }

  function EncodeValues(values: seq<nat>): nat {
    if values == [] then 0 else Pair(values[0], EncodeValues(values[1..]))
  }

  lemma {:induction false} EncodeValuesInjective(values: seq<nat>, others: seq<nat>)
    requires EncodeValues(values) == EncodeValues(others)
    ensures values == others
  {
    if values != [] {
      PairPositive(values[0], EncodeValues(values[1..]));
    }
    if others != [] {
      PairPositive(others[0], EncodeValues(others[1..]));
    }
    if values != [] && others != [] {
      PairInjective(values[0], EncodeValues(values[1..]), others[0], EncodeValues(others[1..]));
      EncodeValuesInjective(values[1..], others[1..]);
      assert values == [values[0]] + values[1..] && others == [others[0]] + others[1..];
    }
  }

  // Roots

  /** The root of a block; DYN has an odd number of its own. */
  function Root(b: CodeBlock): nat
    decreases b, 1
  {
    match b
    case Proxy(h) => h
    case Dyn => DYN_HASH
    case _ => var (i, x) := Tag(b); 2 * Pair(i, x)
  }

  function Tag(b: CodeBlock): (nat, nat)
    requires !b.Proxy? && !b.Dyn?
    decreases b, 0
  {
    match b
    case Span(span) => (0, EncodeValues(GroupValues(span.ops)))
    case Join(first, second) => (1, Pair(Root(first), Root(second)))
    case Split(onTrue, onFalse) => (2, Pair(Root(onTrue), Root(onFalse)))
    case Loop(body) => (3, Root(body))
    case Call(h, isSyscall) => (4, Pair(h, if isSyscall then 1 else 0))
  }

  lemma {:induction false} RootInjective(b: CodeBlock, c: CodeBlock)
    requires ProxyFree(b) && ProxyFree(c) && Root(b) == Root(c)
    ensures Alike(SameGroups, b, c)
  {
    if !b.Dyn? && !c.Dyn? {
      var (i, x) := Tag(b);
      var (j, y) := Tag(c);
      PairInjective(i, x, j, y);
      match b
      case Span(span) =>
        EncodeValuesInjective(GroupValues(span.ops), GroupValues(c.span.ops));
      case Join(first, second) =>
        PairInjective(Root(first), Root(second), Root(c.first), Root(c.second));
        RootInjective(first, c.first);
        RootInjective(second, c.second);
      case Split(onTrue, onFalse) =>
        PairInjective(Root(onTrue), Root(onFalse), Root(c.onTrue), Root(c.onFalse));
        RootInjective(onTrue, c.onTrue);
        RootInjective(onFalse, c.onFalse);
      case Loop(body) =>
        RootInjective(body, c.body);
      case Call(h, isSyscall) =>
        PairInjective(h, if isSyscall then 1 else 0, c.fnHash, if c.isSyscall then 1 else 0);
    }
  }

  lemma {:induction false} AlikeRoots(b: CodeBlock, c: CodeBlock)
    requires Alike(SameGroups, b, c)
    ensures Root(b) == Root(c)
  {
    match b
    case Join(first, second) =>
      AlikeRoots(first, c.first);
      AlikeRoots(second, c.second);
    case Split(onTrue, onFalse) =>
      AlikeRoots(onTrue, c.onTrue);
      AlikeRoots(onFalse, c.onFalse);
    case Loop(body) =>
      AlikeRoots(body, c.body);
    case _ =>
  }

  /** The calls behind a root. */
  ghost function CallsBehind(h: Digest): set<Digest> {
    if b :| ProxyFree(b) && Root(b) == h then Targets(b) else {}
  }

  lemma RootDeterminesCalls(b: CodeBlock)
    requires ProxyFree(b)
    ensures CallsBehind(Root(b)) == Targets(b)
  {
    var c: CodeBlock :| ProxyFree(c) && Root(c) == Root(b) && CallsBehind(Root(b)) == Targets(c);
    RootInjective(b, c);
    AlikeTargets(SameGroups, b, c);
  }

  lemma RootDeterminesGroups()
    ensures DeterminesGroups(Root)
  {
    forall b: CodeBlock, c: CodeBlock | ProxyFree(b) && ProxyFree(c) && Root(b) == Root(c)
      ensures Alike(SameGroups, b, c)
    {
      RootInjective(b, c);
    }
  }

  lemma RootDependsOnGroups()
    ensures DependsOnGroups(Root)
  {
    forall b: CodeBlock, c: CodeBlock | Alike(SameGroups, b, c)
      ensures Root(b) == Root(c)
    {
      AlikeRoots(b, c);
    }
  }

  /** All assumptions on roots can be met, by a hash that sees no more of the code than roots do. */
  lemma IdealHashDetermines()
    ensures Determines(Root, CallsBehind) && DeterminesGroups(Root) && DependsOnGroups(Root)
  {
    forall b: CodeBlock | ProxyFree(b)
      ensures CallsBehind(Root(b)) == Targets(b)
    {
      RootDeterminesCalls(b);
    }
    RootDeterminesGroups();
    RootDependsOnGroups();
  }
}
