/** The executor: MAST blocks run on a process whose decoder keeps count of operation groups. */
module Processor {
  import opened Results
  import opened Mast
  import opened Execution
  import opened OpBatching

  // Operations with decorators, without leftovers

  /** Runs operations and the decorators before them; returns the decorators not reached. */
  function RunOps<S>(m: Machine<S>, ops: seq<Operation>, pos: nat, decs: DecoratorList, s: S): Outcome<(S, DecoratorList)>
    decreases |ops| + |decs|
  {
    if ops == [] then Done((s, decs))
    else if decs != [] && decs[0].0 == pos then
      var s1 :- FromStep(m.decorate(decs[0].1, s));
      RunOps(m, ops, pos, decs[1..], s1)
    else
      var s1 :- FromStep(m.step(ops[0], s));
      RunOps(m, ops[1..], pos + 1, decs, s1)
  }

  /** The operations still to come lead from here to the outcome. */
  ghost predicate ComesTo<S>(m: Machine<S>, ops: seq<Operation>, pos: nat, decs: DecoratorList, s: S, whole: Outcome<(S, DecoratorList)>)
    decreases |ops| + |decs|
  {
    if ops == [] then whole == Done((s, decs))
    else if decs != [] && decs[0].0 == pos then
      match m.decorate(decs[0].1, s)
      case Ok(s1) => ComesTo(m, ops, pos, decs[1..], s1, whole)
      case Err(e) => whole == Failed(OpError(e))
    else
      match m.step(ops[0], s)
      case Ok(s1) => ComesTo(m, ops[1..], pos + 1, decs, s1, whole)
      case Err(e) => whole == Failed(OpError(e))
  }

  lemma {:induction false} ComesToMeans<S>(m: Machine<S>, ops: seq<Operation>, pos: nat, decs: DecoratorList, s: S, whole: Outcome<(S, DecoratorList)>)
    ensures ComesTo(m, ops, pos, decs, s, whole) <==> RunOps(m, ops, pos, decs, s) == whole
    decreases |ops| + |decs|
  {
    if ops != [] {
      if decs != [] && decs[0].0 == pos {
        var r := m.decorate(decs[0].1, s);
        if r.Ok? {
          ComesToMeans(m, ops, pos, decs[1..], r.value, whole);
        }
      } else {
        var r := m.step(ops[0], s);
        if r.Ok? {
          ComesToMeans(m, ops[1..], pos + 1, decs, r.value, whole);
        }
      }
    }
  }

  /** One operation further what is to come is the same, or the operation has failed. */
  ghost predicate OneFurther<S>(m: Machine<S>, ops: seq<Operation>, later: seq<Operation>, pos: nat, decs: DecoratorList, s: S,
                                rest: DecoratorList, s1: S, r: Outcome<()>) {
    if r.Done? then RunOps(m, ops, pos, decs, s) == RunOps(m, later, pos + 1, rest, s1)
    else r.Failed? && RunOps(m, ops, pos, decs, s) == Failed(r.error)
  }

  /** After the decorators before it, the operation has been executed. */
  lemma OperationFurther<S>(m: Machine<S>, ops: seq<Operation>, i: nat, pos: nat, decs: DecoratorList, s: S, rest: DecoratorList, s1: S, s2: S, r: Outcome<()>)
    requires i < |ops| && (rest == [] || rest[0].0 != pos)
    requires RunOps(m, ops[i..], pos, decs, s) == RunOps(m, ops[i..], pos, rest, s1)
    requires Reports(FromStep(m.step(ops[i], s1)), r, s2)
    ensures OneFurther(m, ops[i..], ops[i + 1..], pos, decs, s, rest, s2, r)
  {
    RunOpsStep(m, ops, i, pos, rest, s1);
  }

  lemma OneMoreComesTo<S>(m: Machine<S>, ops: seq<Operation>, later: seq<Operation>, pos: nat, next: nat, decs: DecoratorList, s: S,
                          rest: DecoratorList, s1: S, r: Outcome<()>, whole: Outcome<(S, DecoratorList)>)
    requires ComesTo(m, ops, pos, decs, s, whole) && OneFurther(m, ops, later, pos, decs, s, rest, s1, r) && next == pos + 1
    ensures if r.Done? then ComesTo(m, later, next, rest, s1, whole) else whole == Failed(r.error)
  {
    ComesToMeans(m, ops, pos, decs, s, whole);
    ComesToMeans(m, later, next, rest, s1, whole);
  }

  lemma {:induction false} RunOpsIsLinear<S>(m: Machine<S>, ops: seq<Operation>, pos: nat, decs: DecoratorList, s: S)
    ensures RunItems(m, Linear(ops, pos, decs), s) ==
            match RunOps(m, ops, pos, decs, s) {
              case Done((s1, rest)) => if rest == [] then Done(s1) else FromStep(m.decorate(rest[0].1, s1))
              case Failed(e) => Failed(e)
              case OutOfFuel => OutOfFuel
            }
    decreases |ops| + |decs|
  {
    var items := Linear(ops, pos, decs);
    if ops == [] {
      if decs != [] {
        assert items[1..] == [];
      }
    } else if decs != [] && decs[0].0 == pos {
      assert items[1..] == Linear(ops, pos, decs[1..]);
      var r := m.decorate(decs[0].1, s);
      if r.Ok? {
        RunOpsIsLinear(m, ops, pos, decs[1..], r.value);
      }
    } else {
      assert items[1..] == Linear(ops[1..], pos + 1, decs);
      var r := m.step(ops[0], s);
      if r.Ok? {
        RunOpsIsLinear(m, ops[1..], pos + 1, decs, r.value);
      }
    }
  }

  lemma {:induction false} RunOpsConcat<S>(m: Machine<S>, xs: seq<Operation>, ys: seq<Operation>, pos: nat, decs: DecoratorList, s: S)
    requires ys != []
    ensures RunOps(m, xs + ys, pos, decs, s) ==
            match RunOps(m, xs, pos, decs, s) {
              case Done((s1, rest)) => RunOps(m, ys, pos + |xs|, rest, s1)
              case Failed(e) => Failed(e)
              case OutOfFuel => OutOfFuel
            }
    decreases |xs| + |decs|
  {
    if xs == [] {
      assert xs + ys == ys;
    } else if decs != [] && decs[0].0 == pos {
      var r := m.decorate(decs[0].1, s);
      if r.Ok? {
        RunOpsConcat(m, xs, ys, pos, decs[1..], r.value);
      }
    } else {
      assert (xs + ys)[1..] == xs[1..] + ys;
      var r := m.step(xs[0], s);
      if r.Ok? {
        RunOpsConcat(m, xs[1..], ys, pos + 1, decs, r.value);
      }
    }
  }

  lemma {:induction false} RunOpsStep<S>(m: Machine<S>, ops: seq<Operation>, i: nat, pos: nat, decs: DecoratorList, s: S)
    requires i < |ops| && (decs == [] || decs[0].0 != pos)
    ensures RunOps(m, ops[i..], pos, decs, s) ==
            match m.step(ops[i], s) {
              case Ok(s1) => RunOps(m, ops[i + 1..], pos + 1, decs, s1)
              case Err(e) => Failed(OpError(e))
            }
  {
    assert ops[i..][1..] == ops[i + 1..];
  }

  // The decoder's view of a batch

  /** A row of the decoder: an operation, its index in its group, and whether it is padding. */
  datatype UserOp = UserOp(op: Operation, opIdx: nat, padding: bool)

  /** The operations of a row list that are not padding. */
  function Kept(rows: seq<UserOp>): seq<Operation> {
    if rows == [] then [] else
      var last := rows[|rows| - 1];
      Kept(rows[..|rows| - 1]) + (if last.padding then [] else [last.op])
  }

  /** The rows say `before` and then the operations. */
  ghost predicate Executed(rows: seq<UserOp>, before: seq<Operation>, ops: seq<Operation>) {
    Kept(rows) == before + ops
  }

  lemma ExecutedStep(rows: seq<UserOp>, rows': seq<UserOp>, before: seq<Operation>, ops: seq<Operation>, i: nat)
    requires i < |ops| && Executed(rows, before, ops[..i]) && Kept(rows') == Kept(rows) + [ops[i]]
    ensures Executed(rows', before, ops[..i + 1])
  {
    assert ops[..i + 1] == ops[..i] + [ops[i]];
  }

  /** Padding rows are NOOPs and every row is at one of the nine positions of its group. */
  predicate ProperRows(rows: seq<UserOp>) {
    forall i :: 0 <= i < |rows| ==> rows[i].opIdx < GROUP_SIZE && (rows[i].padding ==> rows[i].op == Noop)
  }

  lemma KeptSnoc(rows: seq<UserOp>, row: UserOp)
    ensures Kept(rows + [row]) == Kept(rows) + (if row.padding then [] else [row.op])
  {
    assert (rows + [row])[..|rows|] == rows;
  }

  /** Where the executor is in a batch: operation `j` of group `k`, or the end of the batch. */
  ghost predicate At(gs: seq<seq<Operation>>, k: nat, j: nat, i: nat, opIdx: nat, groupIdx: nat, next: nat) {
    && k <= |gs|
    && (if k < |gs| then j < |gs[k]| else j == 0)
    && i == |Flat(gs[..k])| + j
    && opIdx == j
    && groupIdx == |Slots(gs[..k])|
    && next == groupIdx + 1 + (if k < |gs| then |Imms(gs[k][..j])| else 0)
  }

  lemma {:induction false} PrefixSlots(gs: seq<seq<Operation>>, k: nat)
    requires k <= |gs|
    ensures Slots(gs[..k]) <= Slots(gs)
    ensures Counts(gs[..k]) <= Counts(gs)
    ensures Flat(gs[..k]) <= Flat(gs)
    decreases |gs|
  {
    if k == |gs| {
      assert gs[..k] == gs;
    } else {
      PrefixSlots(gs[..|gs| - 1], k);
      assert gs[..|gs| - 1][..k] == gs[..k];
    }
  }

  /** The slots of group `k`. */
  lemma {:induction false} SlotsOfGroup(gs: seq<seq<Operation>>, k: nat)
    requires k < |gs|
    ensures var g, at := gs[k], |Slots(gs[..k])|;
            && at < |Slots(gs)| && Slots(gs)[at] == Encode(g) && Counts(gs)[at] == |g|
            && |Slots(gs[..k + 1])| == at + 1 + |Imms(g)| <= |Slots(gs)|
  {
    PrefixSlots(gs, k + 1);
    assert gs[..k + 1] == gs[..k] + [gs[k]];
    SlotsSnoc(gs[..k], gs[k]);
    assert Slots(gs)[|Slots(gs[..k])|] == Slots(gs[..k + 1])[|Slots(gs[..k])|];
    assert Counts(gs)[|Slots(gs[..k])|] == Counts(gs[..k + 1])[|Slots(gs[..k])|];
  }

  /** The operations of group `k`. */
  lemma {:induction false} OpsOfGroup(gs: seq<seq<Operation>>, k: nat)
    requires k < |gs|
    ensures var g, n := gs[k], |Flat(gs[..k])|;
            && |Flat(gs[..k + 1])| == n + |g| <= |Flat(gs)|
            && (forall j :: 0 <= j < |g| ==> Flat(gs)[n + j] == g[j])
  {
    PrefixSlots(gs, k + 1);
    assert gs[..k + 1] == gs[..k] + [gs[k]];
    SlotsSnoc(gs[..k], gs[k]);
    InnerPart(Flat(gs), Flat(gs[..k]), gs[k]);
  }

  lemma InnerPart<T>(whole: seq<T>, a: seq<T>, b: seq<T>)
    requires a + b <= whole
    ensures forall j :: 0 <= j < |b| ==> whole[|a| + j] == b[j]
  {
    forall j | 0 <= j < |b|
      ensures whole[|a| + j] == b[j]
    {
      assert (a + b)[|a| + j] == whole[|a| + j];
    }
  }

  /** What the batch holds at group `k`. */
  lemma {:induction false} GroupAt(b: OpBatch, gs: seq<seq<Operation>>, k: nat)
    requires MadeOf(b, gs) && k < |gs|
    ensures var g, at := gs[k], |Slots(gs[..k])|;
            && at < BATCH_SIZE && |b.groups| == |b.opCounts| == BATCH_SIZE
            && b.groups[at] == Encode(g) && b.opCounts[at] == |g|
            && |Slots(gs[..k + 1])| == at + 1 + |Imms(g)| <= b.numGroups
            && |Flat(gs[..k + 1])| == |Flat(gs[..k])| + |g| <= |b.ops|
            && (forall j :: 0 <= j < |g| ==> b.ops[|Flat(gs[..k])| + j] == g[j])
  {
    SlotsOfGroup(gs, k);
    OpsOfGroup(gs, k);
  }

  /** What operation `j` of group `k` is. */
  lemma {:induction false} OperationAt(b: OpBatch, gs: seq<seq<Operation>>, k: nat, j: nat, i: nat, opIdx: nat, groupIdx: nat, next: nat)
    requires MadeOf(b, gs) && k < |gs|
    requires At(gs, k, j, i, opIdx, groupIdx, next)
    ensures groupIdx < BATCH_SIZE && |b.groups| == |b.opCounts| == BATCH_SIZE
    ensures i < |b.ops| && b.ops[i] == gs[k][j] && b.opCounts[groupIdx] == |gs[k]|
    ensures Encode(gs[k][j..]) == b.ops[i].OpCode() + 128 * Encode(gs[k][j + 1..])
    ensures b.ops[i].HasImm() && j == |gs[k]| - 1 ==> opIdx < GROUP_SIZE - 1
  {
    GroupAt(b, gs, k);
    var g := gs[k];
    assert ValidGroup(g);
    assert g[j..][1..] == g[j + 1..];
  }

  /** Where the executor is after operation `j` of group `k`. */
  lemma {:induction false} MoveOn(b: OpBatch, gs: seq<seq<Operation>>, k: nat, j: nat, i: nat, opIdx: nat, groupIdx: nat, next: nat)
    requires MadeOf(b, gs) && k < |gs|
    requires At(gs, k, j, i, opIdx, groupIdx, next)
    ensures var next' := if gs[k][j].HasImm() then next + 1 else next;
            && next' <= b.numGroups
            && if j == |gs[k]| - 1 then At(gs, k + 1, 0, i + 1, 0, next', next' + 1)
               else At(gs, k, j + 1, i + 1, opIdx + 1, groupIdx, next')
  {
    GroupAt(b, gs, k);
    var g := gs[k];
    assert g[..j + 1] == g[..j] + [g[j]];
    ImmsSnoc(g[..j], g[j]);
    ImmsPrefix(g, j + 1);
    if j == |g| - 1 {
      assert g[..j + 1] == g;
      if k + 1 < |gs| {
        assert ValidGroup(gs[k + 1]);
        assert gs[k + 1][..0] == [];
      }
    }
  }

  /** The groups that follow the last one are empty. */
  lemma {:induction false} BatchEnd(b: OpBatch, gs: seq<seq<Operation>>)
    requires MadeOf(b, gs)
    ensures |b.groups| == BATCH_SIZE && forall g :: b.numGroups <= g < BATCH_SIZE ==> b.groups[g] == 0
    ensures |Slots(gs[..|gs|])| == b.numGroups && |Flat(gs[..|gs|])| == |b.ops|
    ensures b.numGroups <= NextPowerOfTwo(b.numGroups) <= BATCH_SIZE
  {
    assert gs[..|gs|] == gs;
    NextPowerOfTwoIsUpper(b.numGroups);
    assert NextPowerOfTwo(1) == 1 && NextPowerOfTwo(2) == 2 && NextPowerOfTwo(3) == 4 && NextPowerOfTwo(4) == 4;
    assert NextPowerOfTwo(5) == 8 && NextPowerOfTwo(6) == 8 && NextPowerOfTwo(7) == 8 && NextPowerOfTwo(8) == 8;
  }

  lemma {:induction false} ImmsPrefix(g: seq<Operation>, j: nat)
    requires j <= |g|
    ensures |Imms(g[..j])| <= |Imms(g)|
  {
    if j == |g| {
      assert g[..j] == g;
    } else {
      ImmsPrefix(g[..|g| - 1], j);
      assert g[..|g| - 1][..j] == g[..j];
    }
  }

  lemma {:induction false} NextPowerOfTwoIsUpper(n: nat)
    ensures n <= NextPowerOfTwo(n)
  {
    if n > 1 {
      NextPowerOfTwoIsUpper((n + 1) / 2);
    }
  }

  function Min(x: nat, y: nat): nat {
    if x < y then x else y
  }

  /** The slot where the next group starts holds its encoding, or nothing after the last one. */
  lemma {:induction false} NextGroupValue(b: OpBatch, gs: seq<seq<Operation>>, k: nat)
    requires MadeOf(b, gs) && k <= |gs|
    ensures var at := |Slots(gs[..k])|;
            at <= b.numGroups && (k < |gs| ==> at < b.numGroups) && (at < BATCH_SIZE ==> at < |b.groups| && b.groups[at] == if k < |gs| then Encode(gs[k][0..]) else 0)
  {
    BatchEnd(b, gs);
    if k < |gs| {
      GroupAt(b, gs, k);
      assert gs[k][0..] == gs[k];
    }
  }

  lemma LastInGroup(g: seq<Operation>, j: nat)
    requires |g| == j + 1
    ensures g[j + 1..] == [] && Encode(g[j + 1..]) == 0
  {
  }

  lemma {:induction false} BatchFits(b: OpBatch, gs: seq<seq<Operation>>)
    requires MadeOf(b, gs)
    ensures |b.groups| == BATCH_SIZE && b.numGroups <= NextPowerOfTwo(b.numGroups) <= BATCH_SIZE
  {
    BatchEnd(b, gs);
  }

  lemma {:induction false} BatchStart(b: OpBatch, gs: seq<seq<Operation>>)
    requires MadeOf(b, gs)
    ensures At(gs, 0, 0, 0, 0, 0, 1) && b.groups[0] == Encode(gs[0][0..])
  {
    assert gs[..0] == [];
    assert ValidGroup(gs[0]);
    assert gs[0][..0] == [];
    NextGroupValue(b, gs, 0);
  }

  lemma {:induction false} NotAtEnd(b: OpBatch, gs: seq<seq<Operation>>, k: nat, j: nat, i: nat, opIdx: nat, groupIdx: nat, next: nat)
    requires MadeOf(b, gs) && At(gs, k, j, i, opIdx, groupIdx, next) && i < |b.ops|
    ensures k < |gs|
  {
    BatchEnd(b, gs);
  }

  lemma {:induction false} AtEnd(b: OpBatch, gs: seq<seq<Operation>>, k: nat, j: nat, opIdx: nat, groupIdx: nat, next: nat)
    requires MadeOf(b, gs) && At(gs, k, j, |b.ops|, opIdx, groupIdx, next)
    ensures k == |gs| && groupIdx == b.numGroups && next == groupIdx + 1
  {
    BatchEnd(b, gs);
    if k < |gs| {
      OperationAt(b, gs, k, j, |b.ops|, opIdx, groupIdx, next);
      assert false;
    }
  }

  /** The executor's indexes into a batch: of the operation in its group, of the group, and of the next group or immediate value. */
  datatype Cursor = Cursor(opIdx: nat, groupIdx: nat, next: nat)

  /** Before operation `i` of a batch: where the executor is, what it has done, and what is still to come. */
  ghost predicate Midway<S>(
    m: Machine<S>, b: OpBatch, gs: seq<seq<Operation>>, spot: (nat, nat), i: nat, at: Cursor, numBatchGroups: nat, opOffset: nat, decs: DecoratorList,
    before: seq<Operation>, whole: Outcome<(S, DecoratorList)>, groupOps: nat, rows: seq<UserOp>, s: S)
  {
    forall asked: nat :: Asked(asked) ==>
      && i <= |b.ops| && MadeOf(b, gs) && At(gs, spot.0, spot.1, i, at.opIdx, at.groupIdx, at.next)
      && numBatchGroups == NextPowerOfTwo(b.numGroups) >= 1
      && groupOps == (if spot.0 < |gs| then Encode(gs[spot.0][spot.1..]) else 0)
      && ProperRows(rows) && Executed(rows, before, b.ops[..i])
      && ComesTo(m, b.ops[i..], opOffset + i, decs, s, whole)
  }

  lemma MidwayMeans<S>(
    m: Machine<S>, b: OpBatch, gs: seq<seq<Operation>>, spot: (nat, nat), i: nat, at: Cursor, numBatchGroups: nat, opOffset: nat, decs: DecoratorList,
    before: seq<Operation>, whole: Outcome<(S, DecoratorList)>, groupOps: nat, rows: seq<UserOp>, s: S)
    requires Midway(m, b, gs, spot, i, at, numBatchGroups, opOffset, decs, before, whole, groupOps, rows, s)
    ensures i <= |b.ops| && MadeOf(b, gs) && At(gs, spot.0, spot.1, i, at.opIdx, at.groupIdx, at.next)
    ensures numBatchGroups == NextPowerOfTwo(b.numGroups) >= 1
    ensures groupOps == (if spot.0 < |gs| then Encode(gs[spot.0][spot.1..]) else 0)
    ensures ProperRows(rows) && Executed(rows, before, b.ops[..i])
    ensures ComesTo(m, b.ops[i..], opOffset + i, decs, s, whole)
  {
    assert Asked(0);
  }

  lemma StillMidway<S>(
    m: Machine<S>, b: OpBatch, gs: seq<seq<Operation>>, spot: (nat, nat), i: nat, at: Cursor, numBatchGroups: nat, opOffset: nat, decs: DecoratorList,
    before: seq<Operation>, whole: Outcome<(S, DecoratorList)>, groupOps: nat, rows: seq<UserOp>, s: S)
    requires i <= |b.ops| && MadeOf(b, gs) && At(gs, spot.0, spot.1, i, at.opIdx, at.groupIdx, at.next)
    requires numBatchGroups == NextPowerOfTwo(b.numGroups) >= 1
    requires groupOps == (if spot.0 < |gs| then Encode(gs[spot.0][spot.1..]) else 0)
    requires ProperRows(rows) && Executed(rows, before, b.ops[..i])
    requires ComesTo(m, b.ops[i..], opOffset + i, decs, s, whole)
    ensures Midway(m, b, gs, spot, i, at, numBatchGroups, opOffset, decs, before, whole, groupOps, rows, s)
  {
  }

  lemma NextMidway<S>(
    m: Machine<S>, b: OpBatch, gs: seq<seq<Operation>>, spot: (nat, nat), i: nat, at: Cursor, numBatchGroups: nat, opOffset: nat, decs: DecoratorList,
    before: seq<Operation>, whole: Outcome<(S, DecoratorList)>, groupOps: nat, rows: seq<UserOp>, s: S,
    r: Outcome<()>, spot': (nat, nat), at': Cursor, rest: DecoratorList, groupOps': nat, rows': seq<UserOp>, s': S)
    requires i < |b.ops| && Midway(m, b, gs, spot, i, at, numBatchGroups, opOffset, decs, before, whole, groupOps, rows, s)
    requires OneFurther(m, b.ops[i..], b.ops[i + 1..], opOffset + i, decs, s, rest, s', r)
    requires r.Done? ==> At(gs, spot'.0, spot'.1, i + 1, at'.opIdx, at'.groupIdx, at'.next)
    requires r.Done? ==> groupOps' == if spot'.0 < |gs| then Encode(gs[spot'.0][spot'.1..]) else 0
    requires r.Done? ==> Executed(rows', before, b.ops[..i + 1])
    requires ProperRows(rows')
    ensures if r.Done? then Midway(m, b, gs, spot', i + 1, at', numBatchGroups, opOffset, rest, before, whole, groupOps', rows', s')
            else r.Failed? && whole == Failed(r.error)
  {
    assert Asked(0);
    OneMoreComesTo(m, b.ops[i..], b.ops[i + 1..], opOffset + i, opOffset + (i + 1), decs, s, rest, s', r, whole);
  }

  // Batches of a span

  /** Group slots taken by batches: eight each, the last one rounded up to a power of two. */
  function GroupCount(batches: seq<OpBatch>): int
    requires batches != []
  {
    (|batches| - 1) * BATCH_SIZE + NextPowerOfTwo(batches[|batches| - 1].numGroups)
  }

  lemma {:induction false} BatchNonEmpty(b: OpBatch)
    requires WellFormed(b)
    ensures b.ops != [] && |b.groups| == BATCH_SIZE
  {
    var gs :| MadeOf(b, gs);
    GroupAt(b, gs, 0);
    assert ValidGroup(gs[0]);
  }

  lemma {:induction false} BatchesPrefix(batches: seq<OpBatch>, i: nat)
    requires i < |batches|
    ensures BatchesOps(batches[..i + 1]) == BatchesOps(batches[..i]) + batches[i].ops
  {
    assert batches[..i + 1] == batches[..i] + [batches[i]];
    BatchesSnoc(batches[..i], batches[i]);
  }

  /** Operations of the first batches are a prefix of all operations. */
  lemma {:induction false} BatchesSuffix(batches: seq<OpBatch>, i: nat) returns (rest: seq<Operation>)
    requires i <= |batches|
    ensures BatchesOps(batches) == BatchesOps(batches[..i]) + rest
    decreases |batches| - i
  {
    if i == |batches| {
      assert batches[..i] == batches;
      rest := [];
    } else {
      BatchesPrefix(batches, i);
      var more := BatchesSuffix(batches, i + 1);
      rest := batches[i].ops + more;
    }
  }

  /** A failure in the first batches is a failure of the span. */
  lemma {:induction false} PrefixFails<S>(m: Machine<S>, batches: seq<OpBatch>, i: nat, decs: DecoratorList, s: S)
    requires i <= |batches|
    requires RunOps(m, BatchesOps(batches[..i]), 0, decs, s).Failed?
    ensures RunOps(m, BatchesOps(batches), 0, decs, s) == RunOps(m, BatchesOps(batches[..i]), 0, decs, s)
  {
    var rest := BatchesSuffix(batches, i);
    if rest == [] {
      assert BatchesOps(batches[..i]) + rest == BatchesOps(batches[..i]);
    } else {
      RunOpsConcat(m, BatchesOps(batches[..i]), rest, 0, decs, s);
    }
  }

  /** A step's outcome on the process: the new state, or the error. */
  ghost predicate Reports<S, T>(spec: Outcome<S>, r: Outcome<T>, state: S) {
    match spec
    case Done(s) => r.Done? && state == s
    case Failed(e) => r == Failed(e)
    case OutOfFuel => r == OutOfFuel
  }

  class Process<S(!new)> {
    const m: Machine<S>
    var state: S
    /** Decoder: groups of the current span still to be decoded. */
    var groupsLeft: int
    /** Decoder: opcodes of the current group still to be executed. */
    var groupOps: nat
    /** Decoder: user operations executed so far. */
    var rows: seq<UserOp>

    constructor (m: Machine<S>, s: S)
      ensures this.m == m && state == s && rows == []
    {
      this.m := m;
      state := s;
      groupsLeft, groupOps, rows := 0, 0, [];
    }

    method ExecuteOp(op: Operation) returns (r: Outcome<()>)
      modifies this`state
      ensures Reports(FromStep(m.step(op, old(state))), r, state)
    {
      match m.step(op, state)
      case Ok(s) =>
        state := s;
        r := Done(());
      case Err(e) =>
        r := Failed(OpError(e));
    }

    method ExecuteDecorator(dec: Decorator) returns (r: Outcome<()>)
      modifies this`state
      ensures Reports(FromStep(m.decorate(dec, old(state))), r, state)
    {
      match m.decorate(dec, state)
      case Ok(s) =>
        state := s;
        r := Done(());
      case Err(e) =>
        r := Failed(OpError(e));
    }

    /** Decodes a user operation: takes its opcode off the group and counts its immediate. */
    method DecodeUserOp(op: Operation, opIdx: nat, padding: bool)
      requires groupOps >= op.OpCode()
      modifies this`groupOps, this`groupsLeft, this`rows
      ensures groupOps == (old(groupOps) - op.OpCode()) / 128
      ensures groupsLeft == if op.HasImm() then old(groupsLeft) - 1 else old(groupsLeft)
      ensures rows == old(rows) + [UserOp(op, opIdx, padding)]
    {
      groupOps := (groupOps - op.OpCode()) / 128;
      rows := rows + [UserOp(op, opIdx, padding)];
      if op.HasImm() {
        groupsLeft := groupsLeft - 1;
      }
    }

    /** Starts decoding a group; every operation of the group before has been executed. */
    method StartOpGroup(group: nat)
      requires groupOps == 0
      modifies this`groupOps, this`groupsLeft
      ensures groupOps == group && groupsLeft == old(groupsLeft) - 1
    {
      groupOps := group;
      groupsLeft := groupsLeft - 1;
    }

    /** Runs the decorators at the current position. */
    method RunDecoratorsAt(ghost ops: seq<Operation>, pos: nat, decs: DecoratorList) returns (r: Outcome<()>, rest: DecoratorList)
      requires ops != []
      modifies this`state
      ensures r.Done? ==> (rest == [] || rest[0].0 != pos) && |rest| <= |decs|
      ensures r.Done? ==> RunOps(m, ops, pos, decs, old(state)) == RunOps(m, ops, pos, rest, state)
      ensures !r.Done? ==> r.Failed? && RunOps(m, ops, pos, decs, old(state)) == Failed(r.error)
    {
      rest := decs;
      while rest != [] && rest[0].0 == pos
        invariant |rest| <= |decs|
        invariant RunOps(m, ops, pos, decs, old(state)) == RunOps(m, ops, pos, rest, state)
        decreases |rest|
      {
        r := ExecuteDecorator(rest[0].1);
        if !r.Done? {
          return;
        }
        rest := rest[1..];
      }
      r := Done(());
    }

    /** Executes the last operation of a group: pads it if it carries an immediate, then moves on. */
    method EndGroup(b: OpBatch, op: Operation, opIdx: nat, next: nat, numBatchGroups: nat) returns (r: Outcome<()>)
      requires NoopIsIdentity(m)
      requires groupOps == 0
      requires numBatchGroups <= BATCH_SIZE == |b.groups|
      requires op.HasImm() ==> opIdx < GROUP_SIZE - 1
      requires ProperRows(rows)
      modifies this
      ensures r.Done? && state == old(state)
      ensures groupOps == if next < numBatchGroups then b.groups[next] else 0
      ensures groupsLeft == if next < numBatchGroups then old(groupsLeft) - 1 else old(groupsLeft)
      ensures Kept(rows) == Kept(old(rows)) && ProperRows(rows)
    {
      r := Done(());
      if op.HasImm() {
        KeptSnoc(rows, UserOp(Noop, opIdx + 1, true));
        DecodeUserOp(Noop, opIdx + 1, true);
        r := ExecuteOp(Noop);
      }
      if next < numBatchGroups {
        StartOpGroup(b.groups[next]);
      }
    }

    /** Decodes and executes an operation of a batch. */
    method ExecuteUserOp(op: Operation, opIdx: nat) returns (r: Outcome<()>)
      requires groupOps >= op.OpCode() && opIdx < GROUP_SIZE
      requires ProperRows(rows)
      modifies this
      ensures Reports(FromStep(m.step(op, old(state))), r, state)
      ensures groupOps == (old(groupOps) - op.OpCode()) / 128
      ensures groupsLeft == if op.HasImm() then old(groupsLeft) - 1 else old(groupsLeft)
      ensures Kept(rows) == Kept(old(rows)) + [op] && ProperRows(rows)
    {
      KeptSnoc(rows, UserOp(op, opIdx, false));
      DecodeUserOp(op, opIdx, false);
      r := ExecuteOp(op);
    }

    /** Executes one operation of a batch and moves the counters on. */
    method StepBatch(b: OpBatch, ghost gs: seq<seq<Operation>>, ghost k: nat, ghost j: nat, i: nat, opIdx: nat, groupIdx: nat, next: nat, numBatchGroups: nat)
      returns (r: Outcome<()>, opIdx': nat, groupIdx': nat, next': nat, ghost k': nat, ghost j': nat)
      requires NoopIsIdentity(m)
      requires MadeOf(b, gs) && k < |gs| && At(gs, k, j, i, opIdx, groupIdx, next)
      requires numBatchGroups == NextPowerOfTwo(b.numGroups)
      requires groupOps == Encode(gs[k][j..])
      requires ProperRows(rows)
      modifies this
      ensures i < |b.ops| && Reports(FromStep(m.step(b.ops[i], old(state))), r, state)
      ensures r.Done? ==> At(gs, k', j', i + 1, opIdx', groupIdx', next')
      ensures r.Done? ==> groupOps == if k' < |gs| then Encode(gs[k'][j'..]) else 0
      ensures r.Done? ==> groupsLeft - old(groupsLeft) == Min(next, numBatchGroups) - Min(next', numBatchGroups)
      ensures r.Done? ==> Kept(rows) == Kept(old(rows)) + [b.ops[i]]
      ensures ProperRows(rows)
    {
      OperationAt(b, gs, k, j, i, opIdx, groupIdx, next);
      MoveOn(b, gs, k, j, i, opIdx, groupIdx, next);
      BatchFits(b, gs);
      var op := b.ops[i];
      k', j', opIdx', groupIdx', next' := k, j + 1, opIdx + 1, groupIdx, next;
      r := ExecuteUserOp(op, opIdx);
      if !r.Done? {
        return;
      }
      if op.HasImm() {
        next' := next' + 1;
      }
      if opIdx == b.opCounts[groupIdx] - 1 {
        LastInGroup(gs[k], j);
        NextGroupValue(b, gs, k + 1);
        var padded := EndGroup(b, op, opIdx, next', numBatchGroups);
        k', j', opIdx', groupIdx', next' := k + 1, 0, 0, next', next' + 1;
      }
    }

    /**
     Executes a batch. Decoded groups and immediates together take exactly as many group slots as
     the batch has, rounded up to a power of two; the padding leaves the state alone, and the rows
     that are not padding are the operations of the batch.
     */
    method ExecuteOpBatch(b: OpBatch, decs: DecoratorList, opOffset: nat) returns (r: Outcome<()>, rest: DecoratorList)
      requires NoopIsIdentity(m)
      requires WellFormed(b)
      requires groupOps == b.groups[0]
      requires ProperRows(rows)
      modifies this
      ensures match RunOps(m, b.ops, opOffset, decs, old(state))
              case Done((s, ds)) => r.Done? && state == s && rest == ds
              case Failed(e) => r == Failed(e)
              case OutOfFuel => false
      ensures r.Done? ==> groupsLeft == old(groupsLeft) - (NextPowerOfTwo(b.numGroups) - 1) && groupOps == 0
      ensures r.Done? ==> Executed(rows, Kept(old(rows)), b.ops)
      ensures ProperRows(rows)
    {
      ghost var gs :| MadeOf(b, gs);
      BatchStart(b, gs);
      BatchFits(b, gs);
      var numBatchGroups := NextPowerOfTwo(b.numGroups);
      var groupIdx;
      assert b.ops[0..] == b.ops;
      ComesToMeans(m, b.ops, opOffset, decs, state, RunOps(m, b.ops, opOffset, decs, state));
      r, rest, groupIdx := ExecuteOps(b, gs, decs, opOffset, numBatchGroups, RunOps(m, b.ops, opOffset, decs, state));
      if r.Done? {
        var padded := PadBatch(groupIdx, numBatchGroups);
      }
    }

    /** Before operation `i` of a batch. */
    ghost predicate Before(b: OpBatch, gs: seq<seq<Operation>>, spot: (nat, nat), i: nat, at: Cursor, numBatchGroups: nat, opOffset: nat,
                           decs: DecoratorList, before: seq<Operation>, whole: Outcome<(S, DecoratorList)>)
      reads this
    {
      Midway(m, b, gs, spot, i, at, numBatchGroups, opOffset, decs, before, whole, groupOps, rows, state)
    }

    /** One round of the loop over the operations of a batch. */
    method AdvanceBatch(b: OpBatch, ghost gs: seq<seq<Operation>>, ghost spot: (nat, nat), i: nat, at: Cursor, numBatchGroups: nat, opOffset: nat,
                        decs: DecoratorList, ghost before: seq<Operation>, ghost whole: Outcome<(S, DecoratorList)>)
      returns (r: Outcome<()>, rest: DecoratorList, at': Cursor, ghost spot': (nat, nat))
      requires NoopIsIdentity(m)
      requires i < |b.ops| && Before(b, gs, spot, i, at, numBatchGroups, opOffset, decs, before, whole)
      modifies this
      ensures r.Done? ==> Before(b, gs, spot', i + 1, at', numBatchGroups, opOffset, rest, before, whole)
      ensures r.Done? ==> groupsLeft - old(groupsLeft) == Min(at.next, numBatchGroups) - Min(at'.next, numBatchGroups)
      ensures !r.Done? ==> r.Failed? && whole == Failed(r.error)
      ensures ProperRows(rows)
    {
      ghost var was, code, s := rows, groupOps, state;
      r, rest, at', spot' := AdvanceOne(b, gs, spot, i, at, numBatchGroups, opOffset, decs, before, whole);
      NextMidway(m, b, gs, spot, i, at, numBatchGroups, opOffset, decs, before, whole, code, was, s, r, spot', at', rest, groupOps, rows, state);
    }

    /** Executes the decorators before operation `i` of a batch and the operation itself. */
    method AdvanceOne(b: OpBatch, ghost gs: seq<seq<Operation>>, ghost spot: (nat, nat), i: nat, at: Cursor, numBatchGroups: nat, opOffset: nat,
                      decs: DecoratorList, ghost before: seq<Operation>, ghost whole: Outcome<(S, DecoratorList)>)
      returns (r: Outcome<()>, rest: DecoratorList, at': Cursor, ghost spot': (nat, nat))
      requires NoopIsIdentity(m)
      requires i < |b.ops| && Before(b, gs, spot, i, at, numBatchGroups, opOffset, decs, before, whole)
      modifies this
      ensures OneFurther(m, b.ops[i..], b.ops[i + 1..], opOffset + i, decs, old(state), rest, state, r)
      ensures r.Done? ==> At(gs, spot'.0, spot'.1, i + 1, at'.opIdx, at'.groupIdx, at'.next)
      ensures r.Done? ==> groupOps == if spot'.0 < |gs| then Encode(gs[spot'.0][spot'.1..]) else 0
      ensures r.Done? ==> groupsLeft - old(groupsLeft) == Min(at.next, numBatchGroups) - Min(at'.next, numBatchGroups)
      ensures r.Done? ==> Executed(rows, before, b.ops[..i + 1])
      ensures ProperRows(rows)
    {
      MidwayMeans(m, b, gs, spot, i, at, numBatchGroups, opOffset, decs, before, whole, groupOps, rows, state);
      NotAtEnd(b, gs, spot.0, spot.1, i, at.opIdx, at.groupIdx, at.next);
      at', spot' := at, spot;
      r, rest := RunDecoratorsAt(b.ops[i..], opOffset + i, decs);
      if !r.Done? {
        return;
      }
      ghost var k, j, s := 0, 0, state;
      var opIdx, groupIdx, next;
      r, opIdx, groupIdx, next, k, j := StepBatch(b, gs, spot.0, spot.1, i, at.opIdx, at.groupIdx, at.next, numBatchGroups);
      at', spot' := Cursor(opIdx, groupIdx, next), (k, j);
      OperationFurther(m, b.ops, i, opOffset + i, decs, old(state), rest, s, state, r);
      if r.Done? {
        ExecutedStep(old(rows), rows, before, b.ops, i);
      }
    }

    /** Executes the operations of a batch; ends at the first group slot not in use. */
    method ExecuteOps(b: OpBatch, ghost gs: seq<seq<Operation>>, decs: DecoratorList, opOffset: nat, numBatchGroups: nat,
                      ghost whole: Outcome<(S, DecoratorList)>)
      returns (r: Outcome<()>, rest: DecoratorList, groupIdx: nat)
      requires NoopIsIdentity(m)
      requires MadeOf(b, gs) && At(gs, 0, 0, 0, 0, 0, 1) && groupOps == Encode(gs[0][0..])
      requires numBatchGroups == NextPowerOfTwo(b.numGroups) >= 1
      requires ProperRows(rows) && ComesTo(m, b.ops[0..], opOffset, decs, state, whole)
      modifies this
      ensures match whole
              case Done((s, ds)) => r.Done? && state == s && rest == ds
              case Failed(e) => r == Failed(e)
              case OutOfFuel => false
      ensures r.Done? ==> groupIdx == b.numGroups && groupOps == 0
      ensures r.Done? ==> groupsLeft == old(groupsLeft) + 1 - Min(b.numGroups + 1, numBatchGroups)
      ensures r.Done? ==> Executed(rows, Kept(old(rows)), b.ops)
      ensures ProperRows(rows)
    {
      ghost var before, spot := Kept(rows), (0, 0);
      var at := Cursor(0, 0, 1);
      StillMidway(m, b, gs, spot, 0, at, numBatchGroups, opOffset, decs, before, whole, groupOps, rows, state);
      r, rest, at, spot := AdvanceAll(b, gs, spot, at, decs, opOffset, numBatchGroups, before, whole);
      groupIdx := at.groupIdx;
      if r.Done? {
        MidwayMeans(m, b, gs, spot, |b.ops|, at, numBatchGroups, opOffset, rest, before, whole, groupOps, rows, state);
        AtEnd(b, gs, spot.0, spot.1, at.opIdx, at.groupIdx, at.next);
        assert b.ops[|b.ops|..] == [] && b.ops[..|b.ops|] == b.ops;
      }
    }

    /** The loop over the operations of a batch. */
    method AdvanceAll(b: OpBatch, ghost gs: seq<seq<Operation>>, ghost start: (nat, nat), first: Cursor, decs: DecoratorList, opOffset: nat,
                      numBatchGroups: nat, ghost before: seq<Operation>, ghost whole: Outcome<(S, DecoratorList)>)
      returns (r: Outcome<()>, rest: DecoratorList, at: Cursor, ghost spot: (nat, nat))
      requires NoopIsIdentity(m)
      requires Before(b, gs, start, 0, first, numBatchGroups, opOffset, decs, before, whole) && ProperRows(rows)
      modifies this
      ensures r.Done? ==> Before(b, gs, spot, |b.ops|, at, numBatchGroups, opOffset, rest, before, whole)
      ensures r.Done? ==> groupsLeft - old(groupsLeft) == Min(first.next, numBatchGroups) - Min(at.next, numBatchGroups)
      ensures !r.Done? ==> r.Failed? && whole == Failed(r.error)
      ensures ProperRows(rows)
    {
      r, rest, at, spot := Done(()), decs, first, start;
      for i := 0 to |b.ops|
        invariant r.Done? && ProperRows(rows)
        invariant groupsLeft - old(groupsLeft) == Min(first.next, numBatchGroups) - Min(at.next, numBatchGroups)
        invariant Before(b, gs, spot, i, at, numBatchGroups, opOffset, rest, before, whole)
      {
        r, rest, at, spot := AdvanceBatch(b, gs, spot, i, at, numBatchGroups, opOffset, rest, before, whole);
        if !r.Done? {
          return;
        }
      }
    }

    /** Executes one NOOP for each group missing up to a power of two. */
    method PadBatch(start: nat, numBatchGroups: nat) returns (r: Outcome<()>)
      requires NoopIsIdentity(m)
      requires start <= numBatchGroups && groupOps == 0
      requires ProperRows(rows)
      modifies this
      ensures r.Done? && state == old(state) && groupOps == 0
      ensures groupsLeft == if start < numBatchGroups then old(groupsLeft) - (numBatchGroups - 1 - start) else old(groupsLeft)
      ensures Kept(rows) == Kept(old(rows)) && ProperRows(rows)
    {
      r := Done(());
      for groupIdx := start to numBatchGroups
        invariant state == old(state) && groupOps == 0 && r.Done?
        invariant groupsLeft == old(groupsLeft) - (if groupIdx < numBatchGroups then groupIdx - start else if start < numBatchGroups then numBatchGroups - 1 - start else 0)
        invariant Kept(rows) == Kept(old(rows)) && ProperRows(rows)
      {
        KeptSnoc(rows, UserOp(Noop, 0, true));
        DecodeUserOp(Noop, 0, true);
        r := ExecuteOp(Noop);
        if groupIdx < numBatchGroups - 1 {
          StartOpGroup(0);
        }
      }
    }

    /** Starts a batch of a span: its first group is decoded with the SPAN or RESPAN operation. */
    method StartBatch(b: OpBatch) returns (r: Outcome<()>)
      requires NoopIsIdentity(m)
      requires |b.groups| == BATCH_SIZE
      modifies this
      ensures r.Done? && state == old(state) && rows == old(rows)
      ensures groupsLeft == old(groupsLeft) - 1 && groupOps == b.groups[0]
    {
      groupsLeft := groupsLeft - 1;
      groupOps := b.groups[0];
      r := ExecuteOp(Noop);
    }

    /** Executes batch `i` of a span after the batches before it. */
    method ExecuteNextBatch(batches: seq<OpBatch>, i: nat, opOffset: nat, decs: DecoratorList, ghost allDecs: DecoratorList, ghost s0: S, ghost before: seq<Operation>)
      returns (r: Outcome<()>, rest: DecoratorList)
      requires NoopIsIdentity(m)
      requires i < |batches| && WellFormed(batches[i])
      requires opOffset == |BatchesOps(batches[..i])|
      requires RunOps(m, BatchesOps(batches[..i]), 0, allDecs, s0) == Done((state, decs))
      requires ProperRows(rows) && Executed(rows, before, BatchesOps(batches[..i]))
      modifies this
      ensures r.Done? ==> RunOps(m, BatchesOps(batches[..i + 1]), 0, allDecs, s0) == Done((state, rest))
      ensures !r.Done? ==> r.Failed? && RunOps(m, BatchesOps(batches[..i + 1]), 0, allDecs, s0) == Failed(r.error)
      ensures r.Done? ==> groupsLeft == old(groupsLeft) - NextPowerOfTwo(batches[i].numGroups) && groupOps == 0
      ensures r.Done? ==> Executed(rows, before, BatchesOps(batches[..i + 1]))
      ensures ProperRows(rows)
    {
      var b := batches[i];
      BatchNonEmpty(b);
      BatchesPrefix(batches, i);
      RunOpsConcat(m, BatchesOps(batches[..i]), b.ops, 0, allDecs, s0);
      r := StartBatch(b);
      r, rest := ExecuteOpBatch(b, decs, opOffset);
    }

    /**
     Executes a span. It does what its operations and decorators say, and when it ends every group
     has been decoded: the decoder's group counter is zero.
     */
    method ExecuteSpanBlock(span: OpSpan) returns (r: Outcome<()>)
      requires NoopIsIdentity(m)
      requires span.ops != []
      requires ProperRows(rows)
      modifies this
      ensures Reports(RunItems(m, Linear(span.ops, 0, span.decorators), old(state)), r, state)
      ensures r.Done? ==> groupsLeft == 0 && groupOps == 0
      ensures r.Done? ==> Executed(rows, Kept(old(rows)), span.ops)
      ensures ProperRows(rows)
    {
      var batches := BatchOps(span.ops);
      r := ExecuteBatched(span, batches);
    }

    method ExecuteBatched(span: OpSpan, batches: seq<OpBatch>) returns (r: Outcome<()>)
      requires NoopIsIdentity(m)
      requires batches != [] && WellFormedBatches(batches) && BatchesOps(batches) == span.ops
      requires ProperRows(rows)
      modifies this
      ensures Reports(RunItems(m, Linear(span.ops, 0, span.decorators), old(state)), r, state)
      ensures r.Done? ==> groupsLeft == 0 && groupOps == 0
      ensures r.Done? ==> Executed(rows, Kept(old(rows)), span.ops)
      ensures ProperRows(rows)
    {
      RunOpsIsLinear(m, span.ops, 0, span.decorators, state);
      groupsLeft := GroupCount(batches);
      var rest;
      r, rest := ExecuteBatches(batches, span.decorators);
      if r.Done? {
        r := ExecuteOp(Noop);
        if rest != [] {
          r := ExecuteDecorator(rest[0].1);
        }
      }
    }

    /** Executes the batches of a span, with the group counter set to their group count. */
    method ExecuteBatches(batches: seq<OpBatch>, decs: DecoratorList) returns (r: Outcome<()>, rest: DecoratorList)
      requires NoopIsIdentity(m)
      requires batches != [] && WellFormedBatches(batches)
      requires ProperRows(rows) && groupsLeft == GroupCount(batches)
      modifies this
      ensures match RunOps(m, BatchesOps(batches), 0, decs, old(state))
              case Done((s, ds)) => r.Done? && state == s && rest == ds
              case Failed(e) => r == Failed(e)
              case OutOfFuel => false
      ensures r.Done? ==> groupsLeft == 0 && groupOps == 0
      ensures r.Done? ==> Executed(rows, Kept(old(rows)), BatchesOps(batches))
      ensures ProperRows(rows)
    {
      ghost var before := Kept(rows);
      var opOffset := 0;
      r, rest := Done(()), decs;
      assert batches[..0] == [];
      for i := 0 to |batches|
        invariant r.Done? && opOffset == |BatchesOps(batches[..i])|
        invariant RunOps(m, BatchesOps(batches[..i]), 0, decs, old(state)) == Done((state, rest))
        invariant groupsLeft == if i < |batches| then GroupCount(batches) - i * BATCH_SIZE else 0
        invariant i == |batches| ==> groupOps == 0
        invariant ProperRows(rows) && Executed(rows, before, BatchesOps(batches[..i]))
      {
        BatchesPrefix(batches, i);
        r, rest := ExecuteNextBatch(batches, i, opOffset, rest, decs, old(state), before);
        if !r.Done? {
          PrefixFails(m, batches, i + 1, decs, old(state));
          return;
        }
        opOffset := opOffset + |batches[i].ops|;
      }
      assert batches[..|batches|] == batches;
    }

    /** Executes a block exactly as its meaning prescribes. */
    method ExecuteCodeBlock(b: CodeBlock, t: Table, fuel: nat) returns (r: Outcome<()>)
      requires NoopIsIdentity(m)
      requires SpansNonEmpty(b) && forall h :: h in t ==> SpansNonEmpty(t[h])
      requires ProperRows(rows)
      modifies this
      ensures Reports(Exec(m, t, fuel, b, old(state)), r, state)
      ensures ProperRows(rows)
      decreases fuel, b, 0
    {
      match b
      case Span(span) =>
        r := ExecuteSpanBlock(span);
      case Join(first, second) =>
        r := ExecuteCodeBlock(first, t, fuel);
        if r.Done? {
          r := ExecuteCodeBlock(second, t, fuel);
        }
      case Split(onTrue, onFalse) =>
        var condition := m.peek(state);
        r := ExecuteOp(Drop);
        if r.Done? {
          if condition == ONE {
            r := ExecuteCodeBlock(onTrue, t, fuel);
          } else if condition == ZERO {
            r := ExecuteCodeBlock(onFalse, t, fuel);
          } else {
            r := Failed(NotBinaryValue(condition));
          }
        }
      case Loop(body) =>
        var condition := m.peek(state);
        r := ExecuteOp(Drop);
        if r.Done? {
          if condition == ONE {
            r := ExecuteCodeBlock(body, t, fuel);
            if r.Done? {
              r := RepeatLoop(body, t, fuel);
            }
          } else if condition != ZERO {
            r := Failed(NotBinaryValue(condition));
          }
        }
      case Call(h, isSyscall) =>
        if isSyscall && h !in m.kernel {
          r := Failed(SyscallTargetNotInKernel(h));
        } else {
          var parent := state;
          state := m.enter(h, isSyscall, state);
          var root := Resolve(m, h, state);
          if root !in t {
            r := Failed(Missing(m, h, state));
          } else if fuel == 0 {
            r := OutOfFuel;
          } else {
            r := ExecuteCodeBlock(t[root], t, fuel - 1);
            if r.Done? {
              match m.leave(parent, state)
              case Ok(s) => state := s;
              case Err(e) => r := Failed(OpError(e));
            }
          }
        }
      case Dyn =>
        var root := m.topWord(state);
        if root !in t {
          r := Failed(DynamicCodeBlockNotFound(root));
        } else if fuel == 0 {
          r := OutOfFuel;
        } else {
          r := ExecuteCodeBlock(t[root], t, fuel - 1);
        }
      case Proxy(_) =>
        r := Failed(UnexecutableCodeBlock);
    }

    /** Repeats a loop body while the top of the stack is ONE, then drops the condition. */
    method RepeatLoop(body: CodeBlock, t: Table, fuel: nat) returns (r: Outcome<()>)
      requires NoopIsIdentity(m)
      requires SpansNonEmpty(body) && forall h :: h in t ==> SpansNonEmpty(t[h])
      requires ProperRows(rows)
      modifies this
      ensures Reports(Iterate(m, t, fuel, body, old(state)), r, state)
      ensures ProperRows(rows)
      decreases fuel, body, 1
    {
      var left: nat := fuel;
      while m.peek(state) == ONE
        invariant ProperRows(rows) && left <= fuel
        invariant Iterate(m, t, fuel, body, old(state)) == Iterate(m, t, left, body, state)
        decreases left
      {
        r := ExecuteOp(Drop);
        if !r.Done? {
          return;
        }
        if left == 0 {
          return OutOfFuel;
        }
        left := left - 1;
        r := ExecuteCodeBlock(body, t, left);
        if !r.Done? {
          return;
        }
      }
      r := ExecuteOp(Drop);
    }
  }
}
