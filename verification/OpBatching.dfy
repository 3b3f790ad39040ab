/** How the operations of a span are packed into groups and batches. */
module OpBatching {
  import opened Mast
  import opened Results
  import opened Powers

  /** Maximum number of operations per group. */
  const GROUP_SIZE: nat := 9

  /** Number of groups per batch. */
  const BATCH_SIZE: nat := 8

  /**
   A batch: its operations, the values of its eight groups (operation groups and immediate
   values), the number of operations in each group (0 for immediates) and the groups in use.
   */
  datatype OpBatch = OpBatch(ops: seq<Operation>, groups: seq<nat>, opCounts: seq<nat>, numGroups: nat)

  function Pow128(n: nat): nat {
    if n == 0 then 1 else 128 * Pow128(n - 1)
  }

  function NextPowerOfTwo(n: nat): nat {
    if n <= 1 then 1 else 2 * NextPowerOfTwo((n + 1) / 2)
  }

  /** It is the least power of two that is not below `n`. */
  lemma {:induction false} NextPowerIsLeast(n: nat, k: nat)
    ensures n <= NextPowerOfTwo(n) && (n <= Pow2(k) <==> NextPowerOfTwo(n) <= Pow2(k))
    ensures exists j: nat :: NextPowerOfTwo(n) == Pow2(j)
  {
    if n <= 1 {
      assert Pow2(0) == 1;
    } else {
      NextPowerIsLeast((n + 1) / 2, if k == 0 then 0 else k - 1);
      var j: nat :| NextPowerOfTwo((n + 1) / 2) == Pow2(j);
      assert NextPowerOfTwo(n) == Pow2(j + 1);
    }
  }

  // Groups

  /** Opcodes of a group, seven bits each, the first one least significant. */
  function Encode(group: seq<Operation>): nat {
    if group == [] then 0 else group[0].OpCode() + 128 * Encode(group[1..])
  }

  /** Immediate values carried by a group, in order. */
  function Imms(group: seq<Operation>): seq<nat> {
    if group == [] then [] else
      var last := group[|group| - 1];
      Imms(group[..|group| - 1]) + (if last.HasImm() then [last.imm as nat] else [])
  }

  /** A group has one to nine operations, and one with an immediate value is never the ninth. */
  predicate ValidGroup(group: seq<Operation>) {
    1 <= |group| <= GROUP_SIZE && (|group| == GROUP_SIZE ==> !group[GROUP_SIZE - 1].HasImm())
  }

  /** The operations of consecutive groups. */
  function Flat(gs: seq<seq<Operation>>): seq<Operation> {
    if gs == [] then [] else Flat(gs[..|gs| - 1]) + gs[|gs| - 1]
  }

  /** Each group's encoding, followed by its immediate values. */
  function Slots(gs: seq<seq<Operation>>): seq<nat> {
    if gs == [] then [] else
      var last := gs[|gs| - 1];
      Slots(gs[..|gs| - 1]) + [Encode(last)] + Imms(last)
  }

  /** Each group's length, followed by zeros for its immediate values. */
  function Counts(gs: seq<seq<Operation>>): (r: seq<nat>)
    ensures |r| == |Slots(gs)|
  {
    if gs == [] then [] else
      var last := gs[|gs| - 1];
      Counts(gs[..|gs| - 1]) + [|last|] + Filled(0, |Imms(last)|)
  }

  /** A batch made of the groups `gs`. */
  ghost predicate MadeOf(b: OpBatch, gs: seq<seq<Operation>>) {
    && gs != []
    && (forall k :: 0 <= k < |gs| ==> ValidGroup(gs[k]))
    && |Slots(gs)| <= BATCH_SIZE
    && b.ops == Flat(gs)
    && b.groups == Slots(gs) + Filled(0, BATCH_SIZE - |Slots(gs)|)
    && b.opCounts == Counts(gs) + Filled(0, BATCH_SIZE - |Slots(gs)|)
    && b.numGroups == |Slots(gs)|
  }

  ghost predicate WellFormed(b: OpBatch) {
    exists gs :: MadeOf(b, gs)
  }

  lemma {:induction false} SlotsSnoc(gs: seq<seq<Operation>>, g: seq<Operation>)
    ensures Slots(gs + [g]) == Slots(gs) + [Encode(g)] + Imms(g)
    ensures Counts(gs + [g]) == Counts(gs) + [|g|] + Filled(0, |Imms(g)|)
    ensures Flat(gs + [g]) == Flat(gs) + g
  {
    assert (gs + [g])[..|gs|] == gs;
  }

  lemma {:induction false} ImmsSnoc(g: seq<Operation>, op: Operation)
    ensures Imms(g + [op]) == Imms(g) + (if op.HasImm() then [op.imm as nat] else [])
  {
    assert (g + [op])[..|g|] == g;
  }

  lemma {:induction false} EncodeSnoc(g: seq<Operation>, op: Operation)
    ensures Encode(g + [op]) == Encode(g) + op.OpCode() * Pow128(|g|)
  {
    if g == [] {
      assert g + [op] == [op];
      assert [op][1..] == [];
    } else {
      var c, p := op.OpCode(), Pow128(|g| - 1);
      assert (g + [op])[1..] == g[1..] + [op];
      calc {
        Encode(g + [op]);
        g[0].OpCode() + 128 * Encode(g[1..] + [op]);
        { EncodeSnoc(g[1..], op); }
        g[0].OpCode() + 128 * (Encode(g[1..]) + c * p);
        { Distribute(Encode(g[1..]), c, p); }
        g[0].OpCode() + 128 * Encode(g[1..]) + c * (128 * p);
      }
    }
  }

  lemma Distribute(e: nat, c: nat, p: nat)
    ensures 128 * (e + c * p) == 128 * e + c * (128 * p)
  {
  }

  lemma {:induction false} EncodeBound(g: seq<Operation>)
    ensures Encode(g) < Pow128(|g|)
  {
    if g != [] {
      EncodeBound(g[1..]);
    }
  }

  /** The encoding of a group fits into 63 bits, so it is a field element. */
  lemma GroupFits(g: seq<Operation>)
    requires |g| <= GROUP_SIZE
    ensures Encode(g) < MODULUS
  {
    EncodeBound(g);
    Pow128Monotone(|g|, GROUP_SIZE);
    assert Pow128(9) == 128 * 128 * 128 * 128 * 128 * 128 * 128 * 128 * 128 by {
      assert Pow128(3) == 128 * 128 * 128;
      assert Pow128(6) == 128 * 128 * 128 * Pow128(3);
      assert Pow128(9) == 128 * 128 * 128 * Pow128(6);
    }
  }

  lemma {:induction false} Pow128Monotone(i: nat, j: nat)
    requires i <= j
    ensures Pow128(i) <= Pow128(j)
    decreases j
  {
    if i < j {
      Pow128Monotone(i, j - 1);
    }
  }

  // Which operations go into which group and batch

  /** Groups of the batches that are full, and of the one being filled: finished ones and the current one. */
  datatype Packing = Packing(full: seq<seq<seq<Operation>>>, finished: seq<seq<Operation>>, current: seq<Operation>)

  /** The slot for the next group or immediate value. */
  function NextFree(finished: seq<seq<Operation>>, current: seq<Operation>): nat {
    |Slots(finished)| + 1 + |Imms(current)|
  }

  /** The batch has room for the operation and its immediate value. */
  predicate Fits(finished: seq<seq<Operation>>, current: seq<Operation>, op: Operation) {
    if op.HasImm() then
      if |current| < GROUP_SIZE - 1 then NextFree(finished, current) < BATCH_SIZE else NextFree(finished, current) + 1 < BATCH_SIZE
    else
      |current| < GROUP_SIZE || NextFree(finished, current) < BATCH_SIZE
  }

  /** The operation has to go into a new group. */
  predicate StartsGroup(current: seq<Operation>, op: Operation) {
    |current| == GROUP_SIZE || (op.HasImm() && |current| == GROUP_SIZE - 1)
  }

  function PackInto(p: Packing, op: Operation): Packing {
    if StartsGroup(p.current, op) then Packing(p.full, p.finished + [p.current], [op])
    else Packing(p.full, p.finished, p.current + [op])
  }

  function NextBatch(p: Packing): Packing {
    Packing(p.full + [p.finished + [p.current]], [], [])
  }

  function Pack(p: Packing, op: Operation): Packing {
    PackInto(if Fits(p.finished, p.current, op) then p else NextBatch(p), op)
  }

  function PackAll(ops: seq<Operation>): Packing {
    if ops == [] then Packing([], [], []) else Pack(PackAll(ops[..|ops| - 1]), ops[|ops| - 1])
  }

  /** The groups of each batch. */
  function BatchGroups(ops: seq<Operation>): seq<seq<seq<Operation>>> {
    var p := PackAll(ops);
    if ops == [] then [] else p.full + [p.finished + [p.current]]
  }

  /** The slots of a batch, those not in use being zero. */
  function Padded(gs: seq<seq<Operation>>): seq<nat> {
    Slots(gs) + Filled(0, if |Slots(gs)| <= BATCH_SIZE then BATCH_SIZE - |Slots(gs)| else 0)
  }

  function AllPadded(batches: seq<seq<seq<Operation>>>): seq<nat> {
    if batches == [] then [] else AllPadded(batches[..|batches| - 1]) + Padded(batches[|batches| - 1])
  }

  /** The values that a span's root is the hash of: the eight slots of each of its batches. */
  function GroupValues(ops: seq<Operation>): seq<nat> {
    AllPadded(BatchGroups(ops))
  }

  // In numbers: how many operations share a group, and how many groups a batch

  /** How many of the operations carry an immediate value. */
  function Pushes(ops: seq<Operation>): nat {
    if ops == [] then 0 else Pushes(ops[..|ops| - 1]) + (if ops[|ops| - 1].Push? then 1 else 0)
  }

  /** Slots of a batch: one for each group and one for each immediate value. */
  lemma {:induction false} SlotCount(gs: seq<seq<Operation>>)
    ensures |Slots(gs)| == |gs| + Pushes(Flat(gs))
  {
    if gs != [] {
      var init, last := gs[..|gs| - 1], gs[|gs| - 1];
      SlotCount(init);
      PushesConcat(Flat(init), last);
      ImmCount(last);
    }
  }

  lemma {:induction false} ImmCount(g: seq<Operation>)
    ensures |Imms(g)| == Pushes(g)
  {
    if g != [] {
      ImmCount(g[..|g| - 1]);
    }
  }

  lemma {:induction false} PushesConcat(xs: seq<Operation>, ys: seq<Operation>)
    ensures Pushes(xs + ys) == Pushes(xs) + Pushes(ys)
  {
    if ys == [] {
      assert xs + ys == xs;
    } else {
      PushesConcat(xs, ys[..|ys| - 1]);
      assert (xs + ys)[..|xs + ys| - 1] == xs + ys[..|ys| - 1];
    }
  }

  /** One to nine operations, of which the ninth carries no immediate value. */
  predicate RightSize(g: seq<Operation>) {
    1 <= |g| <= 9 && (|g| == 9 ==> !g[8].Push?)
  }

  /** A group that is not the last one has nine operations, or eight before one with an immediate value. */
  predicate FullBefore(g: seq<Operation>, next: seq<Operation>) {
    |g| == 9 || (|g| == 8 && next != [] && next[0].Push?)
  }

  ghost predicate FullGroups(gs: seq<seq<Operation>>) {
    && (forall k: nat :: k < |gs| ==> RightSize(gs[k]))
    && (forall k: nat :: k < |gs| - 1 ==> FullBefore(gs[k], gs[k + 1]))
  }

  /** Such groups, in at most eight slots. */
  ghost predicate GreedyBatch(gs: seq<seq<Operation>>) {
    gs != [] && FullGroups(gs) && |Slots(gs)| <= 8
  }

  /** The batch has no room for the operation that the next one begins with. */
  predicate NoRoom(gs: seq<seq<Operation>>, next: seq<seq<Operation>>) {
    && gs != [] && next != [] && next[0] != []
    && var n, slots := |gs[|gs| - 1]|, |Slots(gs)|;
       if next[0][0].Push? then (if n < 8 then slots == 8 else slots >= 7) else n == 9 && slots == 8
  }

  ghost predicate Greedy(batches: seq<seq<seq<Operation>>>) {
    && (forall i: nat :: i < |batches| ==> GreedyBatch(batches[i]))
    && (forall i: nat :: i < |batches| - 1 ==> NoRoom(batches[i], batches[i + 1]))
  }

  function FlatAll(batches: seq<seq<seq<Operation>>>): seq<Operation> {
    if batches == [] then [] else FlatAll(batches[..|batches| - 1]) + Flat(batches[|batches| - 1])
  }

  lemma FullGroupsSnoc(gs: seq<seq<Operation>>, g: seq<Operation>)
    ensures FullGroups(gs + [g]) <==> FullGroups(gs) && RightSize(g) && (gs != [] ==> FullBefore(gs[|gs| - 1], g))
  {
    var all := gs + [g];
    if FullGroups(all) {
      assert RightSize(all[|gs|]);
      forall k: nat | k < |gs|
        ensures RightSize(gs[k]) && FullBefore(gs[k], all[k + 1])
      {
        assert RightSize(all[k]) && FullBefore(all[k], all[k + 1]);
      }
      forall k: nat | k < |gs| - 1
        ensures FullBefore(gs[k], gs[k + 1])
      {
        assert FullBefore(all[k], all[k + 1]);
      }
    }
  }

  lemma GreedySnoc(batches: seq<seq<seq<Operation>>>, gs: seq<seq<Operation>>)
    ensures Greedy(batches + [gs]) <==> Greedy(batches) && GreedyBatch(gs) && (batches != [] ==> NoRoom(batches[|batches| - 1], gs))
  {
    var all := batches + [gs];
    if Greedy(all) {
      assert GreedyBatch(all[|batches|]);
      forall i: nat | i < |batches|
        ensures GreedyBatch(batches[i]) && NoRoom(batches[i], all[i + 1])
      {
        assert GreedyBatch(all[i]) && NoRoom(all[i], all[i + 1]);
      }
      forall i: nat | i < |batches| - 1
        ensures NoRoom(batches[i], batches[i + 1])
      {
        assert NoRoom(all[i], all[i + 1]);
      }
    }
  }

  /** The operation goes into the last group. */
  lemma GreedySameGroup(finished: seq<seq<Operation>>, current: seq<Operation>, op: Operation)
    requires GreedyBatch(finished + [current]) && Fits(finished, current, op) && !StartsGroup(current, op)
    ensures GreedyBatch(finished + [current + [op]])
  {
    SlotsSnoc(finished, current);
    SlotsSnoc(finished, current + [op]);
    ImmsSnoc(current, op);
    FullGroupsSnoc(finished, current);
    FullGroupsSnoc(finished, current + [op]);
  }

  /** The operation goes into a new group of the same batch. */
  lemma GreedyNextGroup(finished: seq<seq<Operation>>, current: seq<Operation>, op: Operation)
    requires GreedyBatch(finished + [current]) && Fits(finished, current, op) && StartsGroup(current, op)
    ensures GreedyBatch(finished + [current] + [[op]])
  {
    var gs := finished + [current];
    SlotsSnoc(finished, current);
    SlotsSnoc(gs, [op]);
    OneImm(op);
    FullGroupsSnoc(gs, [op]);
    assert gs[|gs| - 1] == current;
  }

  lemma OneImm(op: Operation)
    ensures |Imms([op])| == if op.Push? then 1 else 0
  {
    assert [op][..0] == [];
  }

  lemma GreedyOne(op: Operation)
    ensures GreedyBatch([[op]])
  {
    SlotsSnoc([], [op]);
    OneImm(op);
    FullGroupsSnoc([], [op]);
    assert [] + [[op]] == [[op]];
  }

  lemma RefusedNoRoom(finished: seq<seq<Operation>>, current: seq<Operation>, op: Operation)
    requires GreedyBatch(finished + [current]) && !Fits(finished, current, op)
    ensures NoRoom(finished + [current], [[op]])
  {
    SlotsSnoc(finished, current);
    FullGroupsSnoc(finished, current);
  }

  /** What has been packed after some operations. */
  function PackedBatches(p: Packing): seq<seq<seq<Operation>>> {
    p.full + [p.finished + [p.current]]
  }

  /** A batch with the operation added begins as it did. */
  lemma SameBeginning(batches: seq<seq<seq<Operation>>>, gs: seq<seq<Operation>>, hs: seq<seq<Operation>>)
    requires Greedy(batches + [gs]) && GreedyBatch(hs) && gs != [] && gs[0] != [] && hs[0] != [] && hs[0][0] == gs[0][0]
    ensures Greedy(batches + [hs])
  {
    GreedySnoc(batches, gs);
    GreedySnoc(batches, hs);
  }

  lemma FirstGroup(gs: seq<seq<Operation>>)
    requires GreedyBatch(gs)
    ensures gs[0] != []
  {
    assert RightSize(gs[0]);
  }

  /** The batches after one more operation. */
  lemma PackCases(p: Packing, op: Operation)
    ensures var gs := p.finished + [p.current];
            PackedBatches(Pack(p, op)) ==
            if !Fits(p.finished, p.current, op) then p.full + [gs] + [[[op]]]
            else if StartsGroup(p.current, op) then p.full + [gs + [[op]]]
            else p.full + [p.finished + [p.current + [op]]]
  {
    var none: seq<seq<Operation>> := [];
    assert none + [[op]] == [[op]];
    var nothing: seq<Operation> := [];
    assert nothing + [op] == [op];
  }

  lemma GreedyPack(p: Packing, op: Operation)
    requires Greedy(PackedBatches(p))
    ensures Greedy(PackedBatches(Pack(p, op)))
  {
    var gs := p.finished + [p.current];
    GreedySnoc(p.full, gs);
    FirstGroup(gs);
    PackCases(p, op);
    if !Fits(p.finished, p.current, op) {
      RefusedNoRoom(p.finished, p.current, op);
      GreedyOne(op);
      GreedySnoc(p.full + [gs], [[op]]);
    } else if StartsGroup(p.current, op) {
      GreedyNextGroup(p.finished, p.current, op);
      SameBeginning(p.full, gs, gs + [[op]]);
    } else {
      GreedySameGroup(p.finished, p.current, op);
      SameBeginning(p.full, gs, p.finished + [p.current + [op]]);
    }
  }

  lemma FlatPack(p: Packing, op: Operation)
    ensures FlatAll(PackedBatches(Pack(p, op))) == FlatAll(PackedBatches(p)) + [op]
  {
    var gs := p.finished + [p.current];
    FlatAllSnoc(p.full, gs);
    SlotsSnoc(p.finished, p.current);
    PackCases(p, op);
    if !Fits(p.finished, p.current, op) {
      FlatAllSnoc(p.full + [gs], [[op]]);
      FlatOne(op);
    } else if StartsGroup(p.current, op) {
      FlatAllSnoc(p.full, gs + [[op]]);
      SlotsSnoc(gs, [op]);
      Associate(FlatAll(p.full), Flat(gs), [op]);
    } else {
      FlatAllSnoc(p.full, p.finished + [p.current + [op]]);
      SlotsSnoc(p.finished, p.current + [op]);
      Associate(Flat(p.finished), p.current, [op]);
      Associate(FlatAll(p.full), Flat(gs), [op]);
    }
  }

  lemma FlatAllSnoc(batches: seq<seq<seq<Operation>>>, gs: seq<seq<Operation>>)
    ensures FlatAll(batches + [gs]) == FlatAll(batches) + Flat(gs)
  {
    assert (batches + [gs])[..|batches|] == batches;
  }

  lemma FlatOne(op: Operation)
    ensures Flat([[op]]) == [op]
  {
    assert [[op]][..0] == [];
  }

  /** Packing is greedy, and keeps the operations in order. */
  lemma {:induction false} PackedGreedily(ops: seq<Operation>)
    requires ops != []
    ensures Greedy(BatchGroups(ops)) && FlatAll(BatchGroups(ops)) == ops
  {
    var init, op := ops[..|ops| - 1], ops[|ops| - 1];
    assert ops == init + [op];
    if init == [] {
      PackedOne(op);
    } else {
      PackedGreedily(init);
      PackedSnoc(init, op);
    }
  }

  lemma PackedSnoc(init: seq<Operation>, op: Operation)
    requires init != [] && Greedy(BatchGroups(init)) && FlatAll(BatchGroups(init)) == init
    ensures Greedy(BatchGroups(init + [op])) && FlatAll(BatchGroups(init + [op])) == init + [op]
  {
    assert (init + [op])[..|init|] == init;
    GreedyPack(PackAll(init), op);
    FlatPack(PackAll(init), op);
  }

  lemma PackedOne(op: Operation)
    ensures Greedy(BatchGroups([op])) && FlatAll(BatchGroups([op])) == [op]
  {
    var none: seq<seq<seq<Operation>>> := [];
    FirstPacked(op);
    GreedyOne(op);
    GreedySnoc(none, [[op]]);
    FlatAllSnoc(none, [[op]]);
    FlatOne(op);
    OneBatch([[op]]);
  }

  lemma OneBatch(gs: seq<seq<Operation>>)
    ensures [] + [gs] == [gs]
  {
  }

  lemma FirstPacked(op: Operation)
    ensures BatchGroups([op]) == [[[op]]]
  {
    assert [op][..0] == [];
    var nothing: seq<Operation> := [];
    var none: seq<seq<Operation>> := [];
    assert nothing + [op] == [op] && none + [[op]] == [[op]];
    assert PackAll([op]) == PackInto(Packing([], [], []), op);
    OneBatch([[op]]);
  }

  // Slots while a batch is being filled

  /** The slots while `current` is being filled: its own slot is still empty. */
  function OpenSlots(finished: seq<seq<Operation>>, current: seq<Operation>): seq<nat>
    requires |Slots(finished)| + 1 + |Imms(current)| <= BATCH_SIZE
  {
    Slots(finished) + [0] + Imms(current) + Filled(0, BATCH_SIZE - |Slots(finished)| - 1 - |Imms(current)|)
  }

  function OpenCounts(finished: seq<seq<Operation>>): seq<nat>
    requires |Slots(finished)| <= BATCH_SIZE
  {
    Counts(finished) + Filled(0, BATCH_SIZE - |Slots(finished)|)
  }

  lemma {:induction false} CloseSlots(finished: seq<seq<Operation>>, current: seq<Operation>)
    requires |Slots(finished)| + 1 + |Imms(current)| <= BATCH_SIZE
    ensures var all := finished + [current];
            && |Slots(all)| == |Slots(finished)| + 1 + |Imms(current)|
            && OpenSlots(finished, current)[|Slots(finished)| := Encode(current)] == Slots(all) + Filled(0, BATCH_SIZE - |Slots(all)|)
            && OpenCounts(finished)[|Slots(finished)| := |current|] == OpenCounts(all)
  {
    SlotsSnoc(finished, current);
  }

  lemma {:induction false} NextSlot(finished: seq<seq<Operation>>)
    requires |Slots(finished)| < BATCH_SIZE
    ensures Slots(finished) + Filled(0, BATCH_SIZE - |Slots(finished)|) == OpenSlots(finished, [])
  {
  }

  lemma {:induction false} StoreImmediate(finished: seq<seq<Operation>>, current: seq<Operation>, op: Operation)
    requires |Slots(finished)| + 1 + |Imms(current)| < BATCH_SIZE && op.HasImm()
    ensures |Imms(current + [op])| == |Imms(current)| + 1
    ensures OpenSlots(finished, current)[|Slots(finished)| + 1 + |Imms(current)| := op.imm] ==
            OpenSlots(finished, current + [op])
  {
    ImmsSnoc(current, op);
  }

  // Accumulator

  /** The fields of an accumulator. */
  datatype Acc = Acc(ops: seq<Operation>, groups: seq<nat>, opCounts: seq<nat>, group: nat, opIdx: nat, groupIdx: nat, nextGroupIdx: nat)

  /** The accumulator holds the finished groups and the one being filled, which may be empty. */
  ghost predicate Holds(a: Acc, finished: seq<seq<Operation>>, current: seq<Operation>) {
    && (forall k :: 0 <= k < |finished| ==> ValidGroup(finished[k]))
    && (current == [] || ValidGroup(current))
    && a.ops == Flat(finished) + current
    && a.opIdx == |current|
    && a.group == Encode(current)
    && a.groupIdx == |Slots(finished)|
    && a.nextGroupIdx == a.groupIdx + 1 + |Imms(current)|
    && a.nextGroupIdx <= BATCH_SIZE
    && a.groups == OpenSlots(finished, current)
    && a.opCounts == OpenCounts(finished)
  }

  predicate InRange(a: Acc) {
    a.groupIdx < |a.groups| == |a.opCounts| == BATCH_SIZE
  }

  /** Saves the current group and starts an empty one in the next free slot. */
  function Finalized(a: Acc): Acc
    requires InRange(a)
  {
    Acc(a.ops, a.groups[a.groupIdx := a.group], a.opCounts[a.groupIdx := a.opIdx], 0, 0, a.nextGroupIdx, a.nextGroupIdx + 1)
  }

  function WithImm(a: Acc, imm: nat): Acc
    requires a.nextGroupIdx < |a.groups|
  {
    a.(groups := a.groups[a.nextGroupIdx := imm], nextGroupIdx := a.nextGroupIdx + 1)
  }

  function WithOp(a: Acc, op: Operation): Acc {
    a.(ops := a.ops + [op], group := a.group + op.OpCode() * Pow128(a.opIdx), opIdx := a.opIdx + 1)
  }

  lemma {:induction false} FinalizedHolds(a: Acc, finished: seq<seq<Operation>>, current: seq<Operation>)
    requires Holds(a, finished, current) && current != [] && a.nextGroupIdx < BATCH_SIZE
    ensures InRange(a) && Holds(Finalized(a), finished + [current], [])
  {
    CloseSlots(finished, current);
    NextSlot(finished + [current]);
    SlotsSnoc(finished, current);
    assert Flat(finished) + current + [] == Flat(finished) + current;
  }

  lemma {:induction false} PlainOpHolds(a: Acc, finished: seq<seq<Operation>>, current: seq<Operation>, op: Operation)
    requires Holds(a, finished, current) && |current| < GROUP_SIZE && !op.HasImm()
    ensures Holds(WithOp(a, op), finished, current + [op])
  {
    ImmsSnoc(current, op);
    EncodeSnoc(current, op);
    assert Flat(finished) + (current + [op]) == Flat(finished) + current + [op];
  }

  lemma {:induction false} ImmOpHolds(a: Acc, finished: seq<seq<Operation>>, current: seq<Operation>, op: Operation)
    requires Holds(a, finished, current) && |current| < GROUP_SIZE - 1 && op.HasImm() && a.nextGroupIdx < BATCH_SIZE
    ensures a.nextGroupIdx < |a.groups| && Holds(WithOp(WithImm(a, op.imm), op), finished, current + [op])
  {
    StoreImmediate(finished, current, op);
    EncodeSnoc(current, op);
    assert Flat(finished) + (current + [op]) == Flat(finished) + current + [op];
  }

  class OpBatchAccumulator {
    var ops: seq<Operation>
    var groups: seq<nat>
    var opCounts: seq<nat>
    var group: nat
    var opIdx: nat
    var groupIdx: nat
    var nextGroupIdx: nat

    /** Finished groups and the group being filled. */
    ghost var finished: seq<seq<Operation>>
    ghost var current: seq<Operation>

    ghost function Fields(): Acc
      reads this
    {
      Acc(ops, groups, opCounts, group, opIdx, groupIdx, nextGroupIdx)
    }

    ghost function Grouping(): Packing
      reads this
    {
      Packing([], finished, current)
    }

    /** Only a new accumulator has an empty current group. */
    ghost predicate Valid()
      reads this
    {
      Holds(Fields(), finished, current) && (current == [] ==> ops == [])
    }

    constructor ()
      ensures Valid() && ops == []
    {
      ops, groups, opCounts := [], Filled(0, BATCH_SIZE), Filled(0, BATCH_SIZE);
      group, opIdx, groupIdx, nextGroupIdx := 0, 0, 0, 1;
      finished, current := [], [];
    }

    predicate CanAcceptOp(op: Operation)
      reads this
    {
      if op.HasImm() then
        if opIdx < GROUP_SIZE - 1 then nextGroupIdx < BATCH_SIZE else nextGroupIdx + 1 < BATCH_SIZE
      else
        opIdx < GROUP_SIZE || nextGroupIdx < BATCH_SIZE
    }

    method FinalizeOpGroup()
      requires InRange(Fields())
      modifies this
      ensures Fields() == Finalized(old(Fields()))
      ensures finished == old(finished) + [old(current)] && current == []
    {
      groups := groups[groupIdx := group];
      opCounts := opCounts[groupIdx := opIdx];
      groupIdx := nextGroupIdx;
      nextGroupIdx := groupIdx + 1;
      opIdx, group := 0, 0;
      finished, current := finished + [current], [];
    }

    /** Moves on to a new group if the operation does not fit into the current one. */
    method MakeRoom(op: Operation)
      requires Valid() && CanAcceptOp(op)
      modifies this
      ensures Holds(Fields(), finished, current) && ops == old(ops)
      ensures if StartsGroup(old(current), op) then finished == old(finished) + [old(current)] && current == []
              else finished == old(finished) && current == old(current)
      ensures if op.HasImm() then opIdx < GROUP_SIZE - 1 && nextGroupIdx < BATCH_SIZE else opIdx < GROUP_SIZE
    {
      if opIdx == GROUP_SIZE {
        FinalizedHolds(Fields(), finished, current);
        FinalizeOpGroup();
      } else if op.HasImm() && opIdx == GROUP_SIZE - 1 {
        FinalizedHolds(Fields(), finished, current);
        FinalizeOpGroup();
      }
    }

    method AddOp(op: Operation)
      requires Valid() && CanAcceptOp(op)
      modifies this
      ensures Valid() && ops == old(ops) + [op]
      ensures Grouping() == PackInto(old(Grouping()), op)
    {
      MakeRoom(op);
      if op.HasImm() {
        ImmOpHolds(Fields(), finished, current, op);
        groups := groups[nextGroupIdx := op.imm];
        nextGroupIdx := nextGroupIdx + 1;
      } else {
        PlainOpHolds(Fields(), finished, current, op);
      }
      AppendOp(op);
    }

    /** Adds an operation to the current group. */
    method AppendOp(op: Operation)
      modifies this
      ensures Fields() == WithOp(old(Fields()), op)
      ensures finished == old(finished) && current == old(current) + [op]
    {
      group := group + op.OpCode() * Pow128(opIdx);
      ops := ops + [op];
      opIdx := opIdx + 1;
      current := current + [op];
    }

    method IntoBatch() returns (b: OpBatch)
      requires Valid() && ops != []
      ensures MadeOf(b, finished + [current]) && b.ops == ops && b.numGroups == nextGroupIdx
    {
      var allGroups, allCounts := groups, opCounts;
      if group != 0 || opIdx != 0 {
        allGroups := groups[groupIdx := group];
        allCounts := opCounts[groupIdx := opIdx];
      }
      CloseSlots(finished, current);
      SlotsSnoc(finished, current);
      b := OpBatch(ops, allGroups, allCounts, nextGroupIdx);
    }
  }

  // Batches of a span

  function BatchesOps(batches: seq<OpBatch>): seq<Operation> {
    if batches == [] then [] else BatchesOps(batches[..|batches| - 1]) + batches[|batches| - 1].ops
  }

  /** Well-formed batches, all but the last padded to eight groups. */
  ghost predicate WellFormedBatches(batches: seq<OpBatch>) {
    && (forall i :: 0 <= i < |batches| ==> WellFormed(batches[i]))
    && (forall i :: 0 <= i < |batches| - 1 ==> NextPowerOfTwo(batches[i].numGroups) == BATCH_SIZE)
  }

  lemma BatchesSnoc(batches: seq<OpBatch>, b: OpBatch)
    ensures BatchesOps(batches + [b]) == BatchesOps(batches) + b.ops
  {
    assert (batches + [b])[..|batches|] == batches;
  }

  /** A batch is closed only when its groups are padded to eight. */
  lemma FullWhenRefused(acc: OpBatchAccumulator, op: Operation)
    requires acc.Valid() && !acc.CanAcceptOp(op)
    ensures acc.ops != [] && NextPowerOfTwo(acc.nextGroupIdx) == BATCH_SIZE
  {
    assert acc.nextGroupIdx == 7 || acc.nextGroupIdx == 8;
    assert NextPowerOfTwo(7) == 8 && NextPowerOfTwo(8) == 8;
  }

  /** The slots of all batches one after the other: what is hashed. */
  function HashedGroups(batches: seq<OpBatch>): seq<nat> {
    if batches == [] then [] else HashedGroups(batches[..|batches| - 1]) + batches[|batches| - 1].groups
  }

  /** Each batch is made of its groups. */
  ghost predicate MadeOfAll(batches: seq<OpBatch>, groups: seq<seq<seq<Operation>>>) {
    |batches| == |groups| && forall i :: 0 <= i < |batches| ==> MadeOf(batches[i], groups[i])
  }

  lemma {:induction false} HashedAll(batches: seq<OpBatch>, groups: seq<seq<seq<Operation>>>)
    requires MadeOfAll(batches, groups)
    ensures HashedGroups(batches) == AllPadded(groups)
  {
    if batches != [] {
      HashedAll(batches[..|batches| - 1], groups[..|groups| - 1]);
    }
  }

  /** All but the batch being filled take eight groups. */
  ghost predicate FullBatches(batches: seq<OpBatch>) {
    forall j :: 0 <= j < |batches| ==> NextPowerOfTwo(batches[j].numGroups) == BATCH_SIZE
  }

  lemma MadeIsWellFormed(batches: seq<OpBatch>, groups: seq<seq<seq<Operation>>>)
    requires MadeOfAll(batches, groups)
    requires batches != [] ==> FullBatches(batches[..|batches| - 1])
    ensures WellFormedBatches(batches)
  {
    forall i | 0 <= i < |batches|
      ensures WellFormed(batches[i])
    {
      assert MadeOf(batches[i], groups[i]);
    }
    forall i | 0 <= i < |batches| - 1
      ensures NextPowerOfTwo(batches[i].numGroups) == BATCH_SIZE
    {
      assert batches[..|batches| - 1][i] == batches[i];
    }
  }

  lemma MadeOfSnoc(batches: seq<OpBatch>, groups: seq<seq<seq<Operation>>>, b: OpBatch, gs: seq<seq<Operation>>)
    requires MadeOfAll(batches, groups) && MadeOf(b, gs)
    ensures MadeOfAll(batches + [b], groups + [gs])
  {
  }

  /** The batches and the accumulator are packed in this way. */
  ghost predicate PackedAs(batches: seq<OpBatch>, acc: OpBatchAccumulator, p: Packing)
    reads acc
  {
    MadeOfAll(batches, p.full) && acc.Grouping() == p.(full := [])
  }

  lemma PackIntoLast(p: Packing, op: Operation)
    ensures PackInto(p, op).full == p.full && PackInto(p, op).(full := []) == PackInto(p.(full := []), op)
  {
  }

  /** Closes the batch being filled. */
  method CloseBatch(acc: OpBatchAccumulator, batches: seq<OpBatch>, ghost p: Packing) returns (batches': seq<OpBatch>)
    requires acc.Valid() && acc.ops != [] && PackedAs(batches, acc, p)
    ensures BatchesOps(batches') == BatchesOps(batches) + acc.ops
    ensures |batches'| == |batches| + 1 && batches'[..|batches|] == batches && batches'[|batches|].numGroups == acc.nextGroupIdx
    ensures MadeOfAll(batches', NextBatch(p).full)
  {
    var batch := acc.IntoBatch();
    BatchesSnoc(batches, batch);
    MadeOfSnoc(batches, p.full, batch, p.finished + [p.current]);
    batches' := batches + [batch];
  }

  lemma AcceptsIfFits(acc: OpBatchAccumulator, op: Operation)
    requires acc.Valid()
    ensures acc.CanAcceptOp(op) <==> Fits(acc.finished, acc.current, op)
  {
  }

  /** Moves on to a new accumulator if the current one cannot take the operation. */
  method NextAccumulator(acc: OpBatchAccumulator, op: Operation, batches: seq<OpBatch>, ghost p: Packing)
    returns (acc': OpBatchAccumulator, batches': seq<OpBatch>)
    requires acc.Valid() && FullBatches(batches) && PackedAs(batches, acc, p)
    ensures acc'.Valid() && acc'.CanAcceptOp(op) && FullBatches(batches')
    ensures BatchesOps(batches') + acc'.ops == BatchesOps(batches) + acc.ops
    ensures PackedAs(batches', acc', if Fits(p.finished, p.current, op) then p else NextBatch(p))
    ensures acc' == acc || fresh(acc')
  {
    acc', batches' := acc, batches;
    AcceptsIfFits(acc, op);
    if !acc.CanAcceptOp(op) {
      FullWhenRefused(acc, op);
      batches' := CloseBatch(acc, batches, p);
      acc' := new OpBatchAccumulator();
    }
  }

  /** Operations packed so far. */
  ghost function Packed(batches: seq<OpBatch>, last: seq<Operation>): seq<Operation> {
    BatchesOps(batches) + last
  }

  method PackOp(acc: OpBatchAccumulator, op: Operation, batches: seq<OpBatch>, ghost p: Packing)
    returns (acc': OpBatchAccumulator, batches': seq<OpBatch>)
    requires acc.Valid() && FullBatches(batches) && PackedAs(batches, acc, p)
    modifies acc
    ensures acc'.Valid() && acc'.ops != [] && FullBatches(batches')
    ensures Packed(batches', acc'.ops) == Packed(batches, old(acc.ops)) + [op]
    ensures PackedAs(batches', acc', Pack(p, op))
    ensures acc' == acc || fresh(acc')
  {
    acc', batches' := NextAccumulator(acc, op, batches, p);
    PackIntoLast(if Fits(p.finished, p.current, op) then p else NextBatch(p), op);
    Associate(BatchesOps(batches'), acc'.ops, [op]);
    acc'.AddOp(op);
  }

  /** The batches of some operations, the last one still being filled. */
  method FillBatches(ops: seq<Operation>) returns (acc: OpBatchAccumulator, batches: seq<OpBatch>)
    ensures fresh(acc) && acc.Valid() && FullBatches(batches)
    ensures Packed(batches, acc.ops) == ops && PackedAs(batches, acc, PackAll(ops))
    ensures if ops == [] then batches == [] else acc.ops != []
  {
    acc := new OpBatchAccumulator();
    batches := [];
    for i := 0 to |ops|
      invariant fresh(acc) && acc.Valid() && FullBatches(batches)
      invariant Packed(batches, acc.ops) == ops[..i]
      invariant PackedAs(batches, acc, PackAll(ops[..i]))
      invariant if i == 0 then batches == [] else acc.ops != []
    {
      PackAllNext(ops, i);
      acc, batches := PackOp(acc, ops[i], batches, PackAll(ops[..i]));
    }
    assert ops[..|ops|] == ops;
  }

  lemma PackAllNext(ops: seq<Operation>, i: nat)
    requires i < |ops|
    ensures ops[..i + 1] == ops[..i] + [ops[i]] && PackAll(ops[..i + 1]) == Pack(PackAll(ops[..i]), ops[i])
  {
    assert ops[..i + 1][..i] == ops[..i];
  }

  /**
   Packs operations into batches: nothing is lost or reordered, every batch is well-formed, and
   the slots of the batches are a function of the operations.
   */
  method BatchOps(ops: seq<Operation>) returns (batches: seq<OpBatch>)
    ensures BatchesOps(batches) == ops
    ensures WellFormedBatches(batches)
    ensures HashedGroups(batches) == GroupValues(ops)
    ensures ops != [] ==> batches != []
  {
    var acc, full := FillBatches(ops);
    batches := full;
    if acc.ops != [] {
      batches := CloseBatch(acc, full, PackAll(ops));
    }
    MadeIsWellFormed(batches, BatchGroups(ops));
    HashedAll(batches, BatchGroups(ops));
  }
}
