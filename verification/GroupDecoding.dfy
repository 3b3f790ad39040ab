/**
 What the group values of a span say about its operations: opcodes and immediate values can be read
 off again, NOOPs and arguments that are not encoded cannot.
 */
module GroupDecoding {
  import opened Results
  import opened Mast
  import opened OpBatching

  /** What is encoded of an operation: its opcode and its immediate value. */
  function View(op: Operation): (nat, nat) {
    (op.OpCode(), if op.HasImm() then op.imm else 0)
  }

  /** What is encoded of some operations, NOOPs left out. */
  function Views(ops: seq<Operation>): seq<(nat, nat)> {
    if ops == [] then [] else (if ops[0].Noop? then [] else [View(ops[0])]) + Views(ops[1..])
  }

  lemma {:induction false} ViewsConcat(xs: seq<Operation>, ys: seq<Operation>)
    ensures Views(xs + ys) == Views(xs) + Views(ys)
  {
    if xs == [] {
      assert xs + ys == ys;
    } else {
      assert (xs + ys)[1..] == xs[1..] + ys;
      ViewsConcat(xs[1..], ys);
    }
  }

  // Decoding

  /** Opcodes in a group value; a zero is a NOOP or the end. */
  function Opcodes(value: nat): seq<nat> {
    if value == 0 then [] else (if value % 128 == 0 then [] else [value % 128]) + Opcodes(value / 128)
  }

  /** How many of the operations have an immediate value. */
  function Pushes(codes: seq<nat>): nat {
    if codes == [] then 0 else (if codes[0] == 100 then 1 else 0) + Pushes(codes[1..])
  }

  /** Gives the immediate values to the operations that have one. */
  function Attach(codes: seq<nat>, imms: seq<nat>): seq<(nat, nat)> {
    if codes == [] then []
    else if codes[0] == 100 && imms != [] then [(100, imms[0])] + Attach(codes[1..], imms[1..])
    else [(codes[0], 0)] + Attach(codes[1..], imms)
  }

  /** Reads group by group: opcodes, and as many immediate values in the slots that follow. */
  function Decode(values: seq<nat>): seq<(nat, nat)> {
    if values == [] then []
    else
      var codes := Opcodes(values[0]);
      var next := 1 + Pushes(codes);
      if next > |values| then [] else Attach(codes, values[1..next]) + Decode(values[next..])
  }

  // Decoding one group

  function CodesOf(ops: seq<Operation>): seq<nat> {
    if ops == [] then [] else (if ops[0].Noop? then [] else [ops[0].OpCode() as nat]) + CodesOf(ops[1..])
  }

  lemma {:induction false} OpcodesOfGroup(g: seq<Operation>)
    ensures Opcodes(Encode(g)) == CodesOf(g)
  {
    if g != [] {
      OpcodesOfGroup(g[1..]);
      DigitsOf(g[0].OpCode(), Encode(g[1..]));
    }
  }

  lemma DigitsOf(code: Opcode, rest: nat)
    ensures (code + 128 * rest) % 128 == code && (code + 128 * rest) / 128 == rest
  {
  }

  lemma {:induction false} ImmsCons(g: seq<Operation>)
    requires g != []
    ensures Imms(g) == (if g[0].HasImm() then [g[0].imm as nat] else []) + Imms(g[1..])
  {
    if |g| == 1 {
      assert g[..0] == [] && g[1..] == [];
    } else {
      var init := g[..|g| - 1];
      ImmsCons(init);
      assert init[1..] == g[1..][..|g| - 2];
    }
  }

  lemma {:induction false} AttachGroup(g: seq<Operation>)
    ensures Pushes(CodesOf(g)) == |Imms(g)| && Attach(CodesOf(g), Imms(g)) == Views(g)
  {
    if g != [] {
      var codes, imms := CodesOf(g[1..]), Imms(g[1..]);
      AttachGroup(g[1..]);
      ImmsCons(g);
      if g[0].Noop? {
        assert CodesOf(g) == codes && Imms(g) == imms;
      } else {
        assert CodesOf(g)[0] == g[0].OpCode() && CodesOf(g)[1..] == codes;
        if g[0].HasImm() {
          assert Imms(g)[0] == g[0].imm && Imms(g)[1..] == imms;
        } else {
          assert Imms(g) == imms && g[0].OpCode() != 100;
        }
      }
    }
  }

  lemma DecodeGroup(g: seq<Operation>, rest: seq<nat>)
    ensures Decode([Encode(g)] + Imms(g) + rest) == Views(g) + Decode(rest)
  {
    var values := [Encode(g)] + Imms(g) + rest;
    OpcodesOfGroup(g);
    AttachGroup(g);
    assert values[1..1 + |Imms(g)|] == Imms(g) && values[1 + |Imms(g)|..] == rest;
  }

  // Decoding batches

  lemma {:induction false} DecodeZeros(n: nat, rest: seq<nat>)
    ensures Decode(Filled(0, n) + rest) == Decode(rest)
  {
    ZerosThenRest(n, rest);
    if n > 0 {
      DecodeZeros(n - 1, rest);
      DecodeZero(Filled(0, n - 1) + rest);
    }
  }

  lemma ZerosThenRest(n: nat, rest: seq<nat>)
    ensures Filled(0, n) + rest == if n == 0 then rest else [0] + (Filled(0, n - 1) + rest)
  {
  }

  lemma DecodeZero(rest: seq<nat>)
    ensures Decode([0] + rest) == Decode(rest)
  {
    var values := [0] + rest;
    assert values[1..] == rest && values[1..1] == [];
    assert Attach([], []) + Decode(rest) == Decode(rest);
  }

  lemma {:induction false} DecodeSlots(gs: seq<seq<Operation>>, rest: seq<nat>)
    ensures Decode(Slots(gs) + rest) == Views(Flat(gs)) + Decode(rest)
  {
    if gs == [] {
      assert Slots(gs) + rest == rest;
    } else {
      var init, g := gs[..|gs| - 1], gs[|gs| - 1];
      SlotsThenRest(gs, rest);
      DecodeSlots(init, [Encode(g)] + Imms(g) + rest);
      DecodeGroup(g, rest);
      ViewsConcat(Flat(init), g);
      Associate(Views(Flat(init)), Views(g), Decode(rest));
    }
  }

  lemma SlotsThenRest(gs: seq<seq<Operation>>, rest: seq<nat>)
    requires gs != []
    ensures var init, g := gs[..|gs| - 1], gs[|gs| - 1];
            Slots(gs) + rest == Slots(init) + ([Encode(g)] + Imms(g) + rest)
  {
  }

  lemma DecodePadded(gs: seq<seq<Operation>>, rest: seq<nat>)
    ensures Decode(Padded(gs) + rest) == Views(Flat(gs)) + Decode(rest)
  {
    var n := if |Slots(gs)| <= BATCH_SIZE then BATCH_SIZE - |Slots(gs)| else 0;
    var zeros := Filled(0, n);
    Associate(Slots(gs), zeros, rest);
    DecodeSlots(gs, zeros + rest);
    DecodeZeros(n, rest);
  }

  /** The operations of consecutive batches. */
  function FlatAll(batches: seq<seq<seq<Operation>>>): seq<Operation> {
    if batches == [] then [] else FlatAll(batches[..|batches| - 1]) + Flat(batches[|batches| - 1])
  }

  lemma {:induction false} DecodeAll(batches: seq<seq<seq<Operation>>>, rest: seq<nat>)
    ensures Decode(AllPadded(batches) + rest) == Views(FlatAll(batches)) + Decode(rest)
  {
    if batches == [] {
      assert AllPadded(batches) + rest == rest;
    } else {
      var init, gs := batches[..|batches| - 1], batches[|batches| - 1];
      Associate(AllPadded(init), Padded(gs), rest);
      DecodeAll(init, Padded(gs) + rest);
      DecodePadded(gs, rest);
      ViewsConcat(FlatAll(init), Flat(gs));
      Associate(Views(FlatAll(init)), Views(Flat(gs)), Decode(rest));
    }
  }

  // Packing keeps the operations

  function PackedOps(p: Packing): seq<Operation> {
    FlatAll(p.full) + Flat(p.finished) + p.current
  }

  lemma FlatSnoc(gs: seq<seq<Operation>>, g: seq<Operation>)
    ensures Flat(gs + [g]) == Flat(gs) + g
  {
    assert (gs + [g])[..|gs|] == gs;
  }

  lemma FlatAllSnoc(batches: seq<seq<seq<Operation>>>, gs: seq<seq<Operation>>)
    ensures FlatAll(batches + [gs]) == FlatAll(batches) + Flat(gs)
  {
    assert (batches + [gs])[..|batches|] == batches;
  }

  lemma PackIntoOps(p: Packing, op: Operation)
    ensures PackedOps(PackInto(p, op)) == PackedOps(p) + [op]
  {
    var full, finished := FlatAll(p.full), Flat(p.finished);
    FlatSnoc(p.finished, p.current);
    Associate(full, finished, p.current);
    Associate(full + finished, p.current, [op]);
  }

  lemma NextBatchOps(p: Packing)
    ensures PackedOps(NextBatch(p)) == PackedOps(p)
    ensures FlatAll(NextBatch(p).full) == PackedOps(p)
  {
    FlatSnoc(p.finished, p.current);
    FlatAllSnoc(p.full, p.finished + [p.current]);
    Associate(FlatAll(p.full), Flat(p.finished), p.current);
  }

  lemma PackOps(p: Packing, op: Operation)
    ensures PackedOps(Pack(p, op)) == PackedOps(p) + [op]
  {
    NextBatchOps(p);
    PackIntoOps(if Fits(p.finished, p.current, op) then p else NextBatch(p), op);
  }

  lemma {:induction false} PackAllOps(ops: seq<Operation>)
    ensures PackedOps(PackAll(ops)) == ops
  {
    if ops == [] {
      assert PackedOps(Packing([], [], [])) == [];
    } else {
      PackAllOps(ops[..|ops| - 1]);
      PackLast(ops, PackAll(ops[..|ops| - 1]));
    }
  }

  lemma PackLast(ops: seq<Operation>, p: Packing)
    requires ops != [] && PackedOps(p) == ops[..|ops| - 1]
    ensures PackedOps(Pack(p, ops[|ops| - 1])) == ops
  {
    PackOps(p, ops[|ops| - 1]);
  }

  /** Round trip: what is encoded of a span's operations can be read off its group values. */
  lemma DecodeGroupValues(ops: seq<Operation>)
    ensures Decode(GroupValues(ops)) == Views(ops)
  {
    PackAllOps(ops);
    NextBatchOps(PackAll(ops));
    DecodeAll(BatchGroups(ops), []);
    assert GroupValues(ops) + [] == GroupValues(ops);
    assert Views(ops) + [] == Views(ops);
  }

  /** Spans with the same group values have the same operations, up to NOOPs and arguments not encoded. */
  lemma SameGroupsSameViews(xs: seq<Operation>, ys: seq<Operation>)
    requires GroupValues(xs) == GroupValues(ys)
    ensures Views(xs) == Views(ys)
  {
    DecodeGroupValues(xs);
    DecodeGroupValues(ys);
  }
}
