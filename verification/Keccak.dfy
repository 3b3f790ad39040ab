/** The Keccak sponge on 25 lanes of 64 bits, as the incremental and the one-shot functions work it. */
module Keccak {
  import opened Lanes
  import opened Sponges

  type Permutation = seq<Lane> -> seq<Lane>

  ghost predicate KeepsLanes(permute: Permutation) {
    forall s: seq<Lane> :: |s| == LANES ==> |permute(s)| == LANES
  }

  /** Xors byte `k` of a lane, in little-endian order. */
  function Put(x: Lane, k: nat, b: Byte): Lane {
    if k < 8 then x ^ Shifted(b, k) else x
  }

  function Get(x: Lane, k: nat): Byte {
    if k < 8 then ByteOf(x, k) else 0
  }

  function KeccakCore(permute: Permutation): Core<Lane> {
    Core(permute, Put, Get)
  }

  lemma KeccakProper(permute: Permutation)
    requires KeepsLanes(permute)
    ensures Proper(KeccakCore(permute))
  {
    var c := KeccakCore(permute);
    forall x: Lane, k: nat, b: Byte, j: nat | k < 8 && j < 8
      ensures PutGet(c, x, k, b, j)
    {
      KeccakPutGet(permute, x, k, b, j);
    }
    forall x: Lane, y: Lane
      ensures SameLane(c, x, y)
    {
      KeccakSameLane(permute, x, y);
    }
  }

  lemma KeccakPutGet(permute: Permutation, x: Lane, k: nat, b: Byte, j: nat)
    requires k < 8 && j < 8
    ensures PutGet(KeccakCore(permute), x, k, b, j)
  {
    PutChangesByte(x, k, b, j);
    var c := KeccakCore(permute);
    var y := Put(x, k, b);
    assert c.put(x, k, b) == y;
    assert c.get(y, j) == Get(y, j);
    assert c.get(x, j) == Get(x, j);
  }

  lemma PutChangesByte(x: Lane, k: nat, b: Byte, j: nat)
    requires k < 8 && j < 8
    ensures Get(Put(x, k, b), j) == Get(x, j) ^ (if j == k then b else 0)
  {
    XorShifted(x, k, b, j);
  }

  lemma KeccakSameLane(permute: Permutation, x: Lane, y: Lane)
    ensures SameLane(KeccakCore(permute), x, y)
  {
    var c := KeccakCore(permute);
    if forall j :: 0 <= j < 8 ==> c.get(x, j) == c.get(y, j) {
      forall j | 0 <= j < 8
        ensures ByteOf(x, j) == ByteOf(y, j)
      {
        assert c.get(x, j) == c.get(y, j);
      }
      SameBytes(x, y);
    }
  }

  /** Xoring a word into a lane is xoring in its bytes. */
  lemma WordXor(permute: Permutation, x: Lane, y: Lane, bytes: seq<Byte>)
    requires KeepsLanes(permute) && |bytes| == 8
    requires forall k :: 0 <= k < 8 ==> ByteOf(y, k) == bytes[k]
    ensures x ^ y == PutAll(KeccakCore(permute), x, bytes)
  {
    var c := KeccakCore(permute);
    KeccakProper(permute);
    var z := PutAll(c, x, bytes);
    forall j | 0 <= j < 8
      ensures c.get(x ^ y, j) == c.get(z, j)
    {
      XorValue(x, y, j, bytes[j]);
      PutAllGet(c, x, bytes, j);
    }
    assert SameLane(c, x ^ y, z);
  }

  lemma LoadedXor(permute: Permutation, x: Lane, bytes: seq<Byte>)
    requires KeepsLanes(permute) && |bytes| == 8
    ensures x ^ Loaded(bytes) == PutAll(KeccakCore(permute), x, bytes)
  {
    var y := Loaded(bytes);
    forall k | 0 <= k < 8
      ensures ByteOf(y, k) == bytes[k]
    {
      ByteOfLoaded(bytes, k);
    }
    WordXor(permute, x, y, bytes);
  }

  // Specifications, for lanes of 64 bits

  ghost predicate ValidState(permute: Permutation, r: nat, s: Sponge<Lane>) {
    KeepsLanes(permute) && ValidRate(r) && ValidSponge(r, s)
  }

  /** The state after absorbing a message byte by byte. */
  ghost function Absorbed(permute: Permutation, r: nat, s: Sponge<Lane>, m: seq<Byte>): (t: Sponge<Lane>)
    requires ValidState(permute, r, s)
    ensures ValidState(permute, r, t)
  {
    KeccakProper(permute);
    FeedAll(KeccakCore(permute), r, s, m)
  }

  ghost function Output(permute: Permutation, r: nat, s: Sponge<Lane>, n: nat): (h: seq<Byte>)
    requires ValidState(permute, r, s)
    ensures |h| == n
  {
    KeccakProper(permute);
    Squeezed(KeccakCore(permute), r, s, n)
  }

  ghost function AfterOutput(permute: Permutation, r: nat, s: Sponge<Lane>, n: nat): (t: Sponge<Lane>)
    requires ValidState(permute, r, s)
    ensures ValidState(permute, r, t)
  {
    KeccakProper(permute);
    After(KeccakCore(permute), r, s, n)
  }

  /** Absorbing up to the end of the current block. */
  lemma AbsorbToBlockEnd(permute: Permutation, r: nat, start: Sponge<Lane>, s: Sponge<Lane>, m: seq<Byte>, done: nat, next: nat)
    requires ValidState(permute, r, start) && done <= next <= |m| && s == Absorbed(permute, r, start, m[..done])
    requires next - done + s.count == r
    ensures Absorbed(permute, r, start, m[..next]) ==
            Sponge(permute(XorBytes(KeccakCore(permute), s.lanes, s.count, m[done..next])), 0)
  {
    KeccakProper(permute);
    FeedToBlockEnd(KeccakCore(permute), r, start, s, m, done, next);
  }

  /** Absorbing what does not fill a block. */
  lemma AbsorbRest(permute: Permutation, r: nat, start: Sponge<Lane>, s: Sponge<Lane>, m: seq<Byte>, done: nat)
    requires ValidState(permute, r, start) && done <= |m| && s == Absorbed(permute, r, start, m[..done])
    requires |m| - done + s.count < r
    ensures Absorbed(permute, r, start, m) ==
            Sponge(XorBytes(KeccakCore(permute), s.lanes, s.count, m[done..]), s.count + (|m| - done))
  {
    KeccakProper(permute);
    FeedToPartial(KeccakCore(permute), r, start, m[..done], m[done..]);
    assert m == m[..done] + m[done..];
  }

  /** The bytes `h` have been squeezed from `start`, and the state is now `s`. */
  ghost predicate Emitted(permute: Permutation, r: nat, start: Sponge<Lane>, h: seq<Byte>, s: Sponge<Lane>) {
    && ValidState(permute, r, start)
    && h == Output(permute, r, start, |h|) && s == AfterOutput(permute, r, start, |h|)
  }

  lemma EmitLeft(permute: Permutation, r: nat, start: Sponge<Lane>, n: nat)
    requires ValidState(permute, r, start) && n <= start.count
    ensures Emitted(permute, r, start, BytesOf(KeccakCore(permute), start.lanes, r - start.count, r - start.count + n),
                    Sponge(start.lanes, start.count - n))
  {
    OutputLeft(permute, r, start, n);
  }

  lemma EmitNext(permute: Permutation, r: nat, start: Sponge<Lane>, h: seq<Byte>, s: Sponge<Lane>, n: nat)
    requires Emitted(permute, r, start, h, s) && s.count == 0 && 0 < n <= r
    ensures Emitted(permute, r, start, h + BytesOf(KeccakCore(permute), permute(s.lanes), 0, n), Sponge(permute(s.lanes), r - n))
  {
    OutputNextBlock(permute, r, start, s, |h|, n, |h| + n);
  }

  /** Squeezing what is left of a block. */
  lemma OutputLeft(permute: Permutation, r: nat, s: Sponge<Lane>, n: nat)
    requires ValidState(permute, r, s) && n <= s.count
    ensures Output(permute, r, s, n) == BytesOf(KeccakCore(permute), s.lanes, r - s.count, r - s.count + n)
    ensures AfterOutput(permute, r, s, n) == Sponge(s.lanes, s.count - n)
  {
    KeccakProper(permute);
    SqueezeLeft(KeccakCore(permute), r, s, n);
  }

  /** Squeezing from a new block. */
  lemma OutputNextBlock(permute: Permutation, r: nat, start: Sponge<Lane>, s: Sponge<Lane>, done: nat, n: nat, k: nat)
    requires ValidState(permute, r, start) && s == AfterOutput(permute, r, start, done)
    requires s.count == 0 && 0 < n <= r && k == done + n
    ensures Output(permute, r, start, k) ==
            Output(permute, r, start, done) + BytesOf(KeccakCore(permute), permute(s.lanes), 0, n)
    ensures AfterOutput(permute, r, start, k) == Sponge(permute(s.lanes), r - n)
  {
    KeccakProper(permute);
    SqueezeFresh(KeccakCore(permute), r, s.lanes, n);
    SqueezeConcat(KeccakCore(permute), r, start, done, n, k);
  }

  /** The bytes of the state are those of its lanes in order, the least significant first. */
  lemma StateBytes(permute: Permutation, s: seq<Lane>, i: nat)
    requires |s| == LANES && i < LANES
    ensures var c, n := KeccakCore(permute), 8 * i;
            s[i] == ByteAt(c, s, n) as Lane + ByteAt(c, s, n + 1) as Lane * 0x100 +
                    ByteAt(c, s, n + 2) as Lane * 0x1_0000 + ByteAt(c, s, n + 3) as Lane * 0x100_0000 +
                    ByteAt(c, s, n + 4) as Lane * 0x1_0000_0000 + ByteAt(c, s, n + 5) as Lane * 0x100_0000_0000 +
                    ByteAt(c, s, n + 6) as Lane * 0x1_0000_0000_0000 + ByteAt(c, s, n + 7) as Lane * 0x100_0000_0000_0000
  {
    var c, n := KeccakCore(permute), 8 * i;
    forall k: nat | k < 8
      ensures ByteAt(c, s, n + k) == ByteOf(s[i], k)
    {
      assert (n + k) / 8 == i && (n + k) % 8 == k;
    }
    BytesOfLane(s[i]);
  }

  // The incremental functions

  class KeccakContext {
    const r: nat
    const permute: Permutation
    const lanes: array<Lane>
    /** Bytes xored in since the last permutation or, when squeezing, not yet squeezed. */
    var count: nat

    ghost predicate Valid()
      reads this, lanes
    {
      lanes.Length == LANES && ValidState(permute, r, State())
    }

    function State(): Sponge<Lane>
      reads this, lanes
    {
      Sponge(lanes[..], count)
    }

    constructor IncInit(permute: Permutation, r: nat)
      requires KeepsLanes(permute) && ValidRate(r)
      ensures Valid() && fresh(lanes) && this.permute == permute && this.r == r
      ensures State() == Sponge(ZeroLanes(), 0) && count == 0 && forall i :: 0 <= i < 25 ==> lanes[i] == 0
    {
      this.permute, this.r, count := permute, r, 0;
      lanes := new Lane[LANES](_ => 0);
      new;
      assert lanes[..] == ZeroLanes();
    }

    /** Xors bytes into the state after those already there. */
    method XorInto(bytes: seq<Byte>)
      requires lanes.Length == LANES && count + |bytes| <= STATE_BYTES
      modifies lanes
      ensures lanes[..] == XorBytes(KeccakCore(permute), old(lanes[..]), count, bytes)
    {
      for i := 0 to |bytes|
        invariant lanes[..] == XorBytes(KeccakCore(permute), old(lanes[..]), count, bytes[..i])
      {
        XorNext(bytes, i, old(lanes[..]));
      }
      assert bytes[..|bytes|] == bytes;
    }

    method XorNext(bytes: seq<Byte>, i: nat, ghost was: seq<Lane>)
      requires lanes.Length == LANES == |was| && i < |bytes| && count + |bytes| <= STATE_BYTES
      requires lanes[..] == XorBytes(KeccakCore(permute), was, count, bytes[..i])
      modifies lanes
      ensures lanes[..] == XorBytes(KeccakCore(permute), was, count, bytes[..i + 1])
    {
      XorBytesNext(KeccakCore(permute), was, count, bytes, i);
      XorAt(count + i, bytes[i], XorBytes(KeccakCore(permute), was, count, bytes[..i + 1]));
    }

    method XorAt(pos: nat, b: Byte, ghost next: seq<Lane>)
      requires lanes.Length == LANES && pos < STATE_BYTES && next == XorByte(KeccakCore(permute), lanes[..], pos, b)
      modifies lanes
      ensures lanes[..] == next
    {
      lanes[pos / 8] := Put(lanes[pos / 8], pos % 8, b);
    }

    /** Absorbs a message as if byte by byte; less than a block is ever pending. */
    method IncAbsorb(m: seq<Byte>)
      requires Valid()
      modifies this, lanes
      ensures Valid() && State() == Absorbed(permute, r, old(State()), m)
    {
      ghost var start := State();
      var done := 0;
      while |m| - done + count >= r
        invariant Valid() && 0 <= done <= |m|
        invariant State() == Absorbed(permute, r, start, m[..done])
        decreases |m| - done
      {
        done := AbsorbBlock(start, m, done);
      }
      AbsorbRest(permute, r, start, State(), m, done);
      XorInto(m[done..]);
      count := count + (|m| - done);
    }

    /** One round of the loop: absorbs up to the end of the current block. */
    method AbsorbBlock(ghost start: Sponge<Lane>, m: seq<Byte>, done: nat) returns (next: nat)
      requires Valid() && ValidState(permute, r, start) && done <= |m| && |m| - done + count >= r
      requires State() == Absorbed(permute, r, start, m[..done])
      modifies this, lanes
      ensures Valid() && count == 0 && next == done + (r - old(count)) && done < next <= |m|
      ensures State() == Absorbed(permute, r, start, m[..next])
    {
      next := done + (r - count);
      AbsorbToBlockEnd(permute, r, start, State(), m, done, next);
      FillBlock(m[done..next]);
    }

    /** Completes the current block and permutes the state. */
    method FillBlock(bytes: seq<Byte>)
      requires Valid() && count + |bytes| == r
      modifies this, lanes
      ensures Valid() && State() == Sponge(permute(XorBytes(KeccakCore(permute), old(lanes[..]), old(count), bytes)), 0)
    {
      XorInto(bytes);
      count := 0;
      PermuteLanes(permute, lanes);
    }

    method IncFinalize(p: Byte)
      requires Valid()
      modifies this, lanes
      ensures Valid() && State() == Finalized(KeccakCore(permute), r, old(State()), p)
    {
      lanes[count / 8] := Put(lanes[count / 8], count % 8, p);
      lanes[(r - 1) / 8] := Put(lanes[(r - 1) / 8], (r - 1) % 8, 128);
      count := 0;
    }

    method ReadBytes(start: nat, n: nat) returns (h: seq<Byte>)
      requires lanes.Length == LANES && start + n <= STATE_BYTES
      ensures h == BytesOf(KeccakCore(permute), lanes[..], start, start + n)
    {
      h := [];
      for i := 0 to n
        invariant h == BytesOf(KeccakCore(permute), lanes[..], start, start + i)
      {
        var pos := start + i;
        BytesSnoc(KeccakCore(permute), lanes[..], start, pos);
        assert ByteAt(KeccakCore(permute), lanes[..], pos) == Get(lanes[pos / 8], pos % 8);
        h := h + [Get(lanes[pos / 8], pos % 8)];
      }
    }

    /** Squeezes bytes as if one by one. */
    method IncSqueeze(outlen: nat) returns (h: seq<Byte>)
      requires Valid()
      modifies this, lanes
      ensures Valid()
      ensures h == Output(permute, r, old(State()), outlen)
      ensures State() == AfterOutput(permute, r, old(State()), outlen)
    {
      ghost var start := State();
      var n := if outlen < count then outlen else count;
      EmitLeft(permute, r, start, n);
      h := ReadBytes(r - count, n);
      count := count - n;
      while |h| < outlen
        invariant Valid() && |h| <= outlen && (|h| < outlen ==> count == 0)
        invariant Emitted(permute, r, start, h, State())
        decreases outlen - |h|
      {
        var k := if outlen - |h| < r then outlen - |h| else r;
        EmitNext(permute, r, start, h, State(), k);
        var block := NextBlock(k);
        h := h + block;
      }
    }

    /** Permutes the state and squeezes the first bytes of the new block. */
    method NextBlock(k: nat) returns (h: seq<Byte>)
      requires Valid() && 0 < k <= r
      modifies this, lanes
      ensures Valid() && State() == Sponge(permute(old(lanes[..])), r - k)
      ensures h == BytesOf(KeccakCore(permute), permute(old(lanes[..])), 0, k)
    {
      PermuteLanes(permute, lanes);
      h := ReadBytes(0, k);
      count := r - k;
    }
  }

  function ZeroLanes(): (s: seq<Lane>)
    ensures |s| == LANES
  {
    seq(LANES, _ => 0)
  }

  lemma ZeroLanesAre(i: nat)
    requires i < 25
    ensures |ZeroLanes()| == 25 && ZeroLanes()[i] == 0
  {
  }

  // The one-shot functions

  ghost function OneShot(permute: Permutation, r: nat, lanes: seq<Lane>, m: seq<Byte>, p: Byte): (t: seq<Lane>)
    requires ValidState(permute, r, Sponge(lanes, 0))
    ensures |t| == LANES
  {
    KeccakProper(permute);
    AbsorbBlocks(KeccakCore(permute), r, lanes, m, p)
  }

  method Zero(s: array<Lane>)
    requires s.Length == LANES
    modifies s
    ensures s[..] == ZeroLanes()
  {
    for i := 0 to LANES
      invariant s[..i] == ZeroLanes()[..i]
    {
      s[i] := 0;
    }
  }

  method PermuteLanes(permute: Permutation, s: array<Lane>)
    requires KeepsLanes(permute) && s.Length == LANES
    modifies s
    ensures s[..] == permute(old(s[..]))
  {
    var next := permute(s[..]);
    for i := 0 to LANES
      invariant s[..i] == next[..i]
    {
      s[i] := next[i];
    }
  }

  lemma XorLaneAfter(permute: Permutation, s: seq<Lane>, before: seq<Byte>, chunk: seq<Byte>, i: nat)
    requires KeepsLanes(permute) && |s| == LANES && i < LANES && |before| == 8 * i && |chunk| == 8
    ensures var t := XorBytes(KeccakCore(permute), s, 0, before);
            XorBytes(KeccakCore(permute), s, 0, before + chunk) == t[i := t[i] ^ Loaded(chunk)]
  {
    var c := KeccakCore(permute);
    var t := XorBytes(c, s, 0, before);
    XorBytesConcat(c, s, 0, before, chunk);
    XorBytesInLane(c, t, i, chunk);
    LoadedXor(permute, t[i], chunk);
  }

  /** Xors a block into the state, lane by lane. */
  method XorBlock(permute: Permutation, s: array<Lane>, block: seq<Byte>)
    requires KeepsLanes(permute) && s.Length == LANES && ValidRate(|block|)
    modifies s
    ensures s[..] == XorBytes(KeccakCore(permute), old(s[..]), 0, block)
  {
    for i := 0 to |block| / 8
      invariant s[..] == XorBytes(KeccakCore(permute), old(s[..]), 0, block[..8 * i])
    {
      XorLane(permute, s, block, i, old(s[..]));
    }
    assert block[..8 * (|block| / 8)] == block;
  }

  method XorLane(permute: Permutation, s: array<Lane>, block: seq<Byte>, i: nat, ghost was: seq<Lane>)
    requires KeepsLanes(permute) && s.Length == LANES == |was| && |block| <= STATE_BYTES && 8 * i + 8 <= |block|
    requires s[..] == XorBytes(KeccakCore(permute), was, 0, block[..8 * i])
    modifies s
    ensures s[..] == XorBytes(KeccakCore(permute), was, 0, block[..8 * (i + 1)])
  {
    var chunk := block[8 * i..8 * i + 8];
    XorLaneAfter(permute, was, block[..8 * i], chunk, i);
    assert block[..8 * (i + 1)] == block[..8 * i] + chunk;
    var w := Load64(chunk);
    XorWord(s, i, w, XorBytes(KeccakCore(permute), was, 0, block[..8 * (i + 1)]));
  }

  method XorWord(s: array<Lane>, i: nat, w: Lane, ghost next: seq<Lane>)
    requires i < s.Length && next == s[..][i := s[i] ^ w]
    modifies s
    ensures s[..] == next
  {
    s[i] := s[i] ^ w;
  }

  method PadLastBlock(r: nat, m: seq<Byte>, p: Byte) returns (block: seq<Byte>)
    requires |m| < r <= STATE_BYTES
    ensures block == LastBlock(r, m, p)
  {
    var t := new Byte[STATE_BYTES](_ => 0);
    for i := 0 to r
      invariant forall j :: 0 <= j < i ==> t[j] == 0
    {
      t[i] := 0;
    }
    for i := 0 to |m|
      invariant forall j :: 0 <= j < i ==> t[j] == m[j]
      invariant forall j :: i <= j < r ==> t[j] == 0
    {
      t[i] := m[i];
    }
    t[|m|] := p;
    assert t[..r] == m + [p] + Zeros(r - |m| - 1);
    t[r - 1] := t[r - 1] | 128;
    block := t[..r];
  }

  lemma OneShotStep(permute: Permutation, r: nat, lanes: seq<Lane>, m: seq<Byte>, done: nat, p: Byte)
    requires ValidState(permute, r, Sponge(lanes, 0)) && done + r <= |m|
    ensures OneShot(permute, r, lanes, m[done..], p) ==
            OneShot(permute, r, permute(XorBytes(KeccakCore(permute), lanes, 0, m[done..done + r])), m[done + r..], p)
  {
    KeccakProper(permute);
    assert m[done..][..r] == m[done..done + r] && m[done..][r..] == m[done + r..];
  }

  lemma OneShotEnd(permute: Permutation, r: nat, lanes: seq<Lane>, m: seq<Byte>, p: Byte)
    requires ValidState(permute, r, Sponge(lanes, 0)) && |m| < r
    ensures OneShot(permute, r, lanes, m, p) == XorBytes(KeccakCore(permute), lanes, 0, LastBlock(r, m, p))
  {
    KeccakProper(permute);
  }

  /** Absorbs a whole message and its padding; the last block is left to be permuted. */
  method KeccakAbsorb(permute: Permutation, r: nat, s: array<Lane>, m: seq<Byte>, p: Byte)
    requires KeepsLanes(permute) && s.Length == LANES && ValidRate(r)
    modifies s
    ensures s[..] == OneShot(permute, r, ZeroLanes(), m, p)
  {
    Zero(s);
    AbsorbFrom(permute, r, s, m, p);
  }

  method AbsorbFrom(permute: Permutation, r: nat, s: array<Lane>, m: seq<Byte>, p: Byte)
    requires KeepsLanes(permute) && s.Length == LANES && ValidRate(r)
    modifies s
    ensures s[..] == OneShot(permute, r, old(s[..]), m, p)
  {
    ghost var result := OneShot(permute, r, s[..], m, p);
    var done := 0;
    while |m| - done >= r
      invariant 0 <= done <= |m|
      invariant OneShot(permute, r, s[..], m[done..], p) == result
    {
      MixNext(permute, r, s, m, done, p);
      done := done + r;
    }
    AbsorbLast(permute, r, s, m[done..], p);
  }

  /** One round of the loop: absorbs a whole block, which leaves the result for what follows as it was. */
  method MixNext(permute: Permutation, r: nat, s: array<Lane>, m: seq<Byte>, done: nat, ghost p: Byte)
    requires KeepsLanes(permute) && s.Length == LANES && ValidRate(r) && done + r <= |m|
    modifies s
    ensures OneShot(permute, r, s[..], m[done + r..], p) == OneShot(permute, r, old(s[..]), m[done..], p)
  {
    OneShotStep(permute, r, s[..], m, done, p);
    XorBlock(permute, s, m[done..done + r]);
    PermuteLanes(permute, s);
  }

  method AbsorbLast(permute: Permutation, r: nat, s: array<Lane>, m: seq<Byte>, p: Byte)
    requires KeepsLanes(permute) && s.Length == LANES && ValidRate(r) && |m| < r
    modifies s
    ensures s[..] == OneShot(permute, r, old(s[..]), m, p)
  {
    OneShotEnd(permute, r, s[..], m, p);
    var block := PadLastBlock(r, m, p);
    XorBlock(permute, s, block);
  }

  /** The bytes of some lanes. */
  method StoreLanes(permute: Permutation, s: array<Lane>, n: nat) returns (h: seq<Byte>)
    requires s.Length == LANES && n <= LANES
    ensures h == BytesOf(KeccakCore(permute), s[..], 0, 8 * n)
  {
    h := [];
    for i := 0 to n
      invariant h == BytesOf(KeccakCore(permute), s[..], 0, 8 * i)
    {
      var x := s[i];
      StoredLane(permute, s[..], i);
      h := h + seq(8, k requires 0 <= k < 8 => Get(x, k));
    }
  }

  lemma StoredLane(permute: Permutation, s: seq<Lane>, i: nat)
    requires |s| == LANES && i < LANES
    ensures BytesOf(KeccakCore(permute), s, 0, 8 * i) + seq(8, k requires 0 <= k < 8 => Get(s[i], k)) ==
            BytesOf(KeccakCore(permute), s, 0, 8 * (i + 1))
  {
  }

  /** Squeezes whole blocks; no bytes are left over between calls. */
  method KeccakSqueezeBlocks(permute: Permutation, r: nat, s: array<Lane>, nblocks: nat) returns (h: seq<Byte>)
    requires KeepsLanes(permute) && s.Length == LANES && ValidRate(r)
    modifies s
    ensures |h| == nblocks * r && h == Output(permute, r, Sponge(old(s[..]), 0), |h|)
    ensures Sponge(s[..], 0) == AfterOutput(permute, r, Sponge(old(s[..]), 0), |h|)
  {
    h := [];
    ghost var start := Sponge(s[..], 0);
    OutputNothing(permute, r, start);
    for i := 0 to nblocks
      invariant |h| == i * r && Emitted(permute, r, start, h, Sponge(s[..], 0))
    {
      RoundLength(i, r);
      EmitNext(permute, r, start, h, Sponge(s[..], 0), r);
      var block := SqueezeBlock(permute, r, s);
      h := h + block;
    }
  }

  lemma RoundLength(i: nat, r: nat)
    ensures (i + 1) * r == i * r + r
  {
  }

  method SqueezeBlock(permute: Permutation, r: nat, s: array<Lane>) returns (block: seq<Byte>)
    requires KeepsLanes(permute) && s.Length == LANES && ValidRate(r)
    modifies s
    ensures s[..] == permute(old(s[..])) && block == BytesOf(KeccakCore(permute), s[..], 0, r)
  {
    PermuteLanes(permute, s);
    block := StoreLanes(permute, s, r / 8);
  }

  lemma OutputNothing(permute: Permutation, r: nat, s: Sponge<Lane>)
    requires ValidState(permute, r, s)
    ensures Output(permute, r, s, 0) == [] && AfterOutput(permute, r, s, 0) == s
  {
    KeccakProper(permute);
  }

  /** A shorter request returns the beginning of what a longer one returns. */
  lemma OutputPrefix(permute: Permutation, r: nat, s: Sponge<Lane>, m: nat, k: nat)
    requires ValidState(permute, r, s) && m <= k
    ensures Output(permute, r, s, k) == Output(permute, r, s, m) + Output(permute, r, AfterOutput(permute, r, s, m), k - m)
    ensures Output(permute, r, s, k)[..m] == Output(permute, r, s, m)
  {
    KeccakProper(permute);
    SqueezeConcat(KeccakCore(permute), r, s, m, k - m, k);
  }

  /** The one-shot SHAKE: what it returns is what squeezing byte by byte returns. */
  method Shake(permute: Permutation, r: nat, outlen: nat, m: seq<Byte>) returns (h: seq<Byte>)
    requires KeepsLanes(permute) && ValidRate(r)
    ensures h == Output(permute, r, Sponge(OneShot(permute, r, ZeroLanes(), m, 0x1F), 0), outlen)
  {
    var s := new Lane[LANES](_ => 0);
    KeccakAbsorb(permute, r, s, m, 0x1F);
    h := SqueezeAny(permute, r, s, outlen);
  }

  /** Squeezes whole blocks, then the beginning of one more. */
  method SqueezeAny(permute: Permutation, r: nat, s: array<Lane>, outlen: nat) returns (h: seq<Byte>)
    requires KeepsLanes(permute) && s.Length == LANES && ValidRate(r)
    modifies s
    ensures h == Output(permute, r, Sponge(old(s[..]), 0), outlen)
  {
    WholeBlocks(outlen, r);
    h := KeccakSqueezeBlocks(permute, r, s, outlen / r);
    if |h| < outlen {
      OutputPrefix(permute, r, Sponge(old(s[..]), 0), |h|, outlen);
      var last := SqueezeLess(permute, r, s, outlen - |h|);
      h := h + last;
    }
  }

  method SqueezeLess(permute: Permutation, r: nat, s: array<Lane>, n: nat) returns (h: seq<Byte>)
    requires KeepsLanes(permute) && s.Length == LANES && ValidRate(r) && n <= r
    modifies s
    ensures h == Output(permute, r, Sponge(old(s[..]), 0), n)
  {
    OutputPrefix(permute, r, Sponge(s[..], 0), n, r);
    var t := KeccakSqueezeBlocks(permute, r, s, 1);
    h := t[..n];
  }

  lemma WholeBlocks(n: nat, r: nat)
    requires r > 0
    ensures n / r * r <= n < n / r * r + r
  {
    assert n == n / r * r + n % r;
  }

  /**
   Whatever the pieces in which a message is absorbed and the output squeezed, the output is that of
   the one-shot functions, for domain bytes below 128.
   */
  lemma KeccakChunked(permute: Permutation, r: nat, pieces: seq<seq<Byte>>, p: Byte, lengths: seq<nat>)
    requires KeepsLanes(permute) && ValidRate(r) && p < 128
    ensures Proper(KeccakCore(permute))
    ensures var c := KeccakCore(permute);
            SqueezedPieces(c, r, Finalized(c, r, FeedPieces(c, r, Sponge(ZeroLanes(), 0), pieces), p), lengths) ==
            Output(permute, r, Sponge(OneShot(permute, r, ZeroLanes(), Flatten(pieces), p), 0), Total(lengths))
  {
    KeccakProper(permute);
    XofChunked(KeccakCore(permute), r, ZeroLanes(), pieces, p, lengths);
  }
}
