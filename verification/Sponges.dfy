/**
 Sponges over an arbitrary permutation of lanes of eight bytes: absorbing and squeezing one byte at
 a time, and how block functions and arbitrary pieces relate to that.
 */
module Sponges {
  import opened Results
  import opened Lanes
  import opened Powers

  /** What a sponge is made of: its permutation, and how bytes are xored into and read from a lane. */
  datatype Core<!L> = Core(permute: seq<L> -> seq<L>, put: (L, nat, Byte) -> L, get: (L, nat) -> Byte)

  const LANES: nat := 25
  const STATE_BYTES: nat := 200

  /** Xoring a byte into a lane changes only that byte, and the bytes of a lane determine it. */
  ghost predicate Proper<L(!new)>(c: Core<L>) {
    && (forall s: seq<L> :: |s| == LANES ==> |c.permute(s)| == LANES)
    && (forall x: L, k: nat, b: Byte, j: nat :: k < 8 && j < 8 ==> PutGet(c, x, k, b, j))
    && (forall x: L, y: L :: SameLane(c, x, y))
  }

  predicate PutGet<L>(c: Core<L>, x: L, k: nat, b: Byte, j: nat) {
    c.get(c.put(x, k, b), j) == c.get(x, j) ^ (if j == k then b else 0)
  }

  predicate SameLane<L(==)>(c: Core<L>, x: L, y: L) {
    (forall j :: 0 <= j < 8 ==> c.get(x, j) == c.get(y, j)) ==> x == y
  }

  lemma GetPut<L(!new)>(c: Core<L>, x: L, k: nat, b: Byte, j: nat)
    requires Proper(c) && k < 8 && j < 8
    ensures j == k ==> c.get(c.put(x, k, b), j) == c.get(x, j) ^ b
    ensures j != k ==> c.get(c.put(x, k, b), j) == c.get(x, j)
  {
    assert PutGet(c, x, k, b, j);
    XorZero(c.get(x, j));
  }

  lemma PutTwice<L(!new)>(c: Core<L>, x: L, k: nat, a: Byte, b: Byte)
    requires Proper(c) && k < 8
    ensures c.put(c.put(x, k, a), k, b) == c.put(x, k, a ^ b)
  {
    var y, z := c.put(c.put(x, k, a), k, b), c.put(x, k, a ^ b);
    forall j | 0 <= j < 8
      ensures c.get(y, j) == c.get(z, j)
    {
      GetPut(c, x, k, a, j);
      GetPut(c, c.put(x, k, a), k, b, j);
      GetPut(c, x, k, a ^ b, j);
      XorTwice(c.get(x, j), a, b);
    }
    assert SameLane(c, y, z);
  }

  lemma PutZero<L(!new)>(c: Core<L>, x: L, k: nat)
    requires Proper(c) && k < 8
    ensures c.put(x, k, 0) == x
  {
    var y := c.put(x, k, 0);
    forall j | 0 <= j < 8
      ensures c.get(y, j) == c.get(x, j)
    {
      assert PutGet(c, x, k, 0, j);
    }
    assert SameLane(c, y, x);
  }

  lemma PutInjective<L(!new)>(c: Core<L>, x: L, k: nat, a: Byte, b: Byte)
    requires Proper(c) && k < 8 && c.put(x, k, a) == c.put(x, k, b)
    ensures a == b
  {
    assert PutGet(c, x, k, a, k) && PutGet(c, x, k, b, k);
  }

  predicate ValidRate(r: nat) {
    0 < r <= STATE_BYTES && r % 8 == 0
  }

  // Xoring bytes into lanes

  function XorByte<L>(c: Core<L>, s: seq<L>, pos: nat, b: Byte): (t: seq<L>)
    requires |s| == LANES && pos < STATE_BYTES
    ensures |t| == LANES
  {
    s[pos / 8 := c.put(s[pos / 8], pos % 8, b)]
  }

  function XorBytes<L>(c: Core<L>, s: seq<L>, pos: nat, bytes: seq<Byte>): (t: seq<L>)
    requires |s| == LANES && pos + |bytes| <= STATE_BYTES
    ensures |t| == LANES
  {
    if bytes == [] then s
    else XorByte(c, XorBytes(c, s, pos, bytes[..|bytes| - 1]), pos + |bytes| - 1, bytes[|bytes| - 1])
  }

  lemma {:induction false} XorBytesSnoc<L>(c: Core<L>, s: seq<L>, pos: nat, xs: seq<Byte>, b: Byte)
    requires |s| == LANES && pos + |xs| < STATE_BYTES
    ensures XorBytes(c, s, pos, xs + [b]) == XorByte(c, XorBytes(c, s, pos, xs), pos + |xs|, b)
  {
    assert (xs + [b])[..|xs|] == xs;
  }

  lemma XorBytesNext<L>(c: Core<L>, s: seq<L>, pos: nat, bytes: seq<Byte>, i: nat)
    requires |s| == LANES && pos + |bytes| <= STATE_BYTES && i < |bytes|
    ensures XorBytes(c, s, pos, bytes[..i + 1]) == XorByte(c, XorBytes(c, s, pos, bytes[..i]), pos + i, bytes[i])
  {
    assert bytes[..i + 1] == bytes[..i] + [bytes[i]];
    XorBytesSnoc(c, s, pos, bytes[..i], bytes[i]);
  }

  lemma {:induction false} XorBytesConcat<L>(c: Core<L>, s: seq<L>, pos: nat, xs: seq<Byte>, ys: seq<Byte>)
    requires |s| == LANES && pos + |xs| + |ys| <= STATE_BYTES
    ensures XorBytes(c, s, pos, xs + ys) == XorBytes(c, XorBytes(c, s, pos, xs), pos + |xs|, ys)
  {
    if ys == [] {
      assert xs + ys == xs;
    } else {
      var init := ys[..|ys| - 1];
      assert (xs + ys)[..|xs + ys| - 1] == xs + init;
      XorBytesConcat(c, s, pos, xs, init);
    }
  }

  lemma {:induction false} XorZeros<L(!new)>(c: Core<L>, s: seq<L>, pos: nat, n: nat)
    requires Proper(c) && |s| == LANES && pos + n <= STATE_BYTES
    ensures XorBytes(c, s, pos, Zeros(n)) == s
  {
    if n > 0 {
      assert Zeros(n)[..n - 1] == Zeros(n - 1);
      XorZeros(c, s, pos, n - 1);
      PutZero(c, s[(pos + n - 1) / 8], (pos + n - 1) % 8);
    }
  }

  lemma XorByteTwice<L(!new)>(c: Core<L>, s: seq<L>, pos: nat, a: Byte, b: Byte)
    requires Proper(c) && |s| == LANES && pos < STATE_BYTES
    ensures XorByte(c, XorByte(c, s, pos, a), pos, b) == XorByte(c, s, pos, a ^ b)
  {
    PutTwice(c, s[pos / 8], pos % 8, a, b);
  }

  lemma XorByteInjective<L(!new)>(c: Core<L>, s: seq<L>, pos: nat, a: Byte, b: Byte)
    requires Proper(c) && |s| == LANES && pos < STATE_BYTES
    requires XorByte(c, s, pos, a) == XorByte(c, s, pos, b)
    ensures a == b
  {
    assert XorByte(c, s, pos, a)[pos / 8] == XorByte(c, s, pos, b)[pos / 8];
    PutInjective(c, s[pos / 8], pos % 8, a, b);
  }

  /** Bytes xored into one lane. */
  function PutAll<L>(c: Core<L>, x: L, bytes: seq<Byte>): L {
    if bytes == [] then x
    else c.put(PutAll(c, x, bytes[..|bytes| - 1]), |bytes| - 1, bytes[|bytes| - 1])
  }

  lemma {:induction false} XorBytesInLane<L>(c: Core<L>, s: seq<L>, i: nat, bytes: seq<Byte>)
    requires |s| == LANES && i < LANES && |bytes| <= 8
    ensures XorBytes(c, s, 8 * i, bytes) == s[i := PutAll(c, s[i], bytes)]
  {
    if bytes != [] {
      XorBytesInLane(c, s, i, bytes[..|bytes| - 1]);
    }
  }

  lemma {:induction false} PutAllGet<L(!new)>(c: Core<L>, x: L, bytes: seq<Byte>, j: nat)
    requires Proper(c) && |bytes| <= 8 && j < 8
    ensures c.get(PutAll(c, x, bytes), j) == if j < |bytes| then c.get(x, j) ^ bytes[j] else c.get(x, j)
  {
    if bytes != [] {
      var n := |bytes| - 1;
      PutAllGet(c, x, bytes[..n], j);
      assert PutGet(c, PutAll(c, x, bytes[..n]), n, bytes[n], j);
    }
  }

  // Absorbing, byte by byte

  /**
   An incremental state: the lanes, and the number of bytes xored in since the last permutation or,
   when squeezing, not yet squeezed.
   */
  datatype Sponge<L> = Sponge(lanes: seq<L>, count: nat)

  predicate ValidSponge<L>(r: nat, s: Sponge<L>) {
    |s.lanes| == LANES && s.count < r
  }

  ghost function Feed<L(!new)>(c: Core<L>, r: nat, s: Sponge<L>, b: Byte): (t: Sponge<L>)
    requires Proper(c) && ValidRate(r) && ValidSponge(r, s)
    ensures ValidSponge(r, t)
  {
    var lanes := XorByte(c, s.lanes, s.count, b);
    if s.count + 1 == r then Sponge(c.permute(lanes), 0) else Sponge(lanes, s.count + 1)
  }

  /** Absorbs a message one byte at a time. */
  ghost function FeedAll<L(!new)>(c: Core<L>, r: nat, s: Sponge<L>, m: seq<Byte>): (t: Sponge<L>)
    requires Proper(c) && ValidRate(r) && ValidSponge(r, s)
    ensures ValidSponge(r, t)
  {
    if m == [] then s else Feed(c, r, FeedAll(c, r, s, m[..|m| - 1]), m[|m| - 1])
  }

  lemma {:induction false} FeedAllConcat<L(!new)>(c: Core<L>, r: nat, s: Sponge<L>, xs: seq<Byte>, ys: seq<Byte>)
    requires Proper(c) && ValidRate(r) && ValidSponge(r, s)
    ensures FeedAll(c, r, s, xs + ys) == FeedAll(c, r, FeedAll(c, r, s, xs), ys)
  {
    if ys == [] {
      assert xs + ys == xs;
    } else {
      assert (xs + ys)[..|xs + ys| - 1] == xs + ys[..|ys| - 1];
      FeedAllConcat(c, r, s, xs, ys[..|ys| - 1]);
    }
  }

  /** As long as the block is not full, bytes are just xored in. */
  lemma {:induction false} FeedPartial<L(!new)>(c: Core<L>, r: nat, s: Sponge<L>, m: seq<Byte>)
    requires Proper(c) && ValidRate(r) && ValidSponge(r, s) && s.count + |m| < r
    ensures FeedAll(c, r, s, m) == Sponge(XorBytes(c, s.lanes, s.count, m), s.count + |m|)
  {
    if m != [] {
      FeedPartial(c, r, s, m[..|m| - 1]);
    }
  }

  /** The byte that fills the block triggers the permutation. */
  lemma {:induction false} FeedFull<L(!new)>(c: Core<L>, r: nat, s: Sponge<L>, m: seq<Byte>)
    requires Proper(c) && ValidRate(r) && ValidSponge(r, s) && s.count + |m| == r
    ensures FeedAll(c, r, s, m) == Sponge(c.permute(XorBytes(c, s.lanes, s.count, m)), 0)
  {
    FeedPartial(c, r, s, m[..|m| - 1]);
  }

  lemma {:induction false} FeedCount<L(!new)>(c: Core<L>, r: nat, s: Sponge<L>, m: seq<Byte>)
    requires Proper(c) && ValidRate(r) && ValidSponge(r, s)
    ensures FeedAll(c, r, s, m).count == Rest(s.count + |m|, r)
  {
    if m != [] {
      FeedCount(c, r, s, m[..|m| - 1]);
      RestStep(s.count + |m| - 1, r);
    }
  }

  /** Going on to the end of the current block. */
  lemma FeedToBlockEnd<L(!new)>(c: Core<L>, r: nat, start: Sponge<L>, s: Sponge<L>, m: seq<Byte>, done: nat, next: nat)
    requires Proper(c) && ValidRate(r) && ValidSponge(r, start)
    requires done <= next <= |m| && s == FeedAll(c, r, start, m[..done]) && next - done + s.count == r
    ensures FeedAll(c, r, start, m[..next]) == Sponge(c.permute(XorBytes(c, s.lanes, s.count, m[done..next])), 0)
  {
    assert m[..done] + m[done..next] == m[..next];
    FeedToFull(c, r, start, m[..done], m[done..next]);
  }

  lemma FeedToPartial<L(!new)>(c: Core<L>, r: nat, start: Sponge<L>, xs: seq<Byte>, ys: seq<Byte>)
    requires Proper(c) && ValidRate(r) && ValidSponge(r, start)
    requires FeedAll(c, r, start, xs).count + |ys| < r
    ensures var s := FeedAll(c, r, start, xs);
            FeedAll(c, r, start, xs + ys) == Sponge(XorBytes(c, s.lanes, s.count, ys), s.count + |ys|)
  {
    FeedPartial(c, r, FeedAll(c, r, start, xs), ys);
    FeedAllConcat(c, r, start, xs, ys);
  }

  lemma FeedToFull<L(!new)>(c: Core<L>, r: nat, start: Sponge<L>, xs: seq<Byte>, ys: seq<Byte>)
    requires Proper(c) && ValidRate(r) && ValidSponge(r, start)
    requires FeedAll(c, r, start, xs).count + |ys| == r
    ensures var s := FeedAll(c, r, start, xs);
            FeedAll(c, r, start, xs + ys) == Sponge(c.permute(XorBytes(c, s.lanes, s.count, ys)), 0)
  {
    FeedFull(c, r, FeedAll(c, r, start, xs), ys);
    FeedAllConcat(c, r, start, xs, ys);
  }

  /** Padding: the domain byte after the message, and the last bit of the block. */
  function Finalized<L>(c: Core<L>, r: nat, s: Sponge<L>, p: Byte): Sponge<L>
    requires ValidRate(r) && ValidSponge(r, s)
  {
    Sponge(XorByte(c, XorByte(c, s.lanes, s.count, p), r - 1, 128), 0)
  }

  // Absorbing, block by block

  function Zeros(n: nat): seq<Byte> {
    Filled(0, n)
  }

  /** The last block: what is left of the message, the domain byte, zeros and the last bit. */
  function LastBlock(r: nat, m: seq<Byte>, p: Byte): (t: seq<Byte>)
    requires |m| < r
    ensures |t| == r
  {
    var t := m + [p] + Zeros(r - |m| - 1);
    t[r - 1 := t[r - 1] | 128]
  }

  /** The one-shot function: full blocks are absorbed and permuted, the padded rest is absorbed. */
  ghost function AbsorbBlocks<L(!new)>(c: Core<L>, r: nat, lanes: seq<L>, m: seq<Byte>, p: Byte): (t: seq<L>)
    requires Proper(c) && ValidRate(r) && |lanes| == LANES
    ensures |t| == LANES
    decreases |m|
  {
    if |m| < r then XorBytes(c, lanes, 0, LastBlock(r, m, p))
    else AbsorbBlocks(c, r, c.permute(XorBytes(c, lanes, 0, m[..r])), m[r..], p)
  }

  lemma HighBit(p: Byte)
    ensures p | 128 == p ^ 128 <==> p < 128
  {
  }

  lemma LastBlockFull<L(!new)>(c: Core<L>, r: nat, lanes: seq<L>, m: seq<Byte>, p: Byte)
    requires Proper(c) && ValidRate(r) && |lanes| == LANES && |m| == r - 1
    ensures XorBytes(c, lanes, 0, LastBlock(r, m, p)) == Finalized(c, r, Sponge(XorBytes(c, lanes, 0, m), |m|), p).lanes
            <==> p < 128
  {
    var s := XorBytes(c, lanes, 0, m);
    LastBlockClosed(r, m, p);
    XorBytesSnoc(c, lanes, 0, m, p | 128);
    LastByteClashes(c, s, r - 1, p);
  }

  lemma LastBlockClosed(r: nat, m: seq<Byte>, p: Byte)
    requires |m| == r - 1
    ensures LastBlock(r, m, p) == m + [p | 128]
  {
  }

  lemma LastByteClashes<L(!new)>(c: Core<L>, s: seq<L>, pos: nat, p: Byte)
    requires Proper(c) && |s| == LANES && pos < STATE_BYTES
    ensures XorByte(c, s, pos, p | 128) == XorByte(c, XorByte(c, s, pos, p), pos, 128) <==> p < 128
  {
    HighBit(p);
    XorByteTwice(c, s, pos, p, 128);
    if XorByte(c, s, pos, p | 128) == XorByte(c, s, pos, p ^ 128) {
      XorByteInjective(c, s, pos, p | 128, p ^ 128);
    }
  }

  lemma LastBlockOpen<L(!new)>(c: Core<L>, r: nat, lanes: seq<L>, m: seq<Byte>, p: Byte)
    requires Proper(c) && ValidRate(r) && |lanes| == LANES && |m| < r - 1
    ensures XorBytes(c, lanes, 0, LastBlock(r, m, p)) == Finalized(c, r, Sponge(XorBytes(c, lanes, 0, m), |m|), p).lanes
  {
    var n := r - |m| - 2;
    LastBlockShape(r, m, p);
    XorBytesSnoc(c, lanes, 0, m + [p] + Zeros(n), 128);
    XorZerosAfter(c, lanes, m + [p], n);
    XorBytesSnoc(c, lanes, 0, m, p);
  }

  /** Zeros do not matter. */
  lemma XorZerosAfter<L(!new)>(c: Core<L>, lanes: seq<L>, m: seq<Byte>, n: nat)
    requires Proper(c) && |lanes| == LANES && |m| + n <= STATE_BYTES
    ensures XorBytes(c, lanes, 0, m + Zeros(n)) == XorBytes(c, lanes, 0, m)
  {
    XorBytesConcat(c, lanes, 0, m, Zeros(n));
    XorZeros(c, XorBytes(c, lanes, 0, m), |m|, n);
  }

  lemma LastBlockShape(r: nat, m: seq<Byte>, p: Byte)
    requires |m| < r - 1
    ensures LastBlock(r, m, p) == m + [p] + Zeros(r - |m| - 2) + [128]
  {
    OrZero(128);
  }

  /** The bits of the domain byte and of the end of the block do not clash. */
  predicate PaddingFits(r: nat, m: seq<Byte>, p: Byte)
    requires r > 0
    decreases |m|
  {
    if |m| < r then |m| < r - 1 || p < 128 else PaddingFits(r, m[r..], p)
  }

  /** They never clash for domain bytes below 128, and otherwise if the message just leaves one byte. */
  lemma {:induction false} PaddingFitsIff(r: nat, m: seq<Byte>, p: Byte)
    requires r > 0
    ensures PaddingFits(r, m, p) <==> |m| % r != r - 1 || p < 128
    decreases |m|
  {
    if |m| >= r {
      PaddingFitsIff(r, m[r..], p);
      OneRoundLess(|m|, r);
    }
  }

  /**
   One-shot and byte-by-byte absorption agree exactly if the padding bits do not clash: always for
   domain bytes below 128.
   */
  lemma {:induction false} OneShotAgrees<L(!new)>(c: Core<L>, r: nat, lanes: seq<L>, m: seq<Byte>, p: Byte)
    requires Proper(c) && ValidRate(r) && |lanes| == LANES
    ensures AbsorbBlocks(c, r, lanes, m, p) == Finalized(c, r, FeedAll(c, r, Sponge(lanes, 0), m), p).lanes
            <==> PaddingFits(r, m, p)
    decreases |m|
  {
    var start := Sponge(lanes, 0);
    if |m| < r {
      FeedPartial(c, r, start, m);
      if |m| < r - 1 {
        LastBlockOpen(c, r, lanes, m, p);
      } else {
        LastBlockFull(c, r, lanes, m, p);
      }
    } else {
      FeedFull(c, r, start, m[..r]);
      FeedAllConcat(c, r, start, m[..r], m[r..]);
      assert m == m[..r] + m[r..];
      OneShotAgrees(c, r, c.permute(XorBytes(c, lanes, 0, m[..r])), m[r..], p);
    }
  }

  /** Absorbs the pieces of a message one after the other. */
  ghost function FeedPieces<L(!new)>(c: Core<L>, r: nat, s: Sponge<L>, pieces: seq<seq<Byte>>): (t: Sponge<L>)
    requires Proper(c) && ValidRate(r) && ValidSponge(r, s)
    ensures ValidSponge(r, t)
  {
    if pieces == [] then s
    else FeedAll(c, r, FeedPieces(c, r, s, pieces[..|pieces| - 1]), pieces[|pieces| - 1])
  }

  function Flatten(pieces: seq<seq<Byte>>): seq<Byte> {
    if pieces == [] then [] else Flatten(pieces[..|pieces| - 1]) + pieces[|pieces| - 1]
  }

  /**
   Chunking independence: however a message is split, absorbing the pieces and padding leads to the
   lanes of the one-shot function over the whole message.
   */
  lemma {:induction false} AbsorbChunked<L(!new)>(c: Core<L>, r: nat, lanes: seq<L>, pieces: seq<seq<Byte>>, p: Byte)
    requires Proper(c) && ValidRate(r) && |lanes| == LANES && p < 128
    ensures FeedPieces(c, r, Sponge(lanes, 0), pieces) == FeedAll(c, r, Sponge(lanes, 0), Flatten(pieces))
    ensures Finalized(c, r, FeedPieces(c, r, Sponge(lanes, 0), pieces), p).lanes == AbsorbBlocks(c, r, lanes, Flatten(pieces), p)
  {
    PiecesAreWhole(c, r, Sponge(lanes, 0), pieces);
    OneShotAgrees(c, r, lanes, Flatten(pieces), p);
    PaddingFitsIff(r, Flatten(pieces), p);
  }

  lemma {:induction false} PiecesAreWhole<L(!new)>(c: Core<L>, r: nat, s: Sponge<L>, pieces: seq<seq<Byte>>)
    requires Proper(c) && ValidRate(r) && ValidSponge(r, s)
    ensures FeedPieces(c, r, s, pieces) == FeedAll(c, r, s, Flatten(pieces))
  {
    if pieces != [] {
      var init := pieces[..|pieces| - 1];
      PiecesAreWhole(c, r, s, init);
      FeedAllConcat(c, r, s, Flatten(init), pieces[|pieces| - 1]);
    }
  }

  // Squeezing, byte by byte

  function ByteAt<L>(c: Core<L>, lanes: seq<L>, pos: nat): Byte
    requires |lanes| == LANES && pos < STATE_BYTES
  {
    c.get(lanes[pos / 8], pos % 8)
  }

  /** Bytes of the state, from one position up to another. */
  function BytesOf<L>(c: Core<L>, lanes: seq<L>, start: nat, end: nat): seq<Byte>
    requires |lanes| == LANES && start <= end <= STATE_BYTES
  {
    seq(end - start, i requires 0 <= i < end - start => ByteAt(c, lanes, start + i))
  }

  /** The next byte; the state is permuted first if no bytes are left. */
  ghost function NextByte<L(!new)>(c: Core<L>, r: nat, s: Sponge<L>): Byte
    requires Proper(c) && ValidRate(r) && ValidSponge(r, s)
  {
    if s.count == 0 then ByteAt(c, c.permute(s.lanes), 0) else ByteAt(c, s.lanes, r - s.count)
  }

  ghost function AfterByte<L(!new)>(c: Core<L>, r: nat, s: Sponge<L>): (t: Sponge<L>)
    requires Proper(c) && ValidRate(r) && ValidSponge(r, s)
    ensures ValidSponge(r, t)
  {
    if s.count == 0 then Sponge(c.permute(s.lanes), r - 1) else Sponge(s.lanes, s.count - 1)
  }

  /** The state after squeezing some bytes. */
  ghost function After<L(!new)>(c: Core<L>, r: nat, s: Sponge<L>, n: nat): (t: Sponge<L>)
    requires Proper(c) && ValidRate(r) && ValidSponge(r, s)
    ensures ValidSponge(r, t)
  {
    if n == 0 then s else AfterByte(c, r, After(c, r, s, n - 1))
  }

  /** The first bytes squeezed from a state. */
  ghost function Squeezed<L(!new)>(c: Core<L>, r: nat, s: Sponge<L>, n: nat): (h: seq<Byte>)
    requires Proper(c) && ValidRate(r) && ValidSponge(r, s)
    ensures |h| == n
  {
    if n == 0 then [] else Squeezed(c, r, s, n - 1) + [NextByte(c, r, After(c, r, s, n - 1))]
  }

  lemma AnotherByte<L(!new)>(c: Core<L>, r: nat, s: Sponge<L>, n: nat)
    requires Proper(c) && ValidRate(r) && ValidSponge(r, s) && n > 0
    ensures After(c, r, s, n) == AfterByte(c, r, After(c, r, s, n - 1))
    ensures Squeezed(c, r, s, n) == Squeezed(c, r, s, n - 1) + [NextByte(c, r, After(c, r, s, n - 1))]
  {
  }

  lemma {:induction false} AfterBoth<L(!new)>(c: Core<L>, r: nat, s: Sponge<L>, m: nat, n: nat, k: nat)
    requires Proper(c) && ValidRate(r) && ValidSponge(r, s) && k == m + n
    ensures After(c, r, s, k) == After(c, r, After(c, r, s, m), n)
    decreases n
  {
    if n > 0 {
      AfterBoth(c, r, s, m, n - 1, k - 1);
    }
  }

  /** Squeezing in two calls is squeezing in one. */
  lemma {:induction false} SqueezeConcat<L(!new)>(c: Core<L>, r: nat, s: Sponge<L>, m: nat, n: nat, k: nat)
    requires Proper(c) && ValidRate(r) && ValidSponge(r, s) && k == m + n
    ensures After(c, r, s, k) == After(c, r, After(c, r, s, m), n)
    ensures Squeezed(c, r, s, k) == Squeezed(c, r, s, m) + Squeezed(c, r, After(c, r, s, m), n)
  {
    AfterBoth(c, r, s, m, n, k);
    SqueezedBoth(c, r, s, After(c, r, s, m), m, n, k);
  }

  lemma {:induction false} SqueezedAt<L(!new)>(c: Core<L>, r: nat, s: Sponge<L>, n: nat, i: nat)
    requires Proper(c) && ValidRate(r) && ValidSponge(r, s) && i < n
    ensures Squeezed(c, r, s, n)[i] == NextByte(c, r, After(c, r, s, i))
  {
    if i < n - 1 {
      SqueezedAt(c, r, s, n - 1, i);
    }
  }

  lemma SqueezedBoth<L(!new)>(c: Core<L>, r: nat, s: Sponge<L>, t: Sponge<L>, m: nat, n: nat, k: nat)
    requires Proper(c) && ValidRate(r) && ValidSponge(r, s) && t == After(c, r, s, m) && k == m + n
    ensures Squeezed(c, r, s, k) == Squeezed(c, r, s, m) + Squeezed(c, r, t, n)
  {
    var whole, a, b := Squeezed(c, r, s, k), Squeezed(c, r, s, m), Squeezed(c, r, t, n);
    forall i | 0 <= i < m
      ensures whole[i] == a[i]
    {
      ByteOfFirst(c, r, s, m, k, i);
    }
    forall i | m <= i < k
      ensures whole[i] == b[i - m]
    {
      ByteOfSecond(c, r, s, t, m, n, k, i);
    }
  }

  lemma ByteOfFirst<L(!new)>(c: Core<L>, r: nat, s: Sponge<L>, m: nat, k: nat, i: nat)
    requires Proper(c) && ValidRate(r) && ValidSponge(r, s) && i < m <= k
    ensures Squeezed(c, r, s, k)[i] == Squeezed(c, r, s, m)[i]
  {
    SqueezedAt(c, r, s, k, i);
    SqueezedAt(c, r, s, m, i);
  }

  lemma ByteOfSecond<L(!new)>(c: Core<L>, r: nat, s: Sponge<L>, t: Sponge<L>, m: nat, n: nat, k: nat, i: nat)
    requires Proper(c) && ValidRate(r) && ValidSponge(r, s) && t == After(c, r, s, m) && m <= i < k == m + n
    ensures Squeezed(c, r, s, k)[i] == Squeezed(c, r, t, n)[i - m]
  {
    SqueezedAt(c, r, s, k, i);
    AfterBoth(c, r, s, m, i - m, i);
    SqueezedAt(c, r, t, n, i - m);
  }

  /** While bytes are left they are read in order. */
  lemma {:induction false} SqueezeLeft<L(!new)>(c: Core<L>, r: nat, s: Sponge<L>, n: nat)
    requires Proper(c) && ValidRate(r) && ValidSponge(r, s) && n <= s.count
    ensures After(c, r, s, n) == Sponge(s.lanes, s.count - n)
    ensures Squeezed(c, r, s, n) == BytesOf(c, s.lanes, r - s.count, r - s.count + n)
  {
    if n > 0 {
      SqueezeLeft(c, r, s, n - 1);
    }
  }

  /** A fresh block, or the beginning of one. */
  lemma {:induction false} SqueezeFresh<L(!new)>(c: Core<L>, r: nat, lanes: seq<L>, n: nat)
    requires Proper(c) && ValidRate(r) && |lanes| == LANES && 0 < n <= r
    ensures After(c, r, Sponge(lanes, 0), n) == Sponge(c.permute(lanes), r - n)
    ensures Squeezed(c, r, Sponge(lanes, 0), n) == BytesOf(c, c.permute(lanes), 0, n)
  {
    var s := Sponge(lanes, 0);
    if n == 1 {
      SqueezeOne(c, r, s);
    } else {
      SqueezeFresh(c, r, lanes, n - 1);
      AnotherByte(c, r, s, n);
      BytesSnoc(c, c.permute(lanes), 0, n - 1);
    }
  }

  lemma {:induction false} SqueezeOne<L(!new)>(c: Core<L>, r: nat, s: Sponge<L>)
    requires Proper(c) && ValidRate(r) && ValidSponge(r, s)
    ensures After(c, r, s, 1) == AfterByte(c, r, s) && Squeezed(c, r, s, 1) == [NextByte(c, r, s)]
  {
    assert After(c, r, s, 0) == s && Squeezed(c, r, s, 0) == [];
  }

  lemma BytesSnoc<L>(c: Core<L>, lanes: seq<L>, start: nat, end: nat)
    requires |lanes| == LANES && start <= end < STATE_BYTES
    ensures BytesOf(c, lanes, start, end + 1) == BytesOf(c, lanes, start, end) + [ByteAt(c, lanes, end)]
  {
  }

  /** Total length of requests. */
  function Total(lengths: seq<nat>): nat {
    if lengths == [] then 0 else Total(lengths[..|lengths| - 1]) + lengths[|lengths| - 1]
  }

  /** What a sequence of squeeze calls returns, concatenated. */
  ghost function SqueezedPieces<L(!new)>(c: Core<L>, r: nat, s: Sponge<L>, lengths: seq<nat>): seq<Byte>
    requires Proper(c) && ValidRate(r) && ValidSponge(r, s)
  {
    if lengths == [] then []
    else
      var init := lengths[..|lengths| - 1];
      SqueezedPieces(c, r, s, init) + Squeezed(c, r, After(c, r, s, Total(init)), lengths[|lengths| - 1])
  }

  /** Chunking independence of squeezing: any calls return the stream of one call of the total length. */
  lemma {:induction false} SqueezeChunked<L(!new)>(c: Core<L>, r: nat, s: Sponge<L>, lengths: seq<nat>)
    requires Proper(c) && ValidRate(r) && ValidSponge(r, s)
    ensures SqueezedPieces(c, r, s, lengths) == Squeezed(c, r, s, Total(lengths))
  {
    if lengths != [] {
      var init, n := lengths[..|lengths| - 1], lengths[|lengths| - 1];
      SqueezeChunked(c, r, s, init);
      SqueezeConcat(c, r, s, Total(init), n, Total(lengths));
    }
  }

  /**
   The whole extendable-output function: absorbing in any pieces and squeezing in any pieces gives
   the bytes that the one-shot functions give for the whole message and the total length.
   */
  lemma XofChunked<L(!new)>(c: Core<L>, r: nat, lanes: seq<L>, pieces: seq<seq<Byte>>, p: Byte, lengths: seq<nat>)
    requires Proper(c) && ValidRate(r) && |lanes| == LANES && p < 128
    ensures SqueezedPieces(c, r, Finalized(c, r, FeedPieces(c, r, Sponge(lanes, 0), pieces), p), lengths) ==
            Squeezed(c, r, Sponge(AbsorbBlocks(c, r, lanes, Flatten(pieces), p), 0), Total(lengths))
  {
    AbsorbChunked(c, r, lanes, pieces, p);
    SqueezeChunked(c, r, Finalized(c, r, FeedPieces(c, r, Sponge(lanes, 0), pieces), p), lengths);
  }

  // Bytes of the state

  /** Bytes xored in are found at their positions, and nowhere else. */
  lemma {:induction false} XorBytesAt<L(!new)>(c: Core<L>, s: seq<L>, pos: nat, bytes: seq<Byte>, q: nat)
    requires Proper(c) && |s| == LANES && pos + |bytes| <= STATE_BYTES && q < STATE_BYTES
    ensures ByteAt(c, XorBytes(c, s, pos, bytes), q) ==
            if pos <= q < pos + |bytes| then ByteAt(c, s, q) ^ bytes[q - pos] else ByteAt(c, s, q)
  {
    if bytes != [] {
      var n := |bytes| - 1;
      XorBytesAt(c, s, pos, bytes[..n], q);
      XorByteAt(c, XorBytes(c, s, pos, bytes[..n]), pos + n, bytes[n], q);
    }
  }

  lemma XorByteAt<L(!new)>(c: Core<L>, s: seq<L>, pos: nat, b: Byte, q: nat)
    requires Proper(c) && |s| == LANES && pos < STATE_BYTES && q < STATE_BYTES
    ensures ByteAt(c, XorByte(c, s, pos, b), q) == if q == pos then ByteAt(c, s, q) ^ b else ByteAt(c, s, q)
  {
    if q / 8 == pos / 8 {
      assert PutGet(c, s[pos / 8], pos % 8, b, q % 8);
      XorZero(c.get(s[pos / 8], q % 8));
    }
  }

  lemma XorTwice(x: Byte, a: Byte, b: Byte)
    ensures (x ^ a) ^ b == x ^ (a ^ b)
  {
  }

  lemma XorZero(b: Byte)
    ensures b ^ 0 == b
  {
  }
}
