/** cSHAKE: its prefix of encoded strings, absorbed before the message. */
module Cshake {
  import opened Results
  import opened Lanes
  import opened Powers
  import opened ByteStrings
  import opened Sponges
  import opened Keccak

  const SIZE_BYTES: nat := 8

  /** Bytes needed for a number, at least one. */
  function ByteCount(v: nat): (n: nat)
    ensures n >= 1
  {
    if v < 256 then 1 else 1 + ByteCount(v / 256)
  }

  lemma {:induction false} ByteCountBounds(v: nat)
    ensures v < Pow256(ByteCount(v))
    ensures ByteCount(v) > 1 ==> v >= Pow256(ByteCount(v) - 1)
  {
    if v < 256 {
      assert Pow256(1) == 256 * Pow256(0) == 256;
    } else {
      ByteCountBounds(v / 256);
      assert Pow256(ByteCount(v / 256)) == 256 * Pow256(ByteCount(v / 256) - 1);
    }
  }

  lemma {:induction false} ByteCountFits(v: nat, n: nat)
    requires v < Pow256(n) && n >= 1
    ensures ByteCount(v) <= n
  {
    if v >= 256 {
      ByteCountFits(v / 256, n - 1);
    }
  }

  /** Section 2.3.1 of SP 800-185: the length of a number in bytes, and the number. */
  function LeftEncode(v: nat): seq<Byte>
    requires v < Pow256(SIZE_BYTES)
  {
    ByteCountFits(v, SIZE_BYTES);
    [ToByte(ByteCount(v))] + BigEndian(v, ByteCount(v))
  }

  /** Section 2.3.2: a string after its length in bits. */
  function EncodeString(s: seq<Byte>): seq<Byte>
    requires 8 * |s| < Pow256(SIZE_BYTES)
  {
    LeftEncode(8 * |s|) + s
  }

  function PadLength(n: nat, w: nat): nat
    requires w > 0
  {
    if n % w == 0 then 0 else w - n % w
  }

  /** Section 2.3.3: padded with zeros to whole blocks. */
  function Bytepad(x: seq<Byte>, w: nat): seq<Byte>
    requires 0 < w < Pow256(SIZE_BYTES)
  {
    var z := LeftEncode(w) + x;
    z + Zeros(PadLength(|z|, w))
  }

  /** What cSHAKE absorbs before the message. */
  function Prefix(name: seq<Byte>, custom: seq<Byte>, r: nat): seq<Byte>
    requires 0 < r < Pow256(SIZE_BYTES)
    requires 8 * |name| < Pow256(SIZE_BYTES) && 8 * |custom| < Pow256(SIZE_BYTES)
  {
    Bytepad(EncodeString(name) + EncodeString(custom), r)
  }

  // In numbers

  /** The first byte counts those that follow, as few as the number needs; they are the number, most significant first. */
  lemma LeftEncodeIs(v: nat)
    requires v < Pow256(SIZE_BYTES)
    ensures var e := LeftEncode(v);
            && 2 <= |e| <= 9 && e[0] as nat == |e| - 1 && Value(e[1..]) == v
            && (|e| > 2 ==> v >= Pow256(|e| - 2))
  {
    ByteCountFits(v, SIZE_BYTES);
    ByteCountBounds(v);
    ToByteIs(ByteCount(v));
    assert LeftEncode(v)[1..] == BigEndian(v, ByteCount(v));
    BigEndianValue(v, ByteCount(v));
  }

  /** A string follows its length in bits. */
  lemma EncodeStringIs(s: seq<Byte>)
    requires 8 * |s| < Pow256(SIZE_BYTES)
    ensures var e, n := EncodeString(s), |EncodeString(s)| - |s|;
            2 <= n <= 9 && e[0] as nat == n - 1 && Value(e[1..n]) == 8 * |s| && e[n..] == s
  {
    var e, n := EncodeString(s), |EncodeString(s)| - |s|;
    LeftEncodeIs(8 * |s|);
    assert e[..n] == LeftEncode(8 * |s|);
    assert e[1..n] == LeftEncode(8 * |s|)[1..];
  }

  /** The block length comes first, and zeros, fewer than a block, complete the last block. */
  lemma BytepadIs(x: seq<Byte>, w: nat)
    requires 0 < w < Pow256(SIZE_BYTES)
    ensures var e, n := Bytepad(x, w), |LeftEncode(w)|;
            && |e| % w == 0 && n + |x| <= |e| < n + |x| + w
            && e[..n] == LeftEncode(w) && e[n..n + |x|] == x && (forall i :: n + |x| <= i < |e| ==> e[i] == 0)
  {
    var z := LeftEncode(w) + x;
    PaddedToWhole(|z|, w);
    assert Bytepad(x, w)[|z|..] == Zeros(PadLength(|z|, w));
  }

  lemma PaddedToWhole(n: nat, w: nat)
    requires w > 0
    ensures (n + PadLength(n, w)) % w == 0 && PadLength(n, w) < w
  {
    var q, x := n / w, n % w;
    assert n == q * w + x;
    if x > 0 {
      assert (q + 1) * w == q * w + w;
      Quotient(n + (w - x), q + 1, w, 0);
    }
  }

  /** The prefix begins with the rate and the two strings, each after its length in bits. */
  lemma PrefixIs(name: seq<Byte>, custom: seq<Byte>, r: nat)
    requires 0 < r < Pow256(SIZE_BYTES)
    requires 8 * |name| < Pow256(SIZE_BYTES) && 8 * |custom| < Pow256(SIZE_BYTES)
    ensures LeftEncode(r) + (EncodeString(name) + EncodeString(custom)) <= Prefix(name, custom, r) && |Prefix(name, custom, r)| % r == 0
  {
    BytepadIs(EncodeString(name) + EncodeString(custom), r);
  }

  // The prefix determines the strings

  lemma SplitsSame<T>(a: seq<T>, x: seq<T>, b: seq<T>, y: seq<T>)
    requires |a| == |b| && a + x == b + y
    ensures a == b && x == y
  {
    assert a == (a + x)[..|a|] && b == (b + y)[..|b|];
    assert x == (a + x)[|a|..] && y == (b + y)[|b|..];
  }

  /** An encoded number tells where it ends. */
  lemma LeftEncodeInjective(v: nat, x: seq<Byte>, w: nat, y: seq<Byte>)
    requires v < Pow256(SIZE_BYTES) && w < Pow256(SIZE_BYTES)
    requires LeftEncode(v) + x == LeftEncode(w) + y
    ensures v == w && x == y
  {
    ByteCountFits(v, SIZE_BYTES);
    ByteCountFits(w, SIZE_BYTES);
    assert (LeftEncode(v) + x)[0] == ToByte(ByteCount(v)) && (LeftEncode(w) + y)[0] == ToByte(ByteCount(w));
    ToByteInjective(ByteCount(v), ByteCount(w));
    SplitsSame(LeftEncode(v), x, LeftEncode(w), y);
    assert LeftEncode(v)[1..] == BigEndian(v, ByteCount(v)) && LeftEncode(w)[1..] == BigEndian(w, ByteCount(w));
    ByteCountBounds(v);
    ByteCountBounds(w);
    BigEndianInjective(v, w, ByteCount(v));
  }

  lemma EncodeStringInjective(s: seq<Byte>, x: seq<Byte>, t: seq<Byte>, y: seq<Byte>)
    requires 8 * |s| < Pow256(SIZE_BYTES) && 8 * |t| < Pow256(SIZE_BYTES)
    requires EncodeString(s) + x == EncodeString(t) + y
    ensures s == t && x == y
  {
    assert EncodeString(s) + x == LeftEncode(8 * |s|) + (s + x);
    assert EncodeString(t) + y == LeftEncode(8 * |t|) + (t + y);
    LeftEncodeInjective(8 * |s|, s + x, 8 * |t|, t + y);
    SplitsSame(s, x, t, y);
  }

  /** Different names or customization strings give different prefixes, whatever is absorbed next. */
  lemma PrefixInjective(name: seq<Byte>, custom: seq<Byte>, x: seq<Byte>, name': seq<Byte>, custom': seq<Byte>, y: seq<Byte>, r: nat)
    requires 0 < r < Pow256(SIZE_BYTES)
    requires 8 * |name| < Pow256(SIZE_BYTES) && 8 * |custom| < Pow256(SIZE_BYTES)
    requires 8 * |name'| < Pow256(SIZE_BYTES) && 8 * |custom'| < Pow256(SIZE_BYTES)
    requires Prefix(name, custom, r) + x == Prefix(name', custom', r) + y
    ensures name == name' && custom == custom' && x == y
  {
    PrefixThen(name, custom, x, r);
    PrefixThen(name', custom', y, r);
    var z, z' := Padding(name, custom, r), Padding(name', custom', r);
    LeftEncodeInjective(r, EncodeString(name) + (EncodeString(custom) + (z + x)), r, EncodeString(name') + (EncodeString(custom') + (z' + y)));
    EncodeStringInjective(name, EncodeString(custom) + (z + x), name', EncodeString(custom') + (z' + y));
    EncodeStringInjective(custom, z + x, custom', z' + y);
    SplitsSame(z, x, z', y);
  }

  function Padding(name: seq<Byte>, custom: seq<Byte>, r: nat): seq<Byte>
    requires 0 < r < Pow256(SIZE_BYTES)
    requires 8 * |name| < Pow256(SIZE_BYTES) && 8 * |custom| < Pow256(SIZE_BYTES)
  {
    Zeros(PadLength(|LeftEncode(r)| + |EncodeString(name)| + |EncodeString(custom)|, r))
  }

  lemma PrefixThen(name: seq<Byte>, custom: seq<Byte>, x: seq<Byte>, r: nat)
    requires 0 < r < Pow256(SIZE_BYTES)
    requires 8 * |name| < Pow256(SIZE_BYTES) && 8 * |custom| < Pow256(SIZE_BYTES)
    ensures Prefix(name, custom, r) + x ==
            LeftEncode(r) + (EncodeString(name) + (EncodeString(custom) + (Padding(name, custom, r) + x)))
  {
    var a, b, c, z := LeftEncode(r), EncodeString(name), EncodeString(custom), Padding(name, custom, r);
    FiveParts(a, b, c, z, x);
  }

  // The functions

  /** Encodes a number into a buffer; returns how many bytes it takes. */
  method LeftEncodeInto(encbuf: array<Byte>, value: nat) returns (len: nat)
    requires encbuf.Length == SIZE_BYTES + 1 && value < Pow256(SIZE_BYTES)
    modifies encbuf
    ensures len <= encbuf.Length && encbuf[..len] == LeftEncode(value)
    ensures len >= 2 && encbuf[0] as nat == len - 1 && Value(encbuf[1..len]) == value
  {
    ByteCountFits(value, SIZE_BYTES);
    var n := CountBytes(value);
    for i := 1 to n + 1
      invariant forall j :: 1 <= j < i ==> encbuf[j] == BigEndian(value, n)[j - 1]
    {
      BigEndianAt(value, n, i - 1);
      encbuf[i] := ToByte(value / Pow256(n - i) % 256);
    }
    encbuf[0] := ToByte(n);
    len := n + 1;
    CountThenDigits(encbuf[..len], ToByte(n), BigEndian(value, n));
    LeftEncodedBytes(encbuf[..len], value);
    assert encbuf[1..len] == encbuf[..len][1..];
  }

  lemma LeftEncodedBytes(e: seq<Byte>, v: nat)
    requires v < Pow256(SIZE_BYTES) && e == LeftEncode(v)
    ensures |e| >= 2 && e[0] as nat == |e| - 1 && Value(e[1..]) == v
  {
    LeftEncodeIs(v);
  }

  lemma CountThenDigits(s: seq<Byte>, count: Byte, digits: seq<Byte>)
    requires |s| == |digits| + 1 && s[0] == count && forall j :: 1 <= j < |s| ==> s[j] == digits[j - 1]
    ensures s == [count] + digits
  {
  }

  method CountBytes(value: nat) returns (n: nat)
    requires value < Pow256(SIZE_BYTES)
    ensures n == ByteCount(value)
  {
    ByteCountFits(value, SIZE_BYTES);
    var v: nat := value;
    n := 0;
    while v != 0 && n < SIZE_BYTES
      invariant n <= SIZE_BYTES
      invariant v > 0 ==> ByteCount(value) == n + ByteCount(v)
      invariant v == 0 && n > 0 ==> ByteCount(value) == n
      invariant n == 0 ==> v == value
    {
      n, v := n + 1, v / 256;
    }
    if n == 0 {
      n := 1;
    }
  }

  /** Skipping to the last byte of a block and absorbing a zero is absorbing zeros to its end. */
  lemma SkipIsZeros(permute: Permutation, r: nat, s: Sponge<Lane>)
    requires ValidState(permute, r, s) && s.count > 0
    ensures Absorbed(permute, r, s.(count := r - 1), [0]) == Absorbed(permute, r, s, Zeros(r - s.count))
  {
    var c := KeccakCore(permute);
    KeccakProper(permute);
    assert [0] == Zeros(1);
    FeedFull(c, r, s.(count := r - 1), Zeros(1));
    FeedFull(c, r, s, Zeros(r - s.count));
    XorZeros(c, s.lanes, r - 1, 1);
    XorZeros(c, s.lanes, s.count, r - s.count);
  }

  /** Absorbs an encoded number. */
  method AbsorbEncoded(ctx: KeccakContext, encbuf: array<Byte>, value: nat)
    requires ctx.Valid()
    requires encbuf.Length == SIZE_BYTES + 1 && value < Pow256(SIZE_BYTES)
    modifies ctx, ctx.lanes, encbuf
    ensures ctx.Valid() && ctx.State() == Absorbed(ctx.permute, ctx.r, old(ctx.State()), LeftEncode(value))
  {
    var len := LeftEncodeInto(encbuf, value);
    ctx.IncAbsorb(encbuf[..len]);
  }

  lemma AbsorbedConcat(permute: Permutation, r: nat, s: Sponge<Lane>, xs: seq<Byte>, ys: seq<Byte>)
    requires ValidState(permute, r, s)
    ensures Absorbed(permute, r, s, xs + ys) == Absorbed(permute, r, Absorbed(permute, r, s, xs), ys)
  {
    KeccakProper(permute);
    FeedAllConcat(KeccakCore(permute), r, s, xs, ys);
  }

  lemma {:induction false} AbsorbedCount(permute: Permutation, r: nat, s: Sponge<Lane>, m: seq<Byte>)
    requires ValidState(permute, r, s) && s.count == 0
    ensures Absorbed(permute, r, s, m).count == |m| % r
  {
    KeccakProper(permute);
    FeedCount(KeccakCore(permute), r, s, m);
    RestIsRemainder(|m|, r);
  }

  /** The state after absorbing strings one after the other. */
  lemma AbsorbedFive(permute: Permutation, r: nat, s: Sponge<Lane>, a: seq<Byte>, b: seq<Byte>, c: seq<Byte>, d: seq<Byte>, e: seq<Byte>)
    requires ValidState(permute, r, s)
    ensures Absorbed(permute, r, Absorbed(permute, r, Absorbed(permute, r, Absorbed(permute, r, Absorbed(permute, r, s, a), b), c), d), e) ==
            Absorbed(permute, r, s, a + ((b + c) + (d + e)))
  {
    AbsorbedConcat(permute, r, s, a, b);
    AbsorbedConcat(permute, r, s, a + b, c);
    AbsorbedConcat(permute, r, s, a + b + c, d);
    AbsorbedConcat(permute, r, s, a + b + c + d, e);
    FiveParts(a, b, c, d, e);
  }

  /**
   Starts cSHAKE: the state is that after absorbing the padded encodings of the two strings, and the
   message begins with a new block.
   */
  method CshakeIncInit(permute: Permutation, r: nat, name: seq<Byte>, custom: seq<Byte>) returns (ctx: KeccakContext)
    requires KeepsLanes(permute) && ValidRate(r)
    requires 8 * |name| < Pow256(SIZE_BYTES) && 8 * |custom| < Pow256(SIZE_BYTES)
    ensures ctx.Valid() && fresh(ctx) && fresh(ctx.lanes) && ctx.permute == permute && ctx.r == r
    ensures RateEncodes(r) && ctx.State() == Absorbed(permute, r, Sponge(ZeroLanes(), 0), Prefix(name, custom, r))
    ensures ctx.count == 0
  {
    RateFits(r);
    var encbuf := new Byte[SIZE_BYTES + 1](_ => 0);
    ctx := new KeccakContext.IncInit(permute, r);
    ghost var start := ctx.State();
    AbsorbedFive(permute, r, start, LeftEncode(r), LeftEncode(8 * |name|), name, LeftEncode(8 * |custom|), custom);
    AbsorbEncoded(ctx, encbuf, r);
    AbsorbEncoded(ctx, encbuf, 8 * |name|);
    ctx.IncAbsorb(name);
    AbsorbEncoded(ctx, encbuf, 8 * |custom|);
    ctx.IncAbsorb(custom);
    PadToBlock(ctx, LeftEncode(r) + (EncodeString(name) + EncodeString(custom)));
  }

  predicate RateEncodes(r: nat) {
    0 < r < Pow256(SIZE_BYTES)
  }

  lemma RateFits(r: nat)
    requires ValidRate(r)
    ensures RateEncodes(r)
  {
    assert Pow256(SIZE_BYTES) == 256 * Pow256(7);
    assert Pow256(7) == 256 * Pow256(6);
    Pow256Positive(6);
  }

  lemma {:induction false} Pow256Positive(n: nat)
    ensures Pow256(n) >= 1
  {
    if n > 0 {
      Pow256Positive(n - 1);
    }
  }

  /** Zeros up to the end of the block, if one has been begun. */
  method PadToBlock(ctx: KeccakContext, ghost z: seq<Byte>)
    requires ctx.Valid() && ctx.State() == Absorbed(ctx.permute, ctx.r, Sponge(ZeroLanes(), 0), z)
    modifies ctx, ctx.lanes
    ensures ctx.Valid() && ctx.count == 0
    ensures ctx.State() == Absorbed(ctx.permute, ctx.r, Sponge(ZeroLanes(), 0), z + Zeros(PadLength(|z|, ctx.r)))
  {
    ghost var s := ctx.State();
    AbsorbedPadded(ctx.permute, ctx.r, z);
    if ctx.count != 0 {
      SkipEndsBlock(ctx.permute, ctx.r, s);
      ctx.count := ctx.r - 1;
      ctx.IncAbsorb([0]);
    }
  }

  /** The zeros up to the end of the block, skipped over but for the last. */
  lemma AbsorbedPadded(permute: Permutation, r: nat, z: seq<Byte>)
    requires KeepsLanes(permute) && ValidRate(r)
    ensures var s := Absorbed(permute, r, Sponge(ZeroLanes(), 0), z);
            Absorbed(permute, r, Sponge(ZeroLanes(), 0), z + Zeros(PadLength(|z|, r))) ==
            if s.count == 0 then s else Absorbed(permute, r, s.(count := r - 1), [0])
  {
    var s := Absorbed(permute, r, Sponge(ZeroLanes(), 0), z);
    AbsorbedCount(permute, r, Sponge(ZeroLanes(), 0), z);
    AbsorbedConcat(permute, r, Sponge(ZeroLanes(), 0), z, Zeros(PadLength(|z|, r)));
    if s.count != 0 {
      SkipIsZeros(permute, r, s);
    } else {
      assert z + Zeros(0) == z;
    }
  }

  lemma SkipEndsBlock(permute: Permutation, r: nat, s: Sponge<Lane>)
    requires ValidState(permute, r, s)
    ensures Absorbed(permute, r, s.(count := r - 1), [0]).count == 0
  {
    KeccakProper(permute);
    FeedFull(KeccakCore(permute), r, s.(count := r - 1), [0]);
  }
}
