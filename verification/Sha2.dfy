/** SHA-2 over an arbitrary compression function: incremental hashing of blocks, and padding. */
module Sha2 {
  import opened Results
  import opened Lanes
  import opened Powers
  import opened ByteStrings
  import opened Sponges

  type Compression = (seq<Byte>, seq<Byte>) -> seq<Byte>

  /** Block size, size of the length field, and how many bytes of that field are ever set. */
  datatype Variant = Variant(block: nat, field: nat, significant: nat)

  /** SHA-224 and SHA-256. */
  const SHA256: Variant := Variant(64, 8, 8)
  /** SHA-384 and SHA-512. */
  const SHA512: Variant := Variant(128, 16, 9)

  predicate ValidVariant(v: Variant) {
    v == SHA256 || v == SHA512
  }

  const COUNTER: nat := 0x1_0000_0000_0000_0000

  // Folding the compression function over blocks

  /** Compresses whole blocks; a rest is ignored. */
  function HashBlocks(compress: Compression, b: nat, h: seq<Byte>, m: seq<Byte>): seq<Byte>
    requires b > 0
    decreases |m|
  {
    if |m| < b then h else HashBlocks(compress, b, compress(h, m[..b]), m[b..])
  }

  /** One block is compressed into the state, less than one leaves it; with `HashBlocksConcat` this determines the rest. */
  lemma HashBlocksIs(compress: Compression, b: nat, h: seq<Byte>, m: seq<Byte>)
    requires b > 0
    ensures |m| < b ==> HashBlocks(compress, b, h, m) == h
    ensures |m| == b ==> HashBlocks(compress, b, h, m) == compress(h, m)
  {
    if |m| == b {
      assert m[..b] == m && m[b..] == [];
    }
  }

  /** The states between blocks: each is compressed with the next block into the one after it. */
  ghost predicate Chained(compress: Compression, b: nat, m: seq<Byte>, states: seq<seq<Byte>>)
    requires b > 0
  {
    && |states| == |m| / b + 1
    && forall i: nat :: i < |m| / b ==> states[i + 1] == compress(states[i], BlockAt(b, m, i))
  }

  /** The `i`th block of so many bytes. */
  function BlockAt(b: nat, m: seq<Byte>, i: nat): seq<Byte>
    requires b > 0 && i < |m| / b
  {
    BlockEnd(|m|, b, i);
    m[i * b..i * b + b]
  }

  lemma BlockEnd(n: nat, b: nat, i: nat)
    requires b > 0 && i < n / b
    ensures i * b + b <= n
  {
    TimesMonotone(i + 1, n / b, b);
    assert n == n / b * b + n % b;
  }

  /** Hashing goes through such states, from the first to the last. */
  lemma {:induction false} HashBlocksChain(compress: Compression, b: nat, h: seq<Byte>, m: seq<Byte>) returns (states: seq<seq<Byte>>)
    requires b > 0
    ensures Chained(compress, b, m, states) && states[0] == h && states[|m| / b] == HashBlocks(compress, b, h, m)
    decreases |m|
  {
    if |m| < b {
      Quotient(|m|, 0, b, |m|);
      states := [h];
    } else {
      var rest := HashBlocksChain(compress, b, compress(h, m[..b]), m[b..]);
      OneBlockLess(|m|, b);
      states := [h] + rest;
      forall i: nat | i < |m| / b
        ensures states[i + 1] == compress(states[i], BlockAt(b, m, i))
      {
        if i > 0 {
          NextBlock(b, m, i);
        } else {
          assert BlockAt(b, m, 0) == m[..b];
        }
      }
    }
  }

  lemma HashBlocksChained(compress: Compression, b: nat, h: seq<Byte>, m: seq<Byte>)
    requires b > 0
    ensures exists states :: Chained(compress, b, m, states) && states[0] == h && states[|m| / b] == HashBlocks(compress, b, h, m)
  {
    var states := HashBlocksChain(compress, b, h, m);
  }

  lemma OneBlockLess(n: nat, b: nat)
    requires 0 < b <= n
    ensures n / b == (n - b) / b + 1
  {
    var d := (n - b) / b;
    assert n == (d + 1) * b + (n - b) % b;
    Quotient(n, d + 1, b, (n - b) % b);
  }

  lemma NextBlock(b: nat, m: seq<Byte>, i: nat)
    requires 0 < b <= |m| && 0 < i < |m| / b
    ensures i - 1 < |m[b..]| / b && BlockAt(b, m, i) == BlockAt(b, m[b..], i - 1)
  {
    OneBlockLess(|m|, b);
    BlockEnd(|m|, b, i);
    assert (i - 1) * b == i * b - b;
  }

  lemma {:induction false} HashBlocksConcat(compress: Compression, b: nat, h: seq<Byte>, xs: seq<Byte>, ys: seq<Byte>)
    requires b > 0 && Rest(|xs|, b) == 0
    ensures HashBlocks(compress, b, h, xs + ys) == HashBlocks(compress, b, HashBlocks(compress, b, h, xs), ys)
    decreases |xs|
  {
    if |xs| < b {
      assert xs + ys == ys;
    } else {
      assert (xs + ys)[..b] == xs[..b] && (xs + ys)[b..] == xs[b..] + ys;
      HashBlocksConcat(compress, b, compress(h, xs[..b]), xs[b..], ys);
    }
  }

  /** Bytes that do not fill a block do not matter. */
  lemma {:induction false} HashBlocksIgnoresRest(compress: Compression, b: nat, h: seq<Byte>, m: seq<Byte>, n: nat)
    requires b > 0 && n == Rest(|m|, b)
    ensures n <= |m| && Rest(|m| - n, b) == 0
    ensures HashBlocks(compress, b, h, m) == HashBlocks(compress, b, h, m[..|m| - n])
    decreases |m|
  {
    if |m| >= b {
      HashBlocksIgnoresRest(compress, b, compress(h, m[..b]), m[b..], n);
      var whole := m[..|m| - n];
      assert whole[..b] == m[..b] && whole[b..] == m[b..][..|m[b..]| - n];
    }
  }

  lemma {:induction false} RestAdds(m: nat, n: nat, b: nat)
    requires b > 0 && Rest(m, b) == 0
    ensures Rest(m + n, b) == Rest(n, b)
    decreases m
  {
    if m >= b {
      RestAdds(m - b, n, b);
    }
  }

  // Padding, sections 5.1.1 and 5.1.2 of FIPS 180-4

  /** The least number of zeros that, with the bit and the length field, completes a block. */
  function ZeroCount(v: Variant, n: nat): nat
    requires v.block > 0
  {
    var used := Rest(n + 1 + v.field, v.block);
    if used == 0 then 0 else v.block - used
  }

  function Padded(v: Variant, m: seq<Byte>): seq<Byte>
    requires v.block > 0
  {
    m + PaddingOf(v, |m|)
  }

  function PaddingOf(v: Variant, n: nat): seq<Byte>
    requires v.block > 0
  {
    [0x80] + Zeros(ZeroCount(v, n)) + BigEndian(8 * n, v.field)
  }

  /** In numbers: after the message 0x80, then zeros, and the length in bits in the last bytes. */
  lemma PaddedIs(v: Variant, m: seq<Byte>)
    requires ValidVariant(v)
    ensures var p := Padded(v, m);
            && |m| + 1 + v.field <= |p| < |m| + 1 + v.field + v.block && |p| % v.block == 0
            && p[..|m|] == m && p[|m|] == 0x80
            && (forall i :: |m| < i < |p| - v.field ==> p[i] == 0)
            && (8 * |m| < Pow256(v.field) ==> Value(p[|p| - v.field..]) == 8 * |m|)
  {
    var p := Padded(v, m);
    PaddedWhole(v, m);
    RestIsRemainder(|p|, v.block);
    assert p[|p| - v.field..] == BigEndian(8 * |m|, v.field);
    if 8 * |m| < Pow256(v.field) {
      BigEndianValue(8 * |m|, v.field);
    }
  }

  /** SHA-256: blocks of 64 bytes, the length in the last eight. */
  lemma PaddedSha256(m: seq<Byte>)
    requires |m| < Pow2(61)
    ensures var p := Padded(SHA256, m);
            && |p| % 64 == 0 && |m| + 9 <= |p| < |m| + 73 && p[..|m|] == m && p[|m|] == 0x80
            && (forall i :: |m| < i < |p| - 8 ==> p[i] == 0) && Value(p[|p| - 8..]) == 8 * |m|
  {
    PaddedIs(SHA256, m);
    Pow256IsPow2(8);
    Pow2Add(3, 61);
    assert Pow2(3) == 2 * Pow2(2) == 8;
  }

  /** SHA-512: blocks of 128 bytes, the length in the last sixteen. */
  lemma PaddedSha512(m: seq<Byte>)
    requires |m| < Pow2(125)
    ensures var p := Padded(SHA512, m);
            && |p| % 128 == 0 && |m| + 17 <= |p| < |m| + 145 && p[..|m|] == m && p[|m|] == 0x80
            && (forall i :: |m| < i < |p| - 16 ==> p[i] == 0) && Value(p[|p| - 16..]) == 8 * |m|
  {
    PaddedIs(SHA512, m);
    Pow256IsPow2(16);
    Pow2Add(3, 125);
    assert Pow2(3) == 2 * Pow2(2) == 8;
  }

  lemma {:induction false} RestOfWhole(n: nat, b: nat)
    requires b > 0
    ensures Rest(n - Rest(n, b), b) == 0
  {
    if n >= b {
      RestOfWhole(n - b, b);
    }
  }

  lemma RestOfSum(n: nat, k: nat, b: nat)
    requires b > 0
    ensures Rest(n + k, b) == Rest(Rest(n, b) + k, b)
  {
    RestOfWhole(n, b);
    RestAdds(n - Rest(n, b), Rest(n, b) + k, b);
  }

  /** The padded message is made of whole blocks. */
  lemma PaddedWhole(v: Variant, m: seq<Byte>)
    requires ValidVariant(v)
    ensures Rest(|Padded(v, m)|, v.block) == 0
  {
    RestOfSum(|m| + 1 + v.field, ZeroCount(v, |m|), v.block);
    assert |Padded(v, m)| == |m| + 1 + v.field + ZeroCount(v, |m|);
  }

  /** No shorter padding would do. */
  lemma PaddedLeast(v: Variant, n: nat, k: nat)
    requires ValidVariant(v) && k < ZeroCount(v, n)
    ensures Rest(n + 1 + k + v.field, v.block) != 0
  {
    RestOfSum(n + 1 + v.field, k, v.block);
  }

  /** In terms of the unfinished block: one more block, or two if the length does not fit. */
  lemma ZeroCountIs(v: Variant, whole: nat, tail: nat)
    requires ValidVariant(v) && Rest(whole, v.block) == 0 && tail < v.block
    ensures ZeroCount(v, whole + tail) ==
            if tail < v.block - v.field then v.block - v.field - 1 - tail else 2 * v.block - v.field - 1 - tail
  {
    RestAdds(whole, tail + 1 + v.field, v.block);
  }

  // The length field

  /** Shifting by three bits less cuts a byte out of the length in bits. */
  lemma BitLengthByte(bytes: nat, k: nat)
    requires k >= 1
    ensures Pow2(8 * k - 3) > 0 && Pow256(k) > 0
    ensures bytes / Pow2(8 * k - 3) == 8 * bytes / Pow256(k)
  {
    Pow256IsPow2(k);
    Pow2Add(3, 8 * k - 3);
    assert Pow2(3) == 2 * Pow2(2) == 8;
    DivideTwice(8 * bytes, 8, Pow2(8 * k - 3));
  }

  lemma {:induction false} BitsZero(k: nat)
    ensures Bits(0, k) == 0
  {
    if k > 0 {
      BitsZero(k - 1);
      assert WithBit(0, false) == 0;
    }
  }

  /** A number that needs few bytes is padded with zeros. */
  lemma BigEndianWiden(v: nat, extra: nat, n: nat)
    requires v < Pow256(n)
    ensures BigEndian(v, extra + n) == Zeros(extra) + BigEndian(v, n)
  {
    DigitsWiden(v, extra, n);
    BitsZero(8);
  }

  /** The byte of the length field that is `k` bytes before its end. */
  function LengthByte(bytes: nat, k: nat): Byte {
    if k == 0 then ToByte(bytes * 8 % 256) else ToByte(bytes / Pow2(8 * k - 3) % 256)
  }

  lemma LengthByteIs(bytes: nat, n: nat, i: nat)
    requires i < n
    ensures LengthByte(bytes, n - 1 - i) == BigEndian(8 * bytes, n)[i]
  {
    BigEndianAt(8 * bytes, n, i);
    if i < n - 1 {
      BitLengthByte(bytes, n - 1 - i);
    }
  }

  /** Only so many bytes of the length field are ever set. */
  lemma LengthField(v: Variant, bytes: nat)
    requires ValidVariant(v) && bytes < COUNTER
    ensures BigEndian(8 * bytes, v.field) == Zeros(v.field - v.significant) + BigEndian(8 * bytes, v.significant)
  {
    if v == SHA512 {
      Pow256IsPow2(8);
      Pow2Values();
      assert Pow256(9) == 256 * Pow256(8);
      BigEndianWiden(8 * bytes, 7, 9);
    } else {
      assert Zeros(0) + BigEndian(8 * bytes, 8) == BigEndian(8 * bytes, 8);
    }
  }

  /** Messages whose length in bits fits the length field. */
  predicate FitsField(v: Variant, m: seq<Byte>) {
    8 * |m| < Pow256(v.field)
  }

  /** For these, different messages are padded differently. */
  lemma PaddedInjective(v: Variant, m: seq<Byte>, m': seq<Byte>)
    requires ValidVariant(v) && FitsField(v, m) && FitsField(v, m') && Padded(v, m) == Padded(v, m')
    ensures m == m'
  {
    var p, n := Padded(v, m), |Padded(v, m)| - v.field;
    assert p[n..] == BigEndian(8 * |m|, v.field);
    assert Padded(v, m')[n..] == BigEndian(8 * |m'|, v.field);
    BigEndianInjective(8 * |m|, 8 * |m'|, v.field);
    assert m == p[..|m|] && m' == Padded(v, m')[..|m'|];
  }

  // The functions

  method CryptoHashblocks(compress: Compression, b: nat, state: seq<Byte>, m: seq<Byte>) returns (h: seq<Byte>)
    requires b > 0
    ensures h == HashBlocks(compress, b, state, m)
    ensures |m| < b ==> h == state
    ensures |m| == b ==> h == compress(state, m)
    ensures exists states :: Chained(compress, b, m, states) && states[0] == state && states[|m| / b] == h
  {
    HashBlocksIs(compress, b, state, m);
    HashBlocksChained(compress, b, state, m);
    h := state;
    var done := 0;
    while |m| - done >= b
      invariant 0 <= done <= |m|
      invariant HashBlocks(compress, b, h, m[done..]) == HashBlocks(compress, b, state, m)
    {
      assert m[done..][..b] == m[done..done + b] && m[done..][b..] == m[done + b..];
      h := compress(h, m[done..done + b]);
      done := done + b;
    }
  }

  /** Writes the unfinished block, the bit, zeros and the length; returns one or two blocks. */
  method PadTail(v: Variant, tail: seq<Byte>, bytes: nat, ghost whole: nat) returns (padded: seq<Byte>)
    requires ValidVariant(v) && |tail| < v.block && bytes < COUNTER
    requires Rest(whole, v.block) == 0 && bytes == whole + |tail|
    ensures padded == tail + PaddingOf(v, bytes)
  {
    var n := if |tail| < v.block - v.field then v.block else 2 * v.block;
    var buffer := new Byte[256](_ => 0);
    WriteTail(buffer, tail, n - v.significant);
    ghost var head := buffer[..n - v.significant];
    assert head[..|tail|] == tail;
    WriteLength(buffer, n - v.significant, bytes, v.significant);
    padded := buffer[..n];
    assert padded[..|tail|] == head[..|tail|];
    assert forall j :: |tail| <= j < n - v.significant ==> padded[j] == head[j];
    ZeroCountIs(v, whole, |tail|);
    LengthField(v, bytes);
    TailShape(v, tail, ZeroCount(v, bytes), BigEndian(8 * bytes, v.significant), padded);
  }

  /** The unfinished block, the bit and zeros. */
  method WriteTail(buffer: array<Byte>, tail: seq<Byte>, end: nat)
    requires |tail| < end <= buffer.Length
    modifies buffer
    ensures buffer[..|tail|] == tail && buffer[|tail|] == 0x80
    ensures forall j :: |tail| < j < end ==> buffer[j] == 0
  {
    for i := 0 to |tail|
      invariant forall j :: 0 <= j < i ==> buffer[j] == tail[j]
    {
      buffer[i] := tail[i];
    }
    buffer[|tail|] := 0x80;
    for i := |tail| + 1 to end
      invariant buffer[..|tail|] == tail && buffer[|tail|] == 0x80
      invariant forall j :: |tail| < j < i ==> buffer[j] == 0
    {
      buffer[i] := 0;
    }
  }

  /** The length in bits. */
  method WriteLength(buffer: array<Byte>, start: nat, bytes: nat, count: nat)
    requires start + count <= buffer.Length
    modifies buffer
    ensures buffer[..start] == old(buffer[..start])
    ensures forall j :: 0 <= j < count ==> buffer[start + j] == BigEndian(8 * bytes, count)[j]
  {
    for i := 0 to count
      invariant buffer[..start] == old(buffer[..start])
      invariant forall j :: 0 <= j < i ==> buffer[start + j] == BigEndian(8 * bytes, count)[j]
    {
      LengthByteIs(bytes, count, i);
      buffer[start + i] := LengthByte(bytes, count - 1 - i);
    }
  }

  lemma TailShape(v: Variant, tail: seq<Byte>, zeros: nat, length: seq<Byte>, padded: seq<Byte>)
    requires ValidVariant(v) && |length| == v.significant && |padded| == |tail| + 1 + zeros + v.field
    requires padded[..|tail|] == tail && padded[|tail|] == 0x80
    requires forall j :: |tail| < j < |padded| - v.significant ==> padded[j] == 0
    requires forall j :: 0 <= j < v.significant ==> padded[|padded| - v.significant + j] == length[j]
    ensures padded == tail + ([0x80] + Zeros(zeros) + (Zeros(v.field - v.significant) + length))
  {
    var n, z := |padded| - v.significant, Zeros(v.field - v.significant);
    assert padded[|tail| + 1..n] == Zeros(zeros) + z;
    assert padded[n..] == length;
    CutThrice(padded, |tail|, n);
    FiveParts(tail, [0x80], Zeros(zeros), z, length);
  }

  lemma CutThrice<T>(s: seq<T>, i: nat, n: nat)
    requires i < n <= |s|
    ensures s == s[..i] + [s[i]] + s[i + 1..n] + s[n..]
  {
  }

  class Sha2Context {
    const variant: Variant
    const compress: Compression
    ghost const iv: seq<Byte>
    var state: seq<Byte>
    /** Bytes hashed so far, modulo 2^64. */
    var bytes: nat
    /** What has been hashed so far: whole blocks. */
    ghost var hashed: seq<Byte>

    ghost predicate Valid()
      reads this
    {
      && ValidVariant(variant)
      && Rest(|hashed|, variant.block) == 0
      && state == HashBlocks(compress, variant.block, iv, hashed)
      && bytes == |hashed| % COUNTER
    }

    constructor IncInit(variant: Variant, compress: Compression, iv: seq<Byte>)
      requires ValidVariant(variant)
      ensures Valid() && hashed == [] && this.variant == variant && this.compress == compress && this.iv == iv
    {
      this.variant, this.compress, this.iv, state := variant, compress, iv, iv;
      bytes, hashed := 0, [];
    }

    method IncBlocks(m: seq<Byte>, inblocks: nat)
      requires Valid() && |m| == variant.block * inblocks
      modifies this
      ensures Valid() && hashed == old(hashed) + m
      ensures inblocks == 0 ==> state == old(state)
      ensures inblocks == 1 ==> state == compress(old(state), m)
    {
      WholeBlocks(variant.block, inblocks);
      HashBlocksConcat(compress, variant.block, iv, hashed, m);
      RestAdds(|hashed|, |m|, variant.block);
      state := CryptoHashblocks(compress, variant.block, state, m);
      WrapAdds(|hashed|, |m|);
      bytes := (bytes + variant.block * inblocks) % COUNTER;
      hashed := hashed + m;
    }

    /**
     Hashes the rest of the message: the result is the compression function folded over the padded
     whole message, however it was split, for messages of less than 2^64 bytes.
     */
    method IncFinalize(m: seq<Byte>) returns (out: seq<Byte>)
      requires Valid() && |hashed + m| < COUNTER
      modifies this
      ensures out == HashBlocks(compress, variant.block, iv, Padded(variant, hashed + m))
      ensures var padded := Padded(variant, hashed + m);
              exists states :: Chained(compress, variant.block, padded, states) && states[0] == iv && states[|padded| / variant.block] == out
      ensures hashed == old(hashed)
    {
      var b := variant.block;
      var total := (bytes + |m|) % COUNTER;
      var h := CryptoHashblocks(compress, b, state, m);
      var n := |m| % b;
      RestIsRemainder(|m|, b);
      var tail := m[|m| - n..];
      RestOfWhole(|m|, b);
      RestAdds(|hashed|, |m| - n, b);
      var padded := PadTail(variant, tail, total, |hashed| + (|m| - n));
      FinalBlocks(compress, variant, iv, hashed, m, n);
      out := CryptoHashblocks(compress, b, h, padded);
      HashBlocksChained(compress, b, iv, Padded(variant, hashed + m));
      state := out;
    }
  }

  lemma WrapAdds(m: nat, n: nat)
    ensures (m % COUNTER + n) % COUNTER == (m + n) % COUNTER
  {
  }

  lemma {:induction false} WholeBlocks(b: nat, n: nat)
    requires b > 0
    ensures Rest(b * n, b) == 0
  {
    if n > 0 {
      assert b * n == b * (n - 1) + b;
      WholeBlocks(b, n - 1);
    }
  }

  /** Hashing what was left of the message, then its end with the padding, is hashing it padded. */
  lemma FinalBlocks(compress: Compression, v: Variant, iv: seq<Byte>, hashed: seq<Byte>, m: seq<Byte>, n: nat)
    requires ValidVariant(v) && Rest(|hashed|, v.block) == 0 && n == Rest(|m|, v.block)
    ensures var h := HashBlocks(compress, v.block, HashBlocks(compress, v.block, iv, hashed), m);
            HashBlocks(compress, v.block, h, m[|m| - n..] + PaddingOf(v, |hashed + m|)) ==
            HashBlocks(compress, v.block, iv, Padded(v, hashed + m))
  {
    var whole, tail := m[..|m| - n], m[|m| - n..];
    RestOfWhole(|m|, v.block);
    HashBlocksIgnoresRest(compress, v.block, HashBlocks(compress, v.block, iv, hashed), m, n);
    HashBlocksConcat(compress, v.block, iv, hashed, whole);
    RestAdds(|hashed|, |whole|, v.block);
    var end := tail + PaddingOf(v, |hashed + m|);
    HashBlocksConcat(compress, v.block, iv, hashed + whole, end);
    assert m == whole + tail;
    FourParts(hashed, whole, tail, PaddingOf(v, |hashed + m|));
  }
}
