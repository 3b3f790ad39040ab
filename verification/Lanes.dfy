/** 64-bit words seen as eight bytes, the least significant first. */
module Lanes {
  type Byte = bv8

  type Lane = bv64

  /** Byte `k` of a lane. */
  function ByteOf(x: Lane, k: nat): Byte
    requires k < 8
  {
    (match k
     case 0 => x & 0xff
     case 1 => (x >> 8) & 0xff
     case 2 => (x >> 16) & 0xff
     case 3 => (x >> 24) & 0xff
     case 4 => (x >> 32) & 0xff
     case 5 => (x >> 40) & 0xff
     case 6 => (x >> 48) & 0xff
     case _ => (x >> 56) & 0xff) as Byte
  }

  /** A lane with `b` as byte `k` and zeros elsewhere. */
  function Shifted(b: Byte, k: nat): Lane
    requires k < 8
  {
    var x := b as Lane;
    match k
    case 0 => x
    case 1 => x << 8
    case 2 => x << 16
    case 3 => x << 24
    case 4 => x << 32
    case 5 => x << 40
    case 6 => x << 48
    case _ => x << 56
  }

  /** In numbers: the digits of a lane to the base 256. */
  lemma ByteOfIs(x: Lane)
    ensures ByteOf(x, 0) == (x % 0x100) as Byte && ByteOf(x, 1) == (x / 0x100 % 0x100) as Byte
    ensures ByteOf(x, 2) == (x / 0x1_0000 % 0x100) as Byte && ByteOf(x, 3) == (x / 0x100_0000 % 0x100) as Byte
    ensures ByteOf(x, 4) == (x / 0x1_0000_0000 % 0x100) as Byte && ByteOf(x, 5) == (x / 0x100_0000_0000 % 0x100) as Byte
    ensures ByteOf(x, 6) == (x / 0x1_0000_0000_0000 % 0x100) as Byte && ByteOf(x, 7) == (x / 0x100_0000_0000_0000 % 0x100) as Byte
  {
  }

  lemma ShiftedIs(b: Byte)
    ensures Shifted(b, 0) == b as Lane && Shifted(b, 1) == b as Lane * 0x100
    ensures Shifted(b, 2) == b as Lane * 0x1_0000 && Shifted(b, 3) == b as Lane * 0x100_0000
    ensures Shifted(b, 4) == b as Lane * 0x1_0000_0000 && Shifted(b, 5) == b as Lane * 0x100_0000_0000
    ensures Shifted(b, 6) == b as Lane * 0x1_0000_0000_0000 && Shifted(b, 7) == b as Lane * 0x100_0000_0000_0000
  {
  }

  lemma ByteOfXor(x: Lane, y: Lane, k: nat)
    requires k < 8
    ensures ByteOf(x ^ y, k) == ByteOf(x, k) ^ ByteOf(y, k)
  {
    match k
    case 0 => assert (x ^ y) & 0xff == (x & 0xff) ^ (y & 0xff);
    case 1 => assert ((x ^ y) >> 8) & 0xff == ((x >> 8) & 0xff) ^ ((y >> 8) & 0xff);
    case 2 => assert ((x ^ y) >> 16) & 0xff == ((x >> 16) & 0xff) ^ ((y >> 16) & 0xff);
    case 3 => assert ((x ^ y) >> 24) & 0xff == ((x >> 24) & 0xff) ^ ((y >> 24) & 0xff);
    case 4 => assert ((x ^ y) >> 32) & 0xff == ((x >> 32) & 0xff) ^ ((y >> 32) & 0xff);
    case 5 => assert ((x ^ y) >> 40) & 0xff == ((x >> 40) & 0xff) ^ ((y >> 40) & 0xff);
    case 6 => assert ((x ^ y) >> 48) & 0xff == ((x >> 48) & 0xff) ^ ((y >> 48) & 0xff);
    case _ => assert ((x ^ y) >> 56) & 0xff == ((x >> 56) & 0xff) ^ ((y >> 56) & 0xff);
  }

  lemma ByteOfOr(x: Lane, y: Lane, k: nat)
    requires k < 8
    ensures ByteOf(x | y, k) == ByteOf(x, k) | ByteOf(y, k)
  {
    match k
    case 0 => assert (x | y) & 0xff == (x & 0xff) | (y & 0xff);
    case 1 => assert ((x | y) >> 8) & 0xff == ((x >> 8) & 0xff) | ((y >> 8) & 0xff);
    case 2 => assert ((x | y) >> 16) & 0xff == ((x >> 16) & 0xff) | ((y >> 16) & 0xff);
    case 3 => assert ((x | y) >> 24) & 0xff == ((x >> 24) & 0xff) | ((y >> 24) & 0xff);
    case 4 => assert ((x | y) >> 32) & 0xff == ((x >> 32) & 0xff) | ((y >> 32) & 0xff);
    case 5 => assert ((x | y) >> 40) & 0xff == ((x >> 40) & 0xff) | ((y >> 40) & 0xff);
    case 6 => assert ((x | y) >> 48) & 0xff == ((x >> 48) & 0xff) | ((y >> 48) & 0xff);
    case _ => assert ((x | y) >> 56) & 0xff == ((x >> 56) & 0xff) | ((y >> 56) & 0xff);
  }

  lemma ByteOfShifted(b: Byte, k: nat, j: nat)
    requires k < 8 && j < 8
    ensures ByteOf(Shifted(b, k), j) == if j == k then b else 0
  {
  }

  lemma SameBytes(x: Lane, y: Lane)
    requires forall k :: 0 <= k < 8 ==> ByteOf(x, k) == ByteOf(y, k)
    ensures x == y
  {
    assert ByteOf(x, 0) == ByteOf(y, 0) && ByteOf(x, 1) == ByteOf(y, 1);
    assert ByteOf(x, 2) == ByteOf(y, 2) && ByteOf(x, 3) == ByteOf(y, 3);
    assert ByteOf(x, 4) == ByteOf(y, 4) && ByteOf(x, 5) == ByteOf(y, 5);
    assert ByteOf(x, 6) == ByteOf(y, 6) && ByteOf(x, 7) == ByteOf(y, 7);
  }

  /** Xoring a shifted byte into a lane changes only that byte. */
  lemma XorShifted(x: Lane, k: nat, b: Byte, j: nat)
    requires k < 8 && j < 8
    ensures ByteOf(x ^ Shifted(b, k), j) == ByteOf(x, j) ^ (if j == k then b else 0)
  {
    ByteOfShifted(b, k, j);
    ByteOfXor(x, Shifted(b, k), j);
  }

  lemma OrShifted(x: Lane, k: nat, b: Byte, j: nat)
    requires k < 8 && j < 8
    ensures ByteOf(x | Shifted(b, k), j) == ByteOf(x, j) | (if j == k then b else 0)
  {
    ByteOfShifted(b, k, j);
    OrValue(x, Shifted(b, k), j, if j == k then b else 0);
  }

  // Loading

  /** The lane with these as its first bytes and zeros after them. */
  function Loaded(bytes: seq<Byte>): Lane
    requires |bytes| <= 8
  {
    if bytes == [] then 0
    else Loaded(bytes[..|bytes| - 1]) | Shifted(bytes[|bytes| - 1], |bytes| - 1)
  }

  method Load64(x: seq<Byte>) returns (r: Lane)
    requires |x| == 8
    ensures r == Loaded(x)
  {
    r := 0;
    for i := 0 to 8
      invariant r == Loaded(x[..i])
    {
      assert x[..i + 1][..i] == x[..i];
      r := r | Shifted(x[i], i);
    }
    assert x[..8] == x;
  }

  lemma OrZero(b: Byte)
    ensures b | 0 == b && 0 | b == b
  {
  }

  /** A loaded lane holds the bytes it was loaded from. */
  lemma {:induction false} ByteOfLoaded(bytes: seq<Byte>, k: nat)
    requires |bytes| <= 8 && k < 8
    ensures ByteOf(Loaded(bytes), k) == if k < |bytes| then bytes[k] else 0
  {
    if bytes == [] {
      ByteOfShifted(0, 0, k);
    } else {
      var n := |bytes| - 1;
      ByteOfLoaded(bytes[..n], k);
      OrShifted(Loaded(bytes[..n]), n, bytes[n], k);
      OrZero(bytes[k % |bytes|]);
    }
  }

  lemma OrValue(x: Lane, y: Lane, k: nat, b: Byte)
    requires k < 8 && ByteOf(y, k) == b
    ensures ByteOf(x | y, k) == ByteOf(x, k) | b
  {
    ByteOfOr(x, y, k);
  }

  lemma XorValue(x: Lane, y: Lane, k: nat, b: Byte)
    requires k < 8 && ByteOf(y, k) == b
    ensures ByteOf(x ^ y, k) == ByteOf(x, k) ^ b
  {
    ByteOfXor(x, y, k);
  }

  /** The sum of the bytes times powers of 256. */
  lemma LoadedIs(x: seq<Byte>)
    requires |x| == 8
    ensures Loaded(x) == x[0] as Lane + x[1] as Lane * 0x100 + x[2] as Lane * 0x1_0000 + x[3] as Lane * 0x100_0000 +
                         x[4] as Lane * 0x1_0000_0000 + x[5] as Lane * 0x100_0000_0000 +
                         x[6] as Lane * 0x1_0000_0000_0000 + x[7] as Lane * 0x100_0000_0000_0000
  {
    var sum := Sum(x[0], x[1], x[2], x[3], x[4], x[5], x[6], x[7]);
    forall k | 0 <= k < 8
      ensures ByteOf(Loaded(x), k) == ByteOf(sum, k)
    {
      ByteOfLoaded(x, k);
      ByteOfSum(x[0], x[1], x[2], x[3], x[4], x[5], x[6], x[7]);
    }
    SameBytes(Loaded(x), sum);
  }

  function Sum(b0: Byte, b1: Byte, b2: Byte, b3: Byte, b4: Byte, b5: Byte, b6: Byte, b7: Byte): Lane {
    b0 as Lane + b1 as Lane * 0x100 + b2 as Lane * 0x1_0000 + b3 as Lane * 0x100_0000 +
    b4 as Lane * 0x1_0000_0000 + b5 as Lane * 0x100_0000_0000 +
    b6 as Lane * 0x1_0000_0000_0000 + b7 as Lane * 0x100_0000_0000_0000
  }

  lemma ByteOfSum(b0: Byte, b1: Byte, b2: Byte, b3: Byte, b4: Byte, b5: Byte, b6: Byte, b7: Byte)
    ensures var s := Sum(b0, b1, b2, b3, b4, b5, b6, b7);
            && ByteOf(s, 0) == b0 && ByteOf(s, 1) == b1 && ByteOf(s, 2) == b2 && ByteOf(s, 3) == b3
            && ByteOf(s, 4) == b4 && ByteOf(s, 5) == b5 && ByteOf(s, 6) == b6 && ByteOf(s, 7) == b7
  {
  }

  /** A lane is the sum of its bytes times powers of 256. */
  lemma BytesOfLane(x: Lane)
    ensures x == ByteOf(x, 0) as Lane + ByteOf(x, 1) as Lane * 0x100 + ByteOf(x, 2) as Lane * 0x1_0000 +
                 ByteOf(x, 3) as Lane * 0x100_0000 + ByteOf(x, 4) as Lane * 0x1_0000_0000 +
                 ByteOf(x, 5) as Lane * 0x100_0000_0000 + ByteOf(x, 6) as Lane * 0x1_0000_0000_0000 +
                 ByteOf(x, 7) as Lane * 0x100_0000_0000_0000
  {
  }
}
