/** Numbers as strings of bytes, the most significant first. */
module ByteStrings {
  import opened Results
  import opened Lanes
  import opened Powers

  /** The byte with the last `k` binary digits of a number. */
  function Bits(n: nat, k: nat): Byte {
    if k == 0 then 0 else WithBit(Bits(n / 2, k - 1), n % 2 == 1)
  }

  function WithBit(b: Byte, bit: bool): Byte {
    (b << 1) | (if bit then 1 else 0)
  }

  function ToByte(n: nat): Byte
    requires n < 256
  {
    Bits(n, 8)
  }

  /** The number that the last `k` binary digits of a byte stand for. */
  function FromBits(b: Byte, k: nat): nat {
    if k == 0 then 0 else 2 * FromBits(b >> 1, k - 1) + (if b & 1 == 1 then 1 else 0)
  }

  function Mask(k: nat): Byte {
    match k
    case 0 => 0
    case 1 => 1
    case 2 => 3
    case 3 => 7
    case 4 => 15
    case 5 => 31
    case 6 => 63
    case 7 => 127
    case _ => 255
  }

  lemma MaskGrows(b: Byte, bit: bool, k: nat)
    requires k < 8 && b <= Mask(k)
    ensures WithBit(b, bit) <= Mask(k + 1) && WithBit(b, bit) >> 1 == b && (WithBit(b, bit) & 1 == 1 <==> bit)
  {
  }

  lemma {:induction false} BitsRoundTrip(n: nat, k: nat)
    requires k <= 8 && n < Pow2(k)
    ensures Bits(n, k) <= Mask(k) && FromBits(Bits(n, k), k) == n
  {
    if k > 0 {
      BitsRoundTrip(n / 2, k - 1);
      MaskGrows(Bits(n / 2, k - 1), n % 2 == 1, k - 1);
    }
  }

  lemma ToByteInjective(m: nat, n: nat)
    requires m < 256 && n < 256 && ToByte(m) == ToByte(n)
    ensures m == n
  {
    Pow2Values();
    BitsRoundTrip(m, 8);
    BitsRoundTrip(n, 8);
  }

  /** As a number, a byte is what its binary digits stand for. */
  lemma {:induction false} FromBitsIs(b: Byte, k: nat)
    requires k <= 8 && b <= Mask(k)
    ensures FromBits(b, k) == b as nat
  {
    if k > 0 {
      HalvedByte(b, k);
      FromBitsIs(b >> 1, k - 1);
    }
  }

  lemma HalvedByte(b: Byte, k: nat)
    requires 0 < k <= 8 && b <= Mask(k)
    ensures b as nat == 2 * ((b >> 1) as nat) + (if b & 1 == 1 then 1 else 0)
    ensures b >> 1 <= Mask(k - 1)
  {
  }

  lemma ToByteIs(n: nat)
    requires n < 256
    ensures ToByte(n) as nat == n
  {
    Pow2Values();
    BitsRoundTrip(n, 8);
    FromBitsIs(ToByte(n), 8);
  }

  // Digits to the base 256

  newtype Octet = n: int | 0 <= n < 256

  function Pow256(n: nat): nat {
    if n == 0 then 1 else 256 * Pow256(n - 1)
  }

  lemma {:induction false} Pow256IsPow2(k: nat)
    ensures Pow256(k) == Pow2(8 * k)
  {
    if k > 0 {
      Pow256IsPow2(k - 1);
      Pow2Add(8, 8 * (k - 1));
      Pow2Values();
    }
  }

  /** The last `n` digits of a number, the most significant first. */
  function Digits(v: nat, n: nat): (ds: seq<Octet>)
    ensures |ds| == n
  {
    if n == 0 then [] else Digits(v / 256, n - 1) + [(v % 256) as Octet]
  }

  /** Each digit is cut out by a shift. */
  lemma {:induction false} DigitsAt(v: nat, n: nat, i: nat)
    requires i < n
    ensures Pow256(n - 1 - i) > 0
    ensures Digits(v, n)[i] as int == v / Pow256(n - 1 - i) % 256
  {
    if i < n - 1 {
      DigitsAt(v / 256, n - 1, i);
      DivideTwice(v, 256, Pow256(n - 2 - i));
    }
  }

  lemma {:induction false} DigitsInjective(v: nat, w: nat, n: nat)
    requires v < Pow256(n) && w < Pow256(n) && Digits(v, n) == Digits(w, n)
    ensures v == w
  {
    if n > 0 {
      assert Digits(v, n)[..n - 1] == Digits(v / 256, n - 1) && Digits(w, n)[..n - 1] == Digits(w / 256, n - 1);
      assert Digits(v, n)[n - 1] == Digits(w, n)[n - 1];
      SmallerQuotient(v, Pow256(n - 1));
      SmallerQuotient(w, Pow256(n - 1));
      DigitsInjective(v / 256, w / 256, n - 1);
    }
  }

  lemma SmallerQuotient(v: nat, p: nat)
    requires v < 256 * p
    ensures v / 256 < p
  {
  }

  lemma {:induction false} DigitsOfZero(n: nat)
    ensures Digits(0, n) == Filled(0, n)
  {
    if n > 0 {
      DigitsOfZero(n - 1);
    }
  }

  /** A number that needs few digits is padded with zeros. */
  lemma {:induction false} DigitsWiden(v: nat, extra: nat, n: nat)
    requires v < Pow256(n)
    ensures Digits(v, extra + n) == Filled(0, extra) + Digits(v, n)
  {
    if n == 0 {
      DigitsOfZero(extra);
    } else {
      SmallerQuotient(v, Pow256(n - 1));
      DigitsWiden(v / 256, extra, n - 1);
    }
  }

  // Strings of bytes

  function AsBytes(ds: seq<Octet>): (bytes: seq<Byte>)
    ensures |bytes| == |ds|
  {
    seq(|ds|, i requires 0 <= i < |ds| => ToByte(ds[i] as nat))
  }

  /** The last `n` bytes of a number. */
  function BigEndian(v: nat, n: nat): (bytes: seq<Byte>)
    ensures |bytes| == n
  {
    AsBytes(Digits(v, n))
  }

  lemma BigEndianAt(v: nat, n: nat, i: nat)
    requires i < n
    ensures Pow256(n - 1 - i) > 0
    ensures BigEndian(v, n)[i] == ToByte(v / Pow256(n - 1 - i) % 256)
  {
    DigitsAt(v, n, i);
  }

  lemma BigEndianInjective(v: nat, w: nat, n: nat)
    requires v < Pow256(n) && w < Pow256(n) && BigEndian(v, n) == BigEndian(w, n)
    ensures v == w
  {
    var ds, es := Digits(v, n), Digits(w, n);
    forall i | 0 <= i < n
      ensures ds[i] == es[i]
    {
      assert BigEndian(v, n)[i] == BigEndian(w, n)[i];
      ToByteInjective(ds[i] as nat, es[i] as nat);
    }
    DigitsInjective(v, w, n);
  }

  /** The number that bytes stand for, the most significant first. */
  function Value(bytes: seq<Byte>): nat {
    if bytes == [] then 0 else 256 * Value(bytes[..|bytes| - 1]) + bytes[|bytes| - 1] as nat
  }

  lemma {:induction false} BigEndianValue(v: nat, n: nat)
    requires v < Pow256(n)
    ensures Value(BigEndian(v, n)) == v
  {
    if n > 0 {
      SmallerQuotient(v, Pow256(n - 1));
      BigEndianValue(v / 256, n - 1);
      assert BigEndian(v, n)[..n - 1] == BigEndian(v / 256, n - 1);
      ToByteIs(v % 256);
    }
  }
}
