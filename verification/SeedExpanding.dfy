/** The AES-based seed expander: a counter-mode stream, buffered block by block. */
module SeedExpanding {
  import opened Results
  import opened Powers
  import opened ByteStrings

  const BLOCK: nat := 16

  /** Encrypts a block under a key. */
  type Cipher = (seq<Octet>, seq<Octet>) -> seq<Octet>

  ghost predicate IsCipher(encrypt: Cipher) {
    forall key: seq<Octet>, block: seq<Octet> :: |encrypt(key, block)| == BLOCK
  }

  datatype ExpanderError = BadOutbuf | BadReqLen

  // Counters

  /** The successor of a counter: a carry goes through the bytes 255. */
  function Successor(ds: seq<Octet>): (r: seq<Octet>)
    ensures |r| == |ds|
  {
    if ds == [] then []
    else
      var n := |ds| - 1;
      if ds[n] == 255 then Successor(ds[..n]) + [0] else ds[..n] + [ds[n] + 1]
  }

  lemma {:induction false} SuccessorOfDigits(v: nat, n: nat)
    ensures Successor(Digits(v, n)) == Digits(v + 1, n)
  {
    if n > 0 {
      SuccessorOfDigits(v / 256, n - 1);
      assert Digits(v, n)[..n - 1] == Digits(v / 256, n - 1);
    }
  }

  // The stream

  /** What identifies a stream: key, diversifier and maximal length. */
  datatype Seed = Seed(key: seq<Octet>, diversifier: seq<Octet>, maxlen: nat)

  function CounterBlock(seed: Seed, i: nat): seq<Octet> {
    seed.diversifier + Digits(seed.maxlen, 4) + Digits(i, 4)
  }

  ghost function StreamByte(encrypt: Cipher, seed: Seed, k: nat): Octet
    requires IsCipher(encrypt)
  {
    encrypt(seed.key, CounterBlock(seed, k / BLOCK))[k % BLOCK]
  }

  /** Bytes `from` to `to` of the stream. */
  ghost function Stream(encrypt: Cipher, seed: Seed, from: nat, to: nat): seq<Octet>
    requires IsCipher(encrypt) && from <= to
  {
    seq(to - from, i requires 0 <= i < to - from => StreamByte(encrypt, seed, from + i))
  }

  lemma StreamConcat(encrypt: Cipher, seed: Seed, from: nat, mid: nat, to: nat)
    requires IsCipher(encrypt) && from <= mid <= to
    ensures Stream(encrypt, seed, from, mid) + Stream(encrypt, seed, mid, to) == Stream(encrypt, seed, from, to)
  {
  }

  /** Within a block, the stream is the encrypted counter block. */
  lemma StreamInBlock(encrypt: Cipher, seed: Seed, b: nat, i: nat, j: nat)
    requires IsCipher(encrypt) && i <= j <= BLOCK
    ensures Stream(encrypt, seed, BLOCK * b + i, BLOCK * b + j) == encrypt(seed.key, CounterBlock(seed, b))[i..j]
  {
    var s := Stream(encrypt, seed, BLOCK * b + i, BLOCK * b + j);
    forall k | 0 <= k < |s|
      ensures s[k] == encrypt(seed.key, CounterBlock(seed, b))[i..j][k]
    {
      assert s[k] == StreamByte(encrypt, seed, BLOCK * b + i + k);
      assert (BLOCK * b + i + k) / BLOCK == b && (BLOCK * b + i + k) % BLOCK == i + k;
    }
  }

  /** Below 2^32 blocks no counter block is used twice. */
  lemma CounterBlocksDistinct(seed: Seed, i: nat, j: nat)
    requires i < Pow2(32) && j < Pow2(32) && CounterBlock(seed, i) == CounterBlock(seed, j)
    ensures i == j
  {
    var n := |seed.diversifier| + 4;
    assert CounterBlock(seed, i)[n..] == Digits(i, 4) && CounterBlock(seed, j)[n..] == Digits(j, 4);
    Pow256IsPow2(4);
    DigitsInjective(i, j, 4);
  }

  class SeedExpander {
    const encrypt: Cipher
    const key: seq<Octet>
    const buffer: array<Octet>
    const ctr: array<Octet>
    var bufferPos: nat
    var lengthRemaining: nat
    ghost const seed: Seed
    /** Everything returned so far. */
    ghost var output: seq<Octet>
    /** Blocks encrypted so far. */
    ghost var blocks: nat

    /** All output so far is a prefix of the stream, and shorter than the maximal length. */
    ghost predicate Valid()
      reads this, buffer, ctr
    {
      && Inner()
      && |output| == BLOCK * blocks + bufferPos - BLOCK
      && output == Stream(encrypt, seed, 0, |output|)
      && |output| + lengthRemaining == seed.maxlen && (|output| == 0 || lengthRemaining > 0)
    }

    /** The buffer holds the last block encrypted, and the counter is that of the next. */
    ghost predicate Inner()
      reads this, buffer, ctr
    {
      && IsCipher(encrypt) && key == seed.key && |seed.diversifier| == 8
      && buffer != ctr && buffer.Length == BLOCK && ctr.Length == BLOCK && bufferPos <= BLOCK
      && ctr[..] == CounterBlock(seed, blocks)
      && (blocks == 0 ==> bufferPos == BLOCK)
      && (blocks > 0 ==> buffer[..] == encrypt(key, CounterBlock(seed, blocks - 1)))
    }

    constructor Init(encrypt: Cipher, key: seq<Octet>, diversifier: seq<Octet>, maxlen: nat)
      requires IsCipher(encrypt) && |key| == 32 && |diversifier| == 8
      ensures Valid() && fresh(buffer) && fresh(ctr)
      ensures this.encrypt == encrypt && seed == Seed(key, diversifier, maxlen) && output == []
    {
      this.encrypt, this.key, lengthRemaining := encrypt, key, maxlen;
      bufferPos := BLOCK;
      buffer := new Octet[BLOCK](_ => 0);
      ctr := new Octet[BLOCK](_ => 0);
      seed, output, blocks := Seed(key, diversifier, maxlen), [], 0;
      new;
      InitCounter(diversifier, maxlen);
    }

    method InitCounter(diversifier: seq<Octet>, maxlen: nat)
      requires ctr.Length == BLOCK && |diversifier| == 8
      modifies ctr
      ensures ctr[..] == diversifier + Digits(maxlen, 4) + Digits(0, 4)
    {
      for i := 0 to 8
        invariant forall j :: 0 <= j < i ==> ctr[j] == diversifier[j]
      {
        ctr[i] := diversifier[i];
      }
      DigitsOfFour(maxlen);
      DigitsOfFour(0);
      var rest := maxlen;
      ctr[11], rest := (rest % 256) as Octet, rest / 256;
      ctr[10], rest := (rest % 256) as Octet, rest / 256;
      ctr[9], rest := (rest % 256) as Octet, rest / 256;
      ctr[8] := (rest % 256) as Octet;
      ctr[12], ctr[13], ctr[14], ctr[15] := 0, 0, 0, 0;
    }

    /** Encrypts the next counter block into the buffer. */
    method Refill()
      requires Inner()
      modifies this`bufferPos, this`blocks, buffer, ctr
      ensures Inner() && blocks == old(blocks) + 1 && bufferPos == 0
    {
      FillBuffer(encrypt(key, ctr[..]));
      bufferPos := 0;
      IncrementCounter();
      CounterAdvances(seed, blocks);
      blocks := blocks + 1;
    }

    method FillBuffer(block: seq<Octet>)
      requires buffer.Length == BLOCK == |block|
      modifies buffer
      ensures buffer[..] == block
    {
      for i := 0 to BLOCK
        invariant buffer[..i] == block[..i]
      {
        buffer[i] := block[i];
      }
    }

    method IncrementCounter()
      requires ctr.Length == BLOCK && buffer != ctr
      modifies ctr
      ensures ctr[..] == old(ctr[..12]) + Successor(old(ctr[12..]))
    {
      var i := 15;
      ghost var was := ctr[..];
      assert was[12..] == was[12..16] && ctr[16..] == [];
      while i >= 12
        invariant 11 <= i <= 15
        invariant ctr[..i + 1] == was[..i + 1]
        invariant forall j :: i < j < BLOCK ==> ctr[j] == 0
        invariant Successor(was[12..]) == Successor(was[12..i + 1]) + ctr[i + 1..]
      {
        assert was[12..i + 1][..i - 12] == was[12..i];
        if ctr[i] == 0xff {
          ctr[i] := 0;
        } else {
          ctr[i] := ctr[i] + 1;
          assert ctr[..i] == was[..i];
          assert ctr[..] == was[..12] + (was[12..i] + [was[i] + 1] + ctr[i + 1..]);
          return;
        }
        i := i - 1;
      }
      assert ctr[..] == was[..12] + ctr[12..];
    }

    /**
     Returns the next bytes of the stream. A request that would reach the maximal length, or that
     has no buffer for the output, is refused and changes nothing.
     */
    method Expand(hasBuffer: bool, xlen: nat) returns (r: Result<seq<Octet>, ExpanderError>)
      requires Valid()
      modifies this, buffer, ctr
      ensures Valid()
      ensures r.Ok? <==> hasBuffer && xlen < old(lengthRemaining)
      ensures r.Ok? ==> |r.value| == xlen && output == old(output) + r.value && lengthRemaining == old(lengthRemaining) - xlen
      ensures r.Err? ==> r.error == (if !hasBuffer then BadOutbuf else BadReqLen)
      ensures r.Err? ==> output == old(output) && bufferPos == old(bufferPos) && lengthRemaining == old(lengthRemaining)
      ensures r.Err? ==> buffer[..] == old(buffer[..]) && ctr[..] == old(ctr[..])
    {
      if !hasBuffer {
        return Err(BadOutbuf);
      }
      if xlen >= lengthRemaining {
        return Err(BadReqLen);
      }
      lengthRemaining := lengthRemaining - xlen;
      var x := Take(xlen, |output|);
      StreamConcat(encrypt, seed, 0, |output|, |output| + xlen);
      output := output + x;
      r := Ok(x);
    }

    /** Takes bytes from the buffer, filling it again whenever it is used up. */
    method Take(xlen: nat, ghost start: nat) returns (x: seq<Octet>)
      requires Inner() && start == BLOCK * blocks + bufferPos - BLOCK
      modifies this`bufferPos, this`blocks, buffer, ctr
      ensures Inner() && start + xlen == BLOCK * blocks + bufferPos - BLOCK
      ensures |x| == xlen && x == Stream(encrypt, seed, start, start + xlen)
    {
      x := [];
      while |x| < xlen
        invariant Inner() && |x| <= xlen && start + |x| == BLOCK * blocks + bufferPos - BLOCK
        invariant x == Stream(encrypt, seed, start, start + |x|)
        decreases xlen - |x|, bufferPos
      {
        var more := TakeSome(xlen - |x|, start + |x|);
        StreamConcat(encrypt, seed, start, start + |x|, start + |x| + |more|);
        x := x + more;
      }
    }

    /** Takes what is wanted from the buffer, or all there is, and then fills it again. */
    method TakeSome(left: nat, ghost start: nat) returns (x: seq<Octet>)
      requires Inner() && start == BLOCK * blocks + bufferPos - BLOCK
      modifies this`bufferPos, this`blocks, buffer, ctr
      ensures Inner() && start + |x| == BLOCK * blocks + bufferPos - BLOCK
      ensures |x| <= left && x == Stream(encrypt, seed, start, start + |x|)
      ensures |x| == left || (|x| == BLOCK - old(bufferPos) && bufferPos == 0)
    {
      var n := if left <= BLOCK - bufferPos then left else BLOCK - bufferPos;
      x := TakeBuffered(n);
      if n < left {
        Refill();
      }
    }

    method TakeBuffered(n: nat) returns (x: seq<Octet>)
      requires Inner() && n <= BLOCK - bufferPos && BLOCK * blocks + bufferPos >= BLOCK
      modifies this`bufferPos
      ensures Inner() && bufferPos == old(bufferPos) + n
      ensures var next := BLOCK * blocks + old(bufferPos) - BLOCK;
              |x| == n && x == Stream(encrypt, seed, next, next + n)
    {
      Buffered(bufferPos + n);
      x := buffer[bufferPos..bufferPos + n];
      bufferPos := bufferPos + n;
    }

    /** What is left in the buffer is what comes next in the stream. */
    lemma Buffered(to: nat)
      requires Inner() && bufferPos <= to <= BLOCK && BLOCK * blocks + bufferPos >= BLOCK
      ensures var next := BLOCK * blocks + bufferPos - BLOCK;
              buffer[bufferPos..to] == Stream(encrypt, seed, next, next + (to - bufferPos))
    {
      if blocks > 0 {
        StreamInBlock(encrypt, seed, blocks - 1, bufferPos, to);
        assert BLOCK * (blocks - 1) + bufferPos == BLOCK * blocks + bufferPos - BLOCK;
      }
    }
  }

  lemma DigitsOfFour(v: nat)
    ensures Digits(v, 4) == [(v / 256 / 256 / 256 % 256) as Octet, (v / 256 / 256 % 256) as Octet, (v / 256 % 256) as Octet, (v % 256) as Octet]
  {
    assert Digits(v / 256 / 256 / 256, 1) == Digits(v / 256 / 256 / 256 / 256, 0) + [(v / 256 / 256 / 256 % 256) as Octet];
    assert Digits(v / 256 / 256, 2) == Digits(v / 256 / 256 / 256, 1) + [(v / 256 / 256 % 256) as Octet];
    assert Digits(v / 256, 3) == Digits(v / 256 / 256, 2) + [(v / 256 % 256) as Octet];
  }

  lemma CounterAdvances(seed: Seed, i: nat)
    requires |seed.diversifier| == 8
    ensures var c := CounterBlock(seed, i); c[..12] + Successor(c[12..]) == CounterBlock(seed, i + 1)
  {
    SuccessorOfDigits(i, 4);
    assert CounterBlock(seed, i)[12..] == Digits(i, 4);
    assert CounterBlock(seed, i)[..12] == seed.diversifier + Digits(seed.maxlen, 4);
  }
}
