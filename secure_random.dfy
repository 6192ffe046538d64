/**
 The SecureRandom class of random/secure-random.js: the rejection sampler, the
 string generator built on it, and the entropy pool. The operating system's byte
 source is the finite stream of bytes passed to each sampling call; SHA-256 is the
 function the object is constructed with.
 */
module SecureRandomModel {
  import opened Wrappers
  import opened RandomBounds

  /** A SHA-256 digest: 32 bytes. */
  type Digest = d: seq<byte> | |d| == 32 witness seq(32, _ => 0 as byte)

  /** The 62-character alphanumeric set used when no charset is given. */
  const DefaultCharset: string := "abcdefghijklmnopqrstuvwxyzABCDEFGHIJKLMNOPQRSTUVWXYZ0123456789"

  /** The error thrown by getEntropy. */
  datatype PoolError = NotEnoughEntropy

  /**
   Buffer.slice's reading of an index into a buffer of length len: a negative index
   counts back from the end, and the result is clamped to [0, len].
   */
  function SliceIndex(i: int, len: nat): (k: nat)
    ensures k <= len
    ensures 0 <= i <= len ==> k == i
  {
    if i < 0 then (if len + i < 0 then 0 else len + i)
    else if i > len then len
    else i
  }

  class SecureRandom {
    /** The hash the pool applies to contributed entropy (SHA-256). */
    const sha256: seq<byte> -> Digest
    /** The pooled bytes, oldest first. */
    var entropyPool: seq<byte>

    constructor (sha256: seq<byte> -> Digest)
      ensures this.sha256 == sha256
      ensures entropyPool == []
    {
      this.sha256 := sha256;
      entropyPool := [];
    }

    /**
     getRandomInt(min, max) reading its draws from rng. It returns the sampled value
     and how many bytes of rng it consumed. The stream is assumed to hold an accepted
     draw; a real byte source yields one with probability 1.
     */
    method GetRandomInt(min: int, max: int, rng: seq<byte>) returns (r: int, used: nat)
      requires min <= max
      requires SampleInt(min, max, rng).Some?
      ensures min <= r <= max
      ensures SampleInt(min, max, rng) == Some((r, used))
    {
      var range := max - min + 1;
      var bytesNeeded := BytesNeeded(range);
      var maxNum := Pow256(bytesNeeded);
      var maxRange := MaxRange(range, maxNum);
      ghost var first := FirstAcceptAt(rng, bytesNeeded, maxRange, 0).value;

      var pos := 0;
      var randomNum := DrawAt(rng, bytesNeeded, pos);
      while randomNum >= maxRange
        invariant pos <= first
        invariant FirstAcceptAt(rng, bytesNeeded, maxRange, pos) == Some(first)
        invariant randomNum == DrawAt(rng, bytesNeeded, pos)
        decreases |rng| - pos
      {
        pos := pos + bytesNeeded;
        randomNum := DrawAt(rng, bytesNeeded, pos);
      }
      r := min + randomNum % range;
      used := pos + bytesNeeded;
    }

    /**
     getRandomString(length, charset): one sample per position, position i picking
     charset[getRandomInt(0, |charset| - 1)] with that call reading the stream rngs[i].
     A length of zero or less gives the empty string.
     */
    method GetRandomString(rngs: seq<seq<byte>>, length: int, charset: string := DefaultCharset) returns (s: string)
      requires length > 0 ==> |charset| >= 1 && |rngs| >= length
      requires length > 0 ==> forall i :: 0 <= i < length ==> SampleInt(0, |charset| - 1, rngs[i]).Some?
      ensures |s| == if length <= 0 then 0 else length
      ensures forall i :: 0 <= i < |s| ==> s[i] in charset
      ensures forall i :: 0 <= i < |s| ==> s[i] == charset[SampleInt(0, |charset| - 1, rngs[i]).value.0]
    {
      s := "";
      if length <= 0 {
        return;
      }
      var charsetLength := |charset|;
      var i := 0;
      while i < length
        invariant 0 <= i <= length
        invariant |s| == i
        invariant forall k :: 0 <= k < i ==> s[k] == charset[SampleInt(0, charsetLength - 1, rngs[k]).value.0]
      {
        var randomIndex, _ := GetRandomInt(0, charsetLength - 1, rngs[i]);
        s := s + [charset[randomIndex]];
        i := i + 1;
      }
    }

    /** addEntropy(data): the digest of data is appended to the pool; data itself is not kept. */
    method AddEntropy(data: seq<byte>)
      modifies this
      ensures entropyPool == old(entropyPool) + sha256(data)
      ensures |entropyPool| == |old(entropyPool)| + 32
    {
      var hash := sha256(data);
      entropyPool := entropyPool + hash;
    }

    /**
     getEntropy(length): fails when the pool holds fewer than length bytes and leaves it
     alone; otherwise hands out the oldest bytes and keeps the rest, in order.
     */
    method GetEntropy(length: int) returns (res: Result<seq<byte>, PoolError>)
      modifies this
      ensures res.Failure? <==> |old(entropyPool)| < length
      ensures res.Failure? ==> entropyPool == old(entropyPool)
      ensures res.Success? ==> res.value + entropyPool == old(entropyPool)
      ensures res.Success? ==> |res.value| == SliceIndex(length, |old(entropyPool)|)
      ensures res.Success? && 0 <= length ==> |res.value| == length
    {
      if |entropyPool| < length {
        return Failure(NotEnoughEntropy);
      }
      var cut := SliceIndex(length, |entropyPool|);
      var entropy := entropyPool[..cut];
      entropyPool := entropyPool[cut..];
      res := Success(entropy);
    }
  }

  /**
   Two contributions followed by two withdrawals of 64 bytes in all: the withdrawals
   read back exactly the two digests in order, and the drained pool then refuses
   any further byte.
   */
  method PoolRoundTrip(sha256: seq<byte> -> Digest, d1: seq<byte>, d2: seq<byte>, n: nat)
    returns (first: seq<byte>, second: seq<byte>, refused: bool)
    requires n <= 64
    ensures |first| == n && first + second == sha256(d1) + sha256(d2)
    ensures refused
  {
    var pool := new SecureRandom(sha256);
    pool.AddEntropy(d1);
    pool.AddEntropy(d2);
    assert pool.entropyPool == sha256(d1) + sha256(d2);
    var a := pool.GetEntropy(n);
    var b := pool.GetEntropy(64 - n);
    assert pool.entropyPool == [];
    first, second := a.value, b.value;
    var c := pool.GetEntropy(1);
    refused := c.Failure?;
  }
}
