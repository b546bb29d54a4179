/**
 * The `hmac(fn, key, data)` function of crypto.js: key normalisation, the
 * inner and outer pads, and the nested digest of section 2 of RFC 2104,
 * with a block size fixed at 64 bytes for every algorithm.
 */
module KeyedDigest {
  import opened Bytes
  import opened Algorithms

  const InnerPadByte: byte := 0x36
  const OuterPadByte: byte := 0x5c

  /** `zeroBuffer`: one block of zero bytes. */
  function ZeroBuffer(): seq<byte>
  {
    Zeros(BlockSize)
  }

  /**
   * Key normalisation. A key longer than a block is replaced by its digest,
   * which is NOT padded afterwards (the padding sits in an `else if`); a
   * shorter key is concatenated with the zero block and cut to one block; a
   * key of exactly one block is kept.
   */
  function NormalizeKey(fn: DigestFn, key: seq<byte>): (k: seq<byte>)
    ensures |key| <= BlockSize ==> |k| == BlockSize
    ensures |key| > BlockSize ==> k == fn(key)
    ensures |key| == BlockSize ==> k == key
    ensures |key| < BlockSize ==>
              |k| == BlockSize && k[..|key|] == key &&
              forall i :: |key| <= i < BlockSize ==> k[i] == 0
  {
    if |key| > BlockSize then fn(key)
    else if |key| < BlockSize then (key + ZeroBuffer())[..BlockSize]
    else key
  }

  /**
   * One pad byte as crypto.js computes it: `key[i] ^ c`, where reading past
   * the end of a short (hashed) key yields `undefined`, which `^` treats as 0.
   */
  function PadByte(k: seq<byte>, i: nat, c: byte): byte
  {
    (if i < |k| then k[i] else 0) ^ c
  }

  /** The pad built from normalised key `k` and pad constant `c`. */
  function Pad(k: seq<byte>, c: byte): (p: seq<byte>)
    ensures |p| == BlockSize
    ensures forall i :: 0 <= i < BlockSize ==> p[i] == PadByte(k, i, c)
  {
    seq(BlockSize, i requires 0 <= i < BlockSize => PadByte(k, i, c))
  }

  /**
   * The pad loop: fills `ipad` and `opad` one position at a time over the
   * whole block.
   */
  method ComputePads(k: seq<byte>) returns (ipad: seq<byte>, opad: seq<byte>)
    ensures |ipad| == BlockSize && |opad| == BlockSize
    ensures ipad == Pad(k, InnerPadByte)
    ensures opad == Pad(k, OuterPadByte)
  {
    ipad := Zeros(BlockSize);
    opad := Zeros(BlockSize);
    var i := 0;
    while i < BlockSize
      invariant 0 <= i <= BlockSize
      invariant |ipad| == BlockSize && |opad| == BlockSize
      invariant forall j :: 0 <= j < i ==> ipad[j] == PadByte(k, j, InnerPadByte)
      invariant forall j :: 0 <= j < i ==> opad[j] == PadByte(k, j, OuterPadByte)
    {
      ipad := ipad[i := PadByte(k, i, InnerPadByte)];
      opad := opad[i := PadByte(k, i, OuterPadByte)];
      i := i + 1;
    }
  }

  /**
   * `hmac(fn, key, data)`: digest of the outer pad followed by the inner
   * digest. Whenever a hashed key fits in one block, this is the RFC 2104
   * HMAC.
   */
  function Hmac(fn: DigestFn, key: seq<byte>, data: seq<byte>): (r: seq<byte>)
    ensures |key| <= BlockSize || |fn(key)| <= BlockSize ==> r == RfcHmac(fn, key, data)
  {
    var k := NormalizeKey(fn, key);
    PadsMatchRfcWhenFit(fn, key);
    fn(Pad(k, OuterPadByte) + fn(Pad(k, InnerPadByte) + data))
  }

  /** `hmac` as a method that runs the pad loop, as crypto.js does. */
  method ComputeHmac(fn: DigestFn, key: seq<byte>, data: seq<byte>) returns (r: seq<byte>)
    requires |key| > BlockSize ==> |fn(key)| <= BlockSize
    ensures r == RfcHmac(fn, key, data)
  {
    var k := NormalizeKey(fn, key);
    var ipad, opad := ComputePads(k);
    var inner := fn(ipad + data);
    r := fn(opad + inner);
    HmacIsRfc2104(fn, key, data);
  }

  // ---------------------------------------------------------------------
  // Reference construction, written the way section 2 of RFC 2104 states it.

  /** Bytewise XOR of `a` with a constant byte. */
  function XorConst(a: seq<byte>, c: byte): (x: seq<byte>)
    ensures |x| == |a|
    ensures forall i :: 0 <= i < |a| ==> x[i] == a[i] ^ c
  {
    seq(|a|, i requires 0 <= i < |a| => a[i] ^ c)
  }

  /**
   * RFC 2104 key: a key longer than B is first hashed; the result (or the
   * original key) then has zeros appended up to B bytes.
   */
  function RfcKey(fn: DigestFn, key: seq<byte>): (k0: seq<byte>)
    requires |key| > BlockSize ==> |fn(key)| <= BlockSize
    ensures |k0| == BlockSize
  {
    var k := if |key| > BlockSize then fn(key) else key;
    k + Zeros(BlockSize - |k|)
  }

  /** H(K XOR opad, H(K XOR ipad, text)) with ipad = 0x36 and opad = 0x5c repeated B times. */
  function RfcHmac(fn: DigestFn, key: seq<byte>, text: seq<byte>): seq<byte>
    requires |key| > BlockSize ==> |fn(key)| <= BlockSize
  {
    var k0 := RfcKey(fn, key);
    fn(XorConst(k0, OuterPadByte) + fn(XorConst(k0, InnerPadByte) + text))
  }

  // ---------------------------------------------------------------------
  // Properties.

  /**
   * Reading a key no longer than a block with out-of-range bytes as 0 gives
   * the same pad as XOR-ing the zero-padded key.
   */
  lemma PadIsZeroPadded(k: seq<byte>, c: byte)
    requires |k| <= BlockSize
    ensures Pad(k, c) == XorConst(k + Zeros(BlockSize - |k|), c)
  {
    var z := k + Zeros(BlockSize - |k|);
    forall i | 0 <= i < BlockSize
      ensures Pad(k, c)[i] == XorConst(z, c)[i]
    {
      if i < |k| {
        assert z[i] == k[i];
      } else {
        assert z[i] == Zeros(BlockSize - |k|)[i - |k|] == 0;
      }
    }
  }

  /** The normalised key, zero-padded, is exactly the RFC 2104 key. */
  lemma NormalizedKeyIsRfcKey(fn: DigestFn, key: seq<byte>)
    requires |key| > BlockSize ==> |fn(key)| <= BlockSize
    ensures var k := NormalizeKey(fn, key);
            k + Zeros(BlockSize - |k|) == RfcKey(fn, key)
  {
    var k := NormalizeKey(fn, key);
    if |key| < BlockSize {
      assert Zeros(0) == [];
      var r := key + Zeros(BlockSize - |key|);
      assert RfcKey(fn, key) == r;
      forall i | 0 <= i < BlockSize
        ensures k[i] == r[i]
      {
        if i < |key| {
          assert k[i] == k[..|key|][i];
        }
      }
    } else if |key| == BlockSize {
      assert Zeros(0) == [];
    }
  }

  /** Both pads, as crypto.js builds them, equal the RFC 2104 pads. */
  lemma PadsMatchRfc(fn: DigestFn, key: seq<byte>, c: byte)
    requires |key| > BlockSize ==> |fn(key)| <= BlockSize
    ensures Pad(NormalizeKey(fn, key), c) == XorConst(RfcKey(fn, key), c)
  {
    var k := NormalizeKey(fn, key);
    PadIsZeroPadded(k, c);
    NormalizedKeyIsRfcKey(fn, key);
  }

  /** Both pads match the RFC 2104 pads whenever a hashed key fits in one block. */
  lemma PadsMatchRfcWhenFit(fn: DigestFn, key: seq<byte>)
    ensures |key| <= BlockSize || |fn(key)| <= BlockSize ==>
              && Pad(NormalizeKey(fn, key), InnerPadByte) == XorConst(RfcKey(fn, key), InnerPadByte)
              && Pad(NormalizeKey(fn, key), OuterPadByte) == XorConst(RfcKey(fn, key), OuterPadByte)
  {
    if |key| <= BlockSize || |fn(key)| <= BlockSize {
      PadsMatchRfc(fn, key, InnerPadByte);
      PadsMatchRfc(fn, key, OuterPadByte);
    }
  }

  /**
   * The HMAC of crypto.js is the RFC 2104 HMAC for every key length and
   * message, provided a hashed key fits in one block (true of every
   * registered digest).
   */
  lemma HmacIsRfc2104(fn: DigestFn, key: seq<byte>, data: seq<byte>)
    requires |key| > BlockSize ==> |fn(key)| <= BlockSize
    ensures Hmac(fn, key, data) == RfcHmac(fn, key, data)
  {
  }


  /** An HMAC result is itself a digest, so it has the algorithm's digest length. */
  lemma HmacLength(reg: Registry, alg: Alg, key: seq<byte>, data: seq<byte>)
    ensures |Hmac(Fn(reg, alg), key, data)| == DigestLength(alg)
  {
    var fn := Fn(reg, alg);
    var k := NormalizeKey(fn, key);
    FnLength(reg, alg, Pad(k, OuterPadByte) + fn(Pad(k, InnerPadByte) + data));
  }
}
