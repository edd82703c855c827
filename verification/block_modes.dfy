/**
  The two modes of one-block AES that CCM combines.

  The engine drives the block cipher through three hardware and library
  entry points: KM (encrypt one block), KMAC (CBC-MAC chaining over whole
  blocks, updating a 16-byte chaining value in place) and a counter-mode
  routine. All three reduce to one keyed permutation of 16-byte blocks,
  which stays uninterpreted here: every operation receives it as a
  `Cipher` parameter. Nothing below depends on what AES computes.
 */
module BlockModes {
  import opened Bytes

  /** One-block encryption under a key. */
  type Cipher = (seq<bv8>, Block) -> Block

  /** Number of 16-byte blocks needed to hold n bytes. */
  function BlockCount(n: nat): nat
  {
    (n + 15) / 16
  }

  /** Whole blocks, plus one for a partial block. */
  lemma LemmaBlockCount(n: nat)
    ensures BlockCount(n) == n / 16 + (if n % 16 != 0 then 1 else 0)
  {
  }

  /** Number of zero bytes that extend n bytes to a whole number of blocks. */
  function PadLength(n: nat): nat
  {
    (16 - n % 16) % 16
  }

  /** Byte-wise XOR of two blocks. */
  function Xor(a: Block, b: Block): Block
  {
    seq(16, i requires 0 <= i < 16 => a[i] ^ b[i])
  }

  /** XOR of the bytes of s into the first |s| bytes of an accumulator block. */
  function XorInto(acc: Block, s: seq<bv8>): (r: Block)
    requires |s| <= 16
  {
    seq(16, i requires 0 <= i < 16 => if i < |s| then acc[i] ^ s[i] else acc[i])
  }

  /** Byte-wise XOR of s with the first |s| bytes of a key stream. */
  function XorBytes(s: seq<bv8>, pad: seq<bv8>): (r: seq<bv8>)
    requires |s| <= |pad|
    ensures |r| == |s|
  {
    seq(|s|, i requires 0 <= i < |s| => s[i] ^ pad[i])
  }

  /** s followed by zero bytes up to the next multiple of 16. */
  function ZeroPad(s: seq<bv8>): (r: seq<bv8>)
    ensures |r| % 16 == 0 && |s| <= |r| < |s| + 16
    ensures |r| == 16 * BlockCount(|s|)
  {
    s + Zeros(PadLength(|s|))
  }

  /** Padding a whole block followed by more data pads only the data behind it. */
  lemma LemmaZeroPadAfterBlock(head: seq<bv8>, rest: seq<bv8>)
    requires |head| == 16
    ensures ZeroPad(head + rest) == head + ZeroPad(rest)
  {
    assert PadLength(|head + rest|) == PadLength(|rest|);
  }

  /** A non-empty string of at most 16 bytes pads to exactly one block. */
  lemma LemmaZeroPadShort(s: seq<bv8>)
    requires 0 < |s| <= 16
    ensures ZeroPad(s) == s + Zeros(16 - |s|)
  {
    assert PadLength(|s|) == 16 - |s|;
  }

  /**
    CBC-MAC chaining from the chaining value `iv` over the whole blocks of
    the data: the value a KMAC call leaves in its parameter block. Every
    caller passes whole blocks; a trailing partial block would be ignored.
   */
  function CbcMac(aes: Cipher, key: seq<bv8>, iv: Block, data: seq<bv8>): Block
    decreases |data|
  {
    if |data| < 16 then iv else CbcMac(aes, key, aes(key, Xor(iv, data[..16])), data[16..])
  }

  /** Chaining over a + b is chaining over a and then over b. */
  lemma {:induction false} LemmaCbcMacAppend(aes: Cipher, key: seq<bv8>, iv: Block, a: seq<bv8>, b: seq<bv8>)
    requires |a| % 16 == 0 && |b| % 16 == 0
    ensures CbcMac(aes, key, iv, a + b) == CbcMac(aes, key, CbcMac(aes, key, iv, a), b)
    decreases |a|
  {
    if |a| == 0 {
      assert a + b == b;
    } else {
      assert (a + b)[..16] == a[..16];
      assert (a + b)[16..] == a[16..] + b;
      LemmaCbcMacAppend(aes, key, aes(key, Xor(iv, a[..16])), a[16..], b);
    }
  }

  /** Chaining over one block is one encryption of the XOR. */
  lemma LemmaCbcMacOneBlock(aes: Cipher, key: seq<bv8>, iv: Block, b: seq<bv8>)
    requires |b| == 16
    ensures CbcMac(aes, key, iv, b) == aes(key, Xor(iv, b))
  {
    assert b[..16] == b;
    assert |b[16..]| == 0;
  }

  /**
    Absorbing arbitrary data into a running CBC-MAC the way the engine does
    it: the whole blocks through KMAC, then a final partial block XORed into
    the chaining value and encrypted once with KM. The result is the CBC-MAC
    over the data zero-padded to a whole number of blocks.
   */
  function Absorb(aes: Cipher, key: seq<bv8>, icv: Block, data: seq<bv8>): (r: Block)
    ensures r == CbcMac(aes, key, icv, ZeroPad(data))
  {
    var full := |data| - |data| % 16;
    var mac := CbcMac(aes, key, icv, data[..full]);
    var r := if |data| % 16 == 0 then mac else aes(key, XorInto(mac, data[full..]));
    LemmaAbsorbIsPaddedMac(aes, key, icv, data);
    r
  }

  lemma LemmaAbsorbIsPaddedMac(aes: Cipher, key: seq<bv8>, icv: Block, data: seq<bv8>)
    ensures var full := |data| - |data| % 16;
            var mac := CbcMac(aes, key, icv, data[..full]);
            CbcMac(aes, key, icv, ZeroPad(data))
            == if |data| % 16 == 0 then mac else aes(key, XorInto(mac, data[full..]))
  {
    var full := |data| - |data| % 16;
    var head, tail := data[..full], data[full..];
    var mac := CbcMac(aes, key, icv, head);
    if |data| % 16 == 0 {
      assert ZeroPad(data) == data == head;
    } else {
      var last := tail + Zeros(PadLength(|data|));
      assert |last| == 16;
      assert ZeroPad(data) == head + last;
      LemmaCbcMacAppend(aes, key, icv, head, last);
      LemmaCbcMacOneBlock(aes, key, mac, last);
      assert Xor(mac, last) == XorInto(mac, tail);
    }
  }

  /** Counter block: the prefix followed by i as a big-endian counter filling the block. */
  function CounterBlock(prefix: seq<bv8>, i: nat): Block
    requires |prefix| <= 16
  {
    prefix + EncodeBE(i, 16 - |prefix|)
  }

  /**
    Counter-mode encryption (and decryption) of data with the counter blocks
    prefix ++ ctr, prefix ++ ctr + 1, ...: each 16-byte piece of the data,
    the last possibly shorter, is XORed with the encryption of its counter
    block.
   */
  function CtrCrypt(aes: Cipher, key: seq<bv8>, prefix: seq<bv8>, ctr: nat, data: seq<bv8>): (r: seq<bv8>)
    requires |prefix| <= 16
    ensures |r| == |data|
    decreases |data|
  {
    if |data| == 0 then []
    else
      var n := Min(16, |data|);
      XorBytes(data[..n], aes(key, CounterBlock(prefix, ctr)))
      + CtrCrypt(aes, key, prefix, ctr + 1, data[n..])
  }

  /** The key stream: encryptions of `count` consecutive counter blocks from `ctr` on. */
  function Keystream(aes: Cipher, key: seq<bv8>, prefix: seq<bv8>, ctr: nat, count: nat): (r: seq<bv8>)
    requires |prefix| <= 16
    ensures |r| == 16 * count
    decreases count
  {
    if count == 0 then [] else aes(key, CounterBlock(prefix, ctr)) + Keystream(aes, key, prefix, ctr + 1, count - 1)
  }

  /** Counter mode is XOR with the key stream, truncated to the data. */
  lemma {:induction false} LemmaCtrIsKeystreamXor(aes: Cipher, key: seq<bv8>, prefix: seq<bv8>, ctr: nat, data: seq<bv8>)
    requires |prefix| <= 16
    ensures CtrCrypt(aes, key, prefix, ctr, data)
            == XorBytes(data, Keystream(aes, key, prefix, ctr, BlockCount(|data|)))
    decreases |data|
  {
    var pad := aes(key, CounterBlock(prefix, ctr));
    if 0 < |data| <= 16 {
      assert BlockCount(|data|) == 1;
      assert Keystream(aes, key, prefix, ctr, 1) == pad + [];
      assert data[..|data|] == data;
    } else if |data| > 16 {
      var k := BlockCount(|data|);
      assert BlockCount(|data| - 16) == k - 1;
      var rest := Keystream(aes, key, prefix, ctr + 1, k - 1);
      LemmaCtrIsKeystreamXor(aes, key, prefix, ctr + 1, data[16..]);
      var ks := Keystream(aes, key, prefix, ctr, k);
      assert ks == pad + rest;
      LemmaXorBytesSplit(data, ks, 16);
      assert ks[16..] == rest;
      assert ks[..16] == pad;
    }
  }

  /** XOR with a key stream distributes over a split of the data. */
  lemma LemmaXorBytesSplit(s: seq<bv8>, pad: seq<bv8>, n: nat)
    requires n <= |s| <= |pad|
    ensures XorBytes(s, pad) == XorBytes(s[..n], pad[..n]) + XorBytes(s[n..], pad[n..])
  {
  }

  /** Applying counter mode twice with the same counters gives the data back. */
  lemma {:induction false} LemmaCtrInvolution(aes: Cipher, key: seq<bv8>, prefix: seq<bv8>, ctr: nat, data: seq<bv8>)
    requires |prefix| <= 16
    ensures CtrCrypt(aes, key, prefix, ctr, CtrCrypt(aes, key, prefix, ctr, data)) == data
    decreases |data|
  {
    if |data| > 0 {
      var n := Min(16, |data|);
      var pad := aes(key, CounterBlock(prefix, ctr));
      var once := CtrCrypt(aes, key, prefix, ctr, data);
      var head := XorBytes(data[..n], pad);
      assert once == head + CtrCrypt(aes, key, prefix, ctr + 1, data[n..]);
      assert once[..n] == head;
      assert once[n..] == CtrCrypt(aes, key, prefix, ctr + 1, data[n..]);
      LemmaCtrInvolution(aes, key, prefix, ctr + 1, data[n..]);
      assert XorBytes(head, pad) == data[..n];
      assert data == data[..n] + data[n..];
    }
  }
}
