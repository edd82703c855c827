/**
  CCM as RFC 3610 defines it (sections 2.2 to 2.5), written from the
  standard's own formulas: the reference the engine is proved against.

  The authentication value T is kept as the full 16-byte CBC-MAC result;
  the standard's T is its first M bytes.
 */
module Rfc3610 {
  import opened Bytes
  import opened BlockModes
  import opened CcmFormat
  import opened Optional

  /** B_0: the flags octet, the nonce, and l(m) in L octets. */
  function B0(L: nat, M: nat, nonce: seq<bv8>, adata: bool, mlen: nat): Block
    requires ValidParams(L, M) && |nonce| == 15 - L
  {
    [FlagsOctet(adata, L, M)] + nonce + EncodeBE(mlen, L)
  }

  /** The common start of every counter block A_i: flags octet L' and the nonce. */
  function CtrPrefix(L: nat, nonce: seq<bv8>): seq<bv8>
    requires 1 <= L <= 8 && |nonce| == 15 - L
  {
    [ThreeBits(L - 1)] + nonce
  }

  /** The CBC-MAC input: B_0, the formatted associated data, the message padded with zeros. */
  function AuthInput(L: nat, M: nat, nonce: seq<bv8>, aad: seq<bv8>, msg: seq<bv8>): (r: seq<bv8>)
    requires ValidParams(L, M) && |nonce| == 15 - L && |aad| < SizeLimit
    ensures |r| % 16 == 0
  {
    var b0, a, m := B0(L, M, nonce, |aad| > 0, |msg|), FormatAad(aad), ZeroPad(msg);
    LemmaBlockAligned(|b0|, |a|, |m|);
    b0 + a + m
  }

  lemma LemmaBlockAligned(a: nat, b: nat, c: nat)
    requires a % 16 == 0 && b % 16 == 0 && c % 16 == 0
    ensures (a + b + c) % 16 == 0
  {
    assert a + b + c == 16 * (a / 16 + b / 16 + c / 16);
  }

  /** X_{n+1}: the CBC-MAC, from a zero chaining value, over the authentication input. */
  function AuthValue(aes: Cipher, key: seq<bv8>, L: nat, M: nat, nonce: seq<bv8>, aad: seq<bv8>, msg: seq<bv8>): Block
    requires ValidParams(L, M) && |nonce| == 15 - L && |aad| < SizeLimit
  {
    CbcMac(aes, key, Zeros(16), AuthInput(L, M, nonce, aad, msg))
  }

  /** S_0 = E(A_0): the key-stream block that masks the tag. */
  function TagMask(aes: Cipher, key: seq<bv8>, L: nat, nonce: seq<bv8>): Block
    requires 1 <= L <= 8 && |nonce| == 15 - L
  {
    aes(key, CounterBlock(CtrPrefix(L, nonce), 0))
  }

  /** The message key stream S_1 S_2 ... truncated to n bytes and XORed into the data. */
  function CtrXor(aes: Cipher, key: seq<bv8>, L: nat, nonce: seq<bv8>, data: seq<bv8>): (r: seq<bv8>)
    requires 1 <= L <= 8 && |nonce| == 15 - L
    ensures |r| == |data|
  {
    XorBytes(data, Keystream(aes, key, CtrPrefix(L, nonce), 1, BlockCount(|data|)))
  }

  /** CCM encryption: the ciphertext and the M-byte tag U = first-M(T) XOR first-M(S_0). */
  function Encrypt(aes: Cipher, key: seq<bv8>, L: nat, M: nat, nonce: seq<bv8>, aad: seq<bv8>, msg: seq<bv8>)
    : (r: (seq<bv8>, seq<bv8>))
    requires ValidParams(L, M) && |nonce| == 15 - L && |aad| < SizeLimit && |msg| < Pow256(L)
    ensures |r.0| == |msg| && |r.1| == M
  {
    var c := CtrXor(aes, key, L, nonce, msg);
    var u := XorBytes(AuthValue(aes, key, L, M, nonce, aad, msg)[..M], TagMask(aes, key, L, nonce));
    (c, u)
  }

  /** CCM decryption: the message when the recomputed tag equals u, None otherwise. */
  function Decrypt(aes: Cipher, key: seq<bv8>, L: nat, M: nat, nonce: seq<bv8>, aad: seq<bv8>,
                   c: seq<bv8>, u: seq<bv8>): Option<seq<bv8>>
    requires ValidParams(L, M) && |nonce| == 15 - L && |aad| < SizeLimit && |c| < Pow256(L)
  {
    var msg := CtrXor(aes, key, L, nonce, c);
    var t := XorBytes(AuthValue(aes, key, L, M, nonce, aad, msg)[..M], TagMask(aes, key, L, nonce));
    if t == u then Some(msg) else None
  }

  /** XOR with the same pad twice is the identity. */
  lemma LemmaXorBytesTwice(s: seq<bv8>, pad: seq<bv8>)
    requires |s| <= |pad|
    ensures XorBytes(XorBytes(s, pad), pad) == s
  {
  }

  /** Decryption undoes encryption and accepts its tag. */
  lemma LemmaDecryptEncrypt(aes: Cipher, key: seq<bv8>, L: nat, M: nat, nonce: seq<bv8>, aad: seq<bv8>, msg: seq<bv8>)
    requires ValidParams(L, M) && |nonce| == 15 - L && |aad| < SizeLimit && |msg| < Pow256(L)
    ensures var (c, u) := Encrypt(aes, key, L, M, nonce, aad, msg);
            Decrypt(aes, key, L, M, nonce, aad, c, u) == Some(msg)
  {
    var ks := Keystream(aes, key, CtrPrefix(L, nonce), 1, BlockCount(|msg|));
    LemmaXorBytesTwice(msg, ks);
  }
}
