/**
  A whole CCM session on the engine — key setup, nonce setup, associated
  data, then one payload call — compared with CCM as RFC 3610 defines it.
 */
module CcmSession {
  import opened Bytes
  import opened BlockModes
  import opened CcmFormat
  import opened Optional
  import opened CcmS390x
  import Rfc3610

  /** What a session needs before its payload call: valid parameters and in-range lengths. */
  predicate SessionParams(ctx0: Ctx, nonce: seq<bv8>, mlen: nat, aad: seq<bv8>)
  {
    ValidParams(ctx0.L, ctx0.M) && |nonce| == 15 - ctx0.L && mlen < SizeLimit && |aad| < SizeLimit
  }

  /**
    The context after key setup, nonce setup and associated data. B_0 is
    in the nonce block and, when there is associated data, already
    authenticated together with it.
   */
  function Setup(aes: Cipher, ctx0: Ctx, key: seq<bv8>, nonce: seq<bv8>, mlen: nat, aad: seq<bv8>): (r: Ctx)
    requires SessionParams(ctx0, nonce, mlen, aad)
    ensures Keyed(r) && r.L == ctx0.L && r.M == ctx0.M && r.key == key
    ensures r.nonce == Rfc3610.B0(ctx0.L, ctx0.M, nonce, |aad| > 0, mlen)
    ensures MacStart(aes, r) == CbcMac(aes, key, Zeros(16), r.nonce + FormatAad(aad))
    ensures StartBlocks(r) == 1 + |FormatAad(aad)| / 16
  {
    var c2 := KeyAndNonce(ctx0, key, nonce, mlen);
    LemmaAadSetup(aes, c2, nonce, mlen, aad);
    SetAad(aes, c2, aad)
  }

  /** Key setup followed by nonce setup: B_0 without the associated-data bit, nothing counted yet. */
  function KeyAndNonce(ctx0: Ctx, key: seq<bv8>, nonce: seq<bv8>, mlen: nat): (r: Ctx)
    requires ValidParams(ctx0.L, ctx0.M) && |nonce| == 15 - ctx0.L && mlen < SizeLimit
    ensures Keyed(r) && r.L == ctx0.L && r.M == ctx0.M && r.key == key && r.blocks == 0
    ensures r.nonce == Rfc3610.B0(ctx0.L, ctx0.M, nonce, false, mlen)
  {
    var c1 := InitKey(ctx0, key);
    var c2 := SetIv(c1, nonce, mlen);
    assert nonce[..15 - ctx0.L] == nonce;
    LemmaNonceSetup(ctx0.L, ctx0.M, c2.nonce, nonce, mlen);
    c2
  }

  /** Associated-data setup turns B_0 into its associated-data form and starts the MAC over both. */
  lemma LemmaAadSetup(aes: Cipher, c2: Ctx, nonce: seq<bv8>, mlen: nat, aad: seq<bv8>)
    requires ValidParams(c2.L, c2.M) && |nonce| == 15 - c2.L && |aad| < SizeLimit
    requires c2.nonce == Rfc3610.B0(c2.L, c2.M, nonce, false, mlen)
    ensures var c3 := SetAad(aes, c2, aad);
            && c3.nonce == Rfc3610.B0(c2.L, c2.M, nonce, |aad| > 0, mlen)
            && MacStart(aes, c3) == CbcMac(aes, c2.key, Zeros(16), c3.nonce + FormatAad(aad))
  {
    if |aad| == 0 {
      LemmaNoAad(aes, c2, aad);
    } else {
      LemmaB0Adata(c2.L, c2.M, nonce, mlen);
    }
  }

  /** Setting the associated-data bit in B_0 gives B_0 for a message with associated data. */
  lemma LemmaB0Adata(L: nat, M: nat, nonce: seq<bv8>, mlen: nat)
    requires ValidParams(L, M) && |nonce| == 15 - L
    ensures var b := Rfc3610.B0(L, M, nonce, false, mlen);
            && [b[0] | AadFlag] + b[1..] == Rfc3610.B0(L, M, nonce, true, mlen)
            && Rfc3610.B0(L, M, nonce, true, mlen)[0] & AadFlag != 0
  {
    LemmaFlagsOctetBits(L, M);
    var b := Rfc3610.B0(L, M, nonce, false, mlen);
    assert b[1..] == nonce + EncodeBE(mlen, L);
    LemmaAadBitSet(FlagsOctet(false, L, M));
  }

  lemma LemmaAadBitSet(x: bv8)
    ensures (x | AadFlag) & AadFlag != 0
  {
  }

  /** Without associated data the MAC starts from E(B_0). */
  lemma LemmaNoAad(aes: Cipher, c2: Ctx, aad: seq<bv8>)
    requires |aad| == 0 && c2.nonce[0] & AadFlag == 0
    ensures MacStart(aes, SetAad(aes, c2, aad)) == CbcMac(aes, c2.key, Zeros(16), c2.nonce + FormatAad(aad))
  {
    LemmaFirstMac(aes, c2.key, c2.nonce);
  }

  /** After key and nonce setup the nonce block is B_0 without the associated-data bit. */
  lemma LemmaNonceSetup(L: nat, M: nat, block: Block, nonce: seq<bv8>, mlen: nat)
    requires ValidParams(L, M) && |nonce| == 15 - L
    requires block[0] & AadFlag == 0 && block[0] | AadFlag == FlagsOctet(false, L, M) | AadFlag
    requires block[1..16 - L] == nonce
    requires DecodeBE(block[16 - L..]) == mlen % Pow256(L)
    ensures block == Rfc3610.B0(L, M, nonce, false, mlen)
  {
    LemmaFlagsOctetBits(L, M);
    LemmaAadBitClear(block[0], FlagsOctet(false, L, M));
    LemmaLengthFieldSetup(block[16 - L..], mlen, L);
    assert block == [block[0]] + block[1..16 - L] + block[16 - L..];
  }

  /** A field of L bytes that reads as mlen modulo 256^L is the L-byte store of mlen. */
  lemma LemmaLengthFieldSetup(field: seq<bv8>, mlen: nat, L: nat)
    requires |field| == L && DecodeBE(field) == mlen % Pow256(L)
    ensures field == EncodeBE(mlen, L)
  {
    LemmaEncodeDecode(field);
    LemmaEncodeReduced(mlen, L);
  }

  /** Two flag octets without the associated-data bit that agree once it is set are equal. */
  lemma LemmaAadBitClear(x: bv8, y: bv8)
    requires x & AadFlag == 0 && y & AadFlag == 0 && x | AadFlag == y | AadFlag
    ensures x == y
  {
  }

  /** A store only depends on the value modulo the field's range. */
  lemma LemmaEncodeReduced(x: nat, n: nat)
    ensures EncodeBE(x % Pow256(n), n) == EncodeBE(x, n)
  {
    LemmaDecodeEncode(x, n);
    LemmaEncodeDecode(EncodeBE(x, n));
  }

  /** With no associated data the start value E(B_0) is the CBC-MAC of B_0 alone. */
  lemma LemmaFirstMac(aes: Cipher, key: seq<bv8>, b0: Block)
    ensures aes(key, b0) == CbcMac(aes, key, Zeros(16), b0 + [])
  {
    assert b0 + [] == b0;
    LemmaCbcMacOneBlock(aes, key, Zeros(16), b0);
    assert Xor(Zeros(16), b0) == b0;
  }

  /** The counter prefix the engine derives from B_0 is the prefix of RFC 3610's A_i. */
  lemma LemmaCounterPrefix(L: nat, M: nat, nonce: seq<bv8>, adata: bool, mlen: nat)
    requires ValidParams(L, M) && |nonce| == 15 - L
    ensures var b0 := Rfc3610.B0(L, M, nonce, adata, mlen);
            FieldWidth(b0) == L && CounterPrefix(b0) == Rfc3610.CtrPrefix(L, nonce)
            && DeclaredLength(b0) == mlen % Pow256(L)
  {
    var b0 := Rfc3610.B0(L, M, nonce, adata, mlen);
    LemmaFlagsOctetBits(L, M);
    assert b0[0] & 7 == ThreeBits(L - 1);
    assert b0[1..16 - L] == nonce;
    assert b0[16 - L..] == EncodeBE(mlen, L);
    LemmaDecodeEncode(mlen, L);
  }

  /** The first M bytes of a block XOR are the XOR of the first M bytes. */
  lemma LemmaXorPrefix(a: Block, b: Block, m: nat)
    requires m <= 16
    ensures Xor(a, b)[..m] == XorBytes(a[..m], b)
  {
  }

  /** Chaining on from the MAC of B_0 and the associated data over the padded plaintext gives T. */
  lemma LemmaAuthValue(aes: Cipher, key: seq<bv8>, L: nat, M: nat, nonce: seq<bv8>, aad: seq<bv8>, plain: seq<bv8>)
    requires ValidParams(L, M) && |nonce| == 15 - L && |aad| < SizeLimit
    ensures var head := Rfc3610.B0(L, M, nonce, |aad| > 0, |plain|) + FormatAad(aad);
            CbcMac(aes, key, CbcMac(aes, key, Zeros(16), head), ZeroPad(plain))
            == Rfc3610.AuthValue(aes, key, L, M, nonce, aad, plain)
  {
    var head := Rfc3610.B0(L, M, nonce, |aad| > 0, |plain|) + FormatAad(aad);
    Rfc3610.LemmaBlockAligned(16, |FormatAad(aad)|, 0);
    LemmaCbcMacAppend(aes, key, Zeros(16), head, ZeroPad(plain));
    assert Rfc3610.AuthInput(L, M, nonce, aad, plain) == head + ZeroPad(plain);
  }

  /**
    An accepted payload call on a context holding B_0 with the MAC of B_0
    and the associated data as its start value computes RFC 3610's
    ciphertext (or plaintext) and leaves RFC 3610's tag in the first M
    bytes of the chaining value.
   */
  lemma LemmaPayloadIsRfc3610(aes: Cipher, st: Ctx, nonce: seq<bv8>, aad: seq<bv8>,
                              input: seq<bv8>, enc: bool, r: Outcome)
    requires ValidParams(st.L, st.M) && |nonce| == 15 - st.L && |aad| < SizeLimit
    requires st.nonce == Rfc3610.B0(st.L, st.M, nonce, |aad| > 0, |input|)
    requires MacStart(aes, st) == CbcMac(aes, st.key, Zeros(16), st.nonce + FormatAad(aad))
    requires Completed(aes, st, input, enc, r)
    ensures r.out == Rfc3610.CtrXor(aes, st.key, st.L, nonce, input)
    ensures var plain := if enc then input else r.out;
            r.ctx.icv[..st.M] == XorBytes(Rfc3610.AuthValue(aes, st.key, st.L, st.M, nonce, aad, plain)[..st.M],
                                           Rfc3610.TagMask(aes, st.key, st.L, nonce))
  {
    var plain := if enc then input else r.out;
    LemmaCounterPrefix(st.L, st.M, nonce, |aad| > 0, |input|);
    LemmaCtrIsKeystreamXor(aes, st.key, CounterPrefix(st.nonce), 1, input);
    assert |plain| == |input|;
    LemmaAuthValue(aes, st.key, st.L, st.M, nonce, aad, plain);
    var t := Rfc3610.AuthValue(aes, st.key, st.L, st.M, nonce, aad, plain);
    LemmaXorPrefix(t, Rfc3610.TagMask(aes, st.key, st.L, nonce), st.M);
  }

  /**
    Authenticated encryption with an M-byte tag on a context holding B_0
    and the MAC of B_0 and the associated data: it succeeds exactly when
    the block budget allows, and then yields RFC 3610's ciphertext and tag.
   */
  lemma LemmaSealIsRfc3610(aes: Cipher, st: Ctx, nonce: seq<bv8>, aad: seq<bv8>, msg: seq<bv8>, buf: seq<bv8>)
    requires ValidParams(st.L, st.M) && |nonce| == 15 - st.L && |aad| < SizeLimit
    requires |msg| < Pow256(st.L) && |msg| < SizeLimit && |buf| == |msg|
    requires st.nonce == Rfc3610.B0(st.L, st.M, nonce, |aad| > 0, |msg|)
    requires MacStart(aes, st) == CbcMac(aes, st.key, Zeros(16), st.nonce + FormatAad(aad))
    ensures var s := AuthEncrypt(aes, st, msg, buf, true, st.M);
            var (c, u) := Rfc3610.Encrypt(aes, st.key, st.L, st.M, nonce, aad, msg);
            && (s.ok <==> StartBlocks(st) + EncBlockOps(|msg|) <= BlockLimit)
            && (s.ok ==> s.out == c && s.tag == Some(u))
  {
    LemmaSealAccepted(aes, st, nonce, aad, msg, buf);
    var e := AuthEncDec(aes, st, msg, buf, true);
    if e.ok {
      LemmaPayloadIsRfc3610(aes, st, nonce, aad, msg, true, e);
    }
  }

  /** The payload length matches B_0's length field, so only the block budget can refuse. */
  lemma LemmaSealAccepted(aes: Cipher, st: Ctx, nonce: seq<bv8>, aad: seq<bv8>, msg: seq<bv8>, buf: seq<bv8>)
    requires ValidParams(st.L, st.M) && |nonce| == 15 - st.L
    requires |msg| < Pow256(st.L) && |msg| < SizeLimit && |buf| == |msg|
    requires st.nonce == Rfc3610.B0(st.L, st.M, nonce, |aad| > 0, |msg|)
    ensures AuthEncDec(aes, st, msg, buf, true).ok <==> StartBlocks(st) + EncBlockOps(|msg|) <= BlockLimit
  {
    LemmaCounterPrefix(st.L, st.M, nonce, |aad| > 0, |msg|);
    LemmaDivModUnique(|msg|, Pow256(st.L), 0, |msg|);
  }

  /**
    Authenticated decryption on a context holding B_0 and the MAC of B_0
    and the associated data: it accepts exactly when RFC 3610's decryption
    accepts the first M tag bytes, returns the same plaintext, and
    otherwise leaves zeros.
   */
  lemma LemmaOpenIsRfc3610(aes: Cipher, st: Ctx, nonce: seq<bv8>, aad: seq<bv8>, c: seq<bv8>, buf: seq<bv8>,
                           tag: seq<bv8>, taglen: nat)
    requires ValidParams(st.L, st.M) && |nonce| == 15 - st.L && |aad| < SizeLimit
    requires |c| < Pow256(st.L) && |c| < SizeLimit && |buf| == |c| && st.M <= |tag|
    requires st.nonce == Rfc3610.B0(st.L, st.M, nonce, |aad| > 0, |c|)
    requires MacStart(aes, st) == CbcMac(aes, st.key, Zeros(16), st.nonce + FormatAad(aad))
    ensures var o := AuthDecrypt(aes, st, c, buf, tag, taglen);
            var d := Rfc3610.Decrypt(aes, st.key, st.L, st.M, nonce, aad, c, tag[..st.M]);
            && (o.ok <==> d.Some?)
            && (o.ok ==> o.out == d.value)
            && (!o.ok ==> o.out == Zeros(|c|))
  {
    LemmaOpenAccepted(aes, st, nonce, aad, c, buf);
    LemmaPayloadIsRfc3610(aes, st, nonce, aad, c, false, AuthEncDec(aes, st, c, buf, false));
  }

  /** The ciphertext length matches B_0's length field, so the payload call accepts. */
  lemma LemmaOpenAccepted(aes: Cipher, st: Ctx, nonce: seq<bv8>, aad: seq<bv8>, c: seq<bv8>, buf: seq<bv8>)
    requires ValidParams(st.L, st.M) && |nonce| == 15 - st.L
    requires |c| < Pow256(st.L) && |c| < SizeLimit && |buf| == |c|
    requires st.nonce == Rfc3610.B0(st.L, st.M, nonce, |aad| > 0, |c|)
    ensures AuthEncDec(aes, st, c, buf, false).ok
  {
    LemmaCounterPrefix(st.L, st.M, nonce, |aad| > 0, |c|);
    LemmaDivModUnique(|c|, Pow256(st.L), 0, |c|);
  }

  /**
    Encryption: after the session setup, authenticated encryption with an
    M-byte tag succeeds exactly when the key's block budget allows it, and
    then produces RFC 3610's ciphertext and tag.
   */
  lemma LemmaEncryptIsRfc3610(aes: Cipher, ctx0: Ctx, key: seq<bv8>, nonce: seq<bv8>, aad: seq<bv8>,
                              msg: seq<bv8>, buf: seq<bv8>)
    requires SessionParams(ctx0, nonce, |msg|, aad) && |msg| < Pow256(ctx0.L) && |buf| == |msg|
    ensures var s := AuthEncrypt(aes, Setup(aes, ctx0, key, nonce, |msg|, aad), msg, buf, true, ctx0.M);
            var (c, u) := Rfc3610.Encrypt(aes, key, ctx0.L, ctx0.M, nonce, aad, msg);
            && (s.ok <==> 2 + |FormatAad(aad)| / 16 + 2 * BlockCount(|msg|) <= BlockLimit)
            && (s.ok ==> s.out == c && s.tag == Some(u))
  {
    LemmaSealIsRfc3610(aes, Setup(aes, ctx0, key, nonce, |msg|, aad), nonce, aad, msg, buf);
  }

  /**
    Decryption: after the session setup, authenticated decryption against
    a tag whose first M bytes are u accepts exactly when RFC 3610's
    decryption accepts u, returns the same plaintext, and otherwise leaves
    zeros.
   */
  lemma LemmaDecryptIsRfc3610(aes: Cipher, ctx0: Ctx, key: seq<bv8>, nonce: seq<bv8>, aad: seq<bv8>,
                              c: seq<bv8>, buf: seq<bv8>, tag: seq<bv8>, taglen: nat)
    requires SessionParams(ctx0, nonce, |c|, aad) && |c| < Pow256(ctx0.L) && |buf| == |c|
    requires ctx0.M <= |tag|
    ensures var o := AuthDecrypt(aes, Setup(aes, ctx0, key, nonce, |c|, aad), c, buf, tag, taglen);
            var d := Rfc3610.Decrypt(aes, key, ctx0.L, ctx0.M, nonce, aad, c, tag[..ctx0.M]);
            && (o.ok <==> d.Some?)
            && (o.ok ==> o.out == d.value)
            && (!o.ok ==> o.out == Zeros(|c|))
  {
    LemmaOpenIsRfc3610(aes, Setup(aes, ctx0, key, nonce, |c|, aad), nonce, aad, c, buf, tag, taglen);
  }

  /**
    The payload must have the length given at nonce setup, reduced to the
    L-byte field: any other length is refused and the output buffer is left
    as it was.
   */
  lemma LemmaLengthMismatch(aes: Cipher, ctx0: Ctx, key: seq<bv8>, nonce: seq<bv8>, mlen: nat, aad: seq<bv8>,
                            input: seq<bv8>, buf: seq<bv8>, enc: bool)
    requires SessionParams(ctx0, nonce, mlen, aad) && |input| < SizeLimit && |buf| == |input|
    requires |input| != mlen % Pow256(ctx0.L)
    ensures var r := AuthEncDec(aes, Setup(aes, ctx0, key, nonce, mlen, aad), input, buf, enc);
            !r.ok && r.out == buf
  {
    LemmaCounterPrefix(ctx0.L, ctx0.M, nonce, |aad| > 0, mlen);
  }
}
