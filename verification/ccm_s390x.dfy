/**
  The s390x AES-CCM engine: key setup, nonce setup, associated data,
  combined CTR encryption with CBC-MAC authentication, tag read-out, the
  two composite AEAD calls, and the selector between this engine and the
  generic one.

  The context is an immutable record; every operation returns the new
  record. Block encryption is the uninterpreted `aes` parameter.
 */
module CcmS390x {
  import opened Bytes
  import opened BlockModes
  import opened CcmFormat
  import opened Optional

  /** Bit 6 of the flags octet: associated data present. */
  const AadFlag: bv8 := 0x40

  /** The most block operations one key may perform: 2^61. */
  const BlockLimit: nat := 0x2000_0000_0000_0000

  /**
    Per-key state.
    - L, M: length-field size and tag size, fixed by the caller before key setup;
    - nonce: the block B_0 between calls, a counter block during a call;
    - icv: the running CBC-MAC chaining value, and the full tag after a call;
    - blocks: block-cipher operations performed with this key so far.
   */
  datatype Ctx = Ctx(L: nat, M: nat, keySet: bool, key: seq<bv8>, nonce: Block, icv: Block, blocks: nat)

  /** L as the flags octet records it: its low three bits plus one. */
  function FieldWidth(block: Block): (r: nat)
    ensures 1 <= r <= 8
  {
    (block[0] & 7) as nat + 1
  }

  /** A keyed context: valid parameters, and L - 1 in the low three bits of the flags octet. */
  predicate Keyed(ctx: Ctx)
  {
    ValidParams(ctx.L, ctx.M) && FieldWidth(ctx.nonce) == ctx.L
  }

  /** The flags octet key setup stores: L - 1 in bits 0-2, (M - 2) / 2 in bits 3-5. */
  function InitFlags(L: nat, M: nat): bv8
    requires L >= 1 && M >= 2
  {
    ThreeBits((L - 1) % 8) | (ThreeBits(((M - 2) / 2) % 8) << 3)
  }

  lemma LemmaInitFlags(L: nat, M: nat)
    requires ValidParams(L, M)
    ensures InitFlags(L, M) == FlagsOctet(false, L, M)
    ensures InitFlags(L, M) & 7 == ThreeBits(L - 1)
    ensures (InitFlags(L, M) >> 3) & 7 == ThreeBits((M - 2) / 2)
    ensures InitFlags(L, M) & AadFlag == 0
  {
    assert (L - 1) % 8 == L - 1;
    assert ((M - 2) / 2) % 8 == (M - 2) / 2;
    LemmaFlagBits(ThreeBits(L - 1), ThreeBits((M - 2) / 2));
  }

  /**
    Key setup: stores the key, writes the B_0 flags octet for "no
    associated data" with the block's other bytes zero, and restarts the
    block-operation count.
   */
  function InitKey(ctx: Ctx, key: seq<bv8>): (r: Ctx)
    requires ValidParams(ctx.L, ctx.M)
    ensures Keyed(r)
    ensures r.nonce[0] == FlagsOctet(false, ctx.L, ctx.M)
    ensures r.nonce[0] & 7 == ThreeBits(ctx.L - 1)
    ensures (r.nonce[0] >> 3) & 7 == ThreeBits((ctx.M - 2) / 2)
    ensures r.nonce[0] & AadFlag == 0
    ensures forall i :: 1 <= i < 16 ==> r.nonce[i] == 0
    ensures r.blocks == 0 && r.keySet && r.key == key
    ensures r.L == ctx.L && r.M == ctx.M && r.icv == ctx.icv
  {
    LemmaInitFlags(ctx.L, ctx.M);
    ctx.(key := key, nonce := [InitFlags(ctx.L, ctx.M)] + Zeros(15), blocks := 0, keySet := true)
  }

  /**
    Nonce setup: clears the associated-data flag, stores the message length
    as an eight-byte big-endian value in the block's second half, then
    copies 15 - L nonce bytes over bytes 1..15-L. The declared length of the
    nonce buffer is not consulted.
   */
  function SetIv(ctx: Ctx, nonce: seq<bv8>, mlen: nat): (r: Ctx)
    requires 2 <= ctx.L <= 8 && 15 - ctx.L <= |nonce| && mlen < SizeLimit
    ensures r.nonce[0] & AadFlag == 0
    ensures r.nonce[0] | AadFlag == ctx.nonce[0] | AadFlag
    ensures r.nonce[1..16 - ctx.L] == nonce[..15 - ctx.L]
    ensures DecodeBE(r.nonce[16 - ctx.L..]) == mlen % Pow256(ctx.L)
    ensures r == ctx.(nonce := r.nonce)
    ensures Keyed(ctx) ==> Keyed(r)
  {
    var flags := ctx.nonce[0] & !AadFlag;
    LemmaLowBits(ctx.nonce[0]);
    var field := LengthField(mlen, ctx.L);
    var block := [flags] + nonce[..15 - ctx.L] + field;
    assert block[16 - ctx.L..] == field;
    ctx.(nonce := block)
  }

  /**
    The length field: the message length stored as eight big-endian bytes
    in the block's second half, of which the nonce copy leaves the last L.
   */
  function LengthField(mlen: nat, L: nat): (r: seq<bv8>)
    requires L <= 8
    ensures |r| == L
    ensures DecodeBE(r) == mlen % Pow256(L)
  {
    var stored := EncodeBE(mlen, 8);
    LemmaEncodeSuffix(mlen, 8, L);
    LemmaDecodeEncode(mlen, L);
    stored[8 - L..]
  }

  /** How many associated-data bytes share the first authentication block with the length prefix. */
  function AadInFirstBlock(alen: nat): (r: nat)
    requires 0 < alen < SizeLimit
    ensures r <= alen && |AadLengthPrefix(alen)| + r <= 16
    ensures r < alen ==> |AadLengthPrefix(alen)| + r == 16
  {
    Min(alen, 16 - |AadLengthPrefix(alen)|)
  }

  /** The first authentication block: length prefix, as much data as fits, zero bytes. */
  function FirstAadBlock(aad: seq<bv8>): Block
    requires 0 < |aad| < SizeLimit
  {
    var p := AadLengthPrefix(|aad|);
    var k := AadInFirstBlock(|aad|);
    p + aad[..k] + Zeros(16 - |p| - k)
  }

  /** The first block followed by the padded remainder is the formatted associated data. */
  lemma LemmaFirstAadBlock(aad: seq<bv8>)
    requires 0 < |aad| < SizeLimit
    ensures FirstAadBlock(aad) + ZeroPad(aad[AadInFirstBlock(|aad|)..]) == FormatAad(aad)
  {
    var p := AadLengthPrefix(|aad|);
    var k := AadInFirstBlock(|aad|);
    var rest := aad[k..];
    if k == |aad| {
      assert rest == [] && aad[..k] == aad;
      LemmaZeroPadShort(p + aad);
    } else {
      var head := p + aad[..k];
      assert p + aad == head + rest;
      LemmaZeroPadAfterBlock(head, rest);
    }
  }

  /**
    Associated data, supplied in one call. With none, nothing changes.
    Otherwise the flags octet gets the associated-data bit, B_0 and the
    data are authenticated, and the block count grows by one per block
    MACed.
   */
  function SetAad(aes: Cipher, ctx: Ctx, aad: seq<bv8>): (r: Ctx)
    requires |aad| < SizeLimit
    ensures |aad| == 0 ==> r == ctx
    ensures |aad| > 0 ==> r.nonce == [ctx.nonce[0] | AadFlag] + ctx.nonce[1..]
    ensures |aad| > 0 ==> r.icv == CbcMac(aes, ctx.key, Zeros(16), r.nonce + FormatAad(aad))
    ensures |aad| > 0 ==> r.blocks == ctx.blocks + 1 + |FormatAad(aad)| / 16
    ensures r == ctx.(nonce := r.nonce, icv := r.icv, blocks := r.blocks)
    ensures Keyed(ctx) ==> Keyed(r)
  {
    if |aad| == 0 then ctx
    else
      var nonce: Block := [ctx.nonce[0] | AadFlag] + ctx.nonce[1..];
      LemmaLowBits(ctx.nonce[0]);
      ctx.(nonce := nonce, icv := AadMac(aes, ctx.key, nonce, aad), blocks := ctx.blocks + AadBlockOps(aad))
  }

  /**
    The MAC of B_0 and the associated data as the engine computes it: one
    KMAC call chains B_0 and the first authentication block (the 32 bytes
    that start at the nonce block, the first-block buffer lying directly
    behind it) from a zero chaining value, then the rest of the data is
    absorbed, whole blocks by KMAC and a final partial block by XOR and one
    KM.
   */
  function AadMac(aes: Cipher, key: seq<bv8>, b0: Block, aad: seq<bv8>): (r: Block)
    requires 0 < |aad| < SizeLimit
    ensures r == CbcMac(aes, key, Zeros(16), b0 + FormatAad(aad))
  {
    LemmaFirstAadBlock(aad);
    LemmaMacAfterFirstBlock(aes, key, b0, FirstAadBlock(aad), aad[AadInFirstBlock(|aad|)..], FormatAad(aad));
    Absorb(aes, key, CbcMac(aes, key, Zeros(16), b0 + FirstAadBlock(aad)), aad[AadInFirstBlock(|aad|)..])
  }

  /** Block operations of associated-data setup: two for B_0 and the first block, one per further block. */
  function AadBlockOps(aad: seq<bv8>): (r: nat)
    requires 0 < |aad| < SizeLimit
    ensures r == 1 + |FormatAad(aad)| / 16
  {
    var rest := aad[AadInFirstBlock(|aad|)..];
    LemmaSetAadCount(aad);
    2 + |rest| / 16 + (if |rest| % 16 != 0 then 1 else 0)
  }

  /** KMAC over B_0 and the first block, then absorbing the rest, is the CBC-MAC of B_0 and the formatted data. */
  lemma LemmaMacAfterFirstBlock(aes: Cipher, key: seq<bv8>, b0: Block, first: Block, rest: seq<bv8>, formatted: seq<bv8>)
    requires first + ZeroPad(rest) == formatted
    ensures |formatted| % 16 == 0
    ensures Absorb(aes, key, CbcMac(aes, key, Zeros(16), b0 + first), rest) == CbcMac(aes, key, Zeros(16), b0 + formatted)
  {
    assert b0 + first + ZeroPad(rest) == b0 + formatted;
    LemmaCbcMacAppend(aes, key, Zeros(16), b0 + first, ZeroPad(rest));
  }

  /** Two operations for B_0 and the first block, one per further block: one per block MACed. */
  lemma LemmaSetAadCount(aad: seq<bv8>)
    requires 0 < |aad| < SizeLimit
    ensures var rest := aad[AadInFirstBlock(|aad|)..];
            2 + |rest| / 16 + (if |rest| % 16 != 0 then 1 else 0) == 1 + |FormatAad(aad)| / 16
  {
    var rest := aad[AadInFirstBlock(|aad|)..];
    LemmaFirstAadBlock(aad);
    var k := BlockCount(|rest|);
    LemmaBlockCount(|rest|);
    assert |FormatAad(aad)| == 16 * (1 + k);
    LemmaDivModUnique(16 * (1 + k), 16, 1 + k, 0);
  }

  /** The message length recorded in the block's last L bytes. */
  function DeclaredLength(block: Block): nat
  {
    DecodeBE(block[16 - FieldWidth(block)..])
  }

  /** The start of every counter block A_i: flags octet L - 1 and the nonce. */
  function CounterPrefix(block: Block): (r: seq<bv8>)
    ensures |r| == 16 - FieldWidth(block)
  {
    [block[0] & 7] + block[1..16 - FieldWidth(block)]
  }

  /** The chaining value the payload is absorbed into: E(B_0) when no associated data was set. */
  function MacStart(aes: Cipher, ctx: Ctx): Block
  {
    if ctx.nonce[0] & AadFlag == 0 then aes(ctx.key, ctx.nonce) else ctx.icv
  }

  /** The block count once B_0 has been authenticated. */
  function StartBlocks(ctx: Ctx): nat
  {
    if ctx.nonce[0] & AadFlag == 0 then ctx.blocks + 1 else ctx.blocks
  }

  /** Block operations an encryption of n bytes performs: a MAC and a CTR step per block, one for the tag. */
  function EncBlockOps(n: nat): nat
  {
    2 * BlockCount(n) + 1
  }

  /** Result of a payload operation: status, new context, output buffer. */
  datatype Outcome = Outcome(ok: bool, ctx: Ctx, out: seq<bv8>)

  /**
    En- or decryption of the payload with authentication of the plaintext.
    B_0 is authenticated first if no associated data did it. The length in
    the block's last L bytes must equal the input length, and those bytes
    become counter 1. Encryption then counts its block operations and
    refuses past 2^61 (the count stays raised); it MACs the input and then
    runs CTR, while decryption runs CTR and then MACs its output. The tag
    is the MAC XOR E(A_0), and the flags octet is restored. A refused call
    leaves the output buffer as it was.
   */
  function AuthEncDec(aes: Cipher, ctx: Ctx, input: seq<bv8>, outBuf: seq<bv8>, enc: bool): (r: Outcome)
    requires |input| < SizeLimit && |outBuf| == |input|
    ensures r.ok <==> DeclaredLength(ctx.nonce) == |input|
                      && (!enc || StartBlocks(ctx) + EncBlockOps(|input|) <= BlockLimit)
    ensures r.ctx.blocks == StartBlocks(ctx)
              + (if enc && DeclaredLength(ctx.nonce) == |input| then EncBlockOps(|input|) else 0)
    ensures !r.ok ==> r.out == outBuf && r.ctx.icv == MacStart(aes, ctx)
                      && r.ctx.nonce == CounterBlock(CounterPrefix(ctx.nonce), 1)
    ensures r.ok ==> Completed(aes, ctx, input, enc, r)
    ensures r.ctx == ctx.(nonce := r.ctx.nonce, icv := r.ctx.icv, blocks := r.ctx.blocks)
    ensures Keyed(ctx) ==> Keyed(r.ctx)
  {
    var blocks := StartBlocks(ctx);
    if DeclaredLength(ctx.nonce) != |input| then
      Outcome(false, Refused(aes, ctx, blocks), outBuf)
    else if enc && blocks + EncBlockOps(|input|) > BlockLimit then
      Outcome(false, Refused(aes, ctx, blocks + EncBlockOps(|input|)), outBuf)
    else
      Crypt(aes, ctx, input, enc, if enc then blocks + EncBlockOps(|input|) else blocks)
  }

  /**
    The context a refused payload call leaves: B_0 authenticated, the flags
    octet reduced to L - 1 and the length field turned into counter 1.
   */
  function Refused(aes: Cipher, ctx: Ctx, blocks: nat): (r: Ctx)
    ensures r.nonce == CounterBlock(CounterPrefix(ctx.nonce), 1)
    ensures r == ctx.(nonce := r.nonce, icv := MacStart(aes, ctx), blocks := blocks)
    ensures Keyed(ctx) ==> Keyed(r)
  {
    var w := FieldWidth(ctx.nonce);
    LemmaEncodeOne(w);
    LemmaLowBits(ctx.nonce[0]);
    ctx.(nonce := CounterPrefix(ctx.nonce) + Zeros(w - 1) + [1], icv := MacStart(aes, ctx), blocks := blocks)
  }

  /**
    The state an accepted payload call leaves: the output is the input run
    through CTR from counter 1; the chaining value holds the CBC-MAC of the
    zero-padded plaintext (the input when encrypting, the output when
    decrypting) from the start value, masked with E(A_0); the flags octet
    and the nonce bytes are as before and the length field reads zero.
   */
  predicate Completed(aes: Cipher, ctx: Ctx, input: seq<bv8>, enc: bool, r: Outcome)
  {
    var prefix := CounterPrefix(ctx.nonce);
    var w := FieldWidth(ctx.nonce);
    && r.ok
    && r.out == CtrCrypt(aes, ctx.key, prefix, 1, input)
    && r.ctx.icv == Xor(CbcMac(aes, ctx.key, MacStart(aes, ctx), ZeroPad(if enc then input else r.out)),
                        aes(ctx.key, CounterBlock(prefix, 0)))
    && r.ctx.nonce[0] == ctx.nonce[0]
    && r.ctx.nonce[1..16 - w] == ctx.nonce[1..16 - w]
    && DeclaredLength(r.ctx.nonce) == 0
  }

  /**
    The accepted payload call: MAC then CTR when encrypting, CTR then MAC
    when decrypting, both over the plaintext; then the tag mask E(A_0) and
    the restored flags octet, the length field left zero.
   */
  function Crypt(aes: Cipher, ctx: Ctx, input: seq<bv8>, enc: bool, blocks: nat): (r: Outcome)
    ensures Completed(aes, ctx, input, enc, r)
    ensures r.ctx == ctx.(nonce := r.ctx.nonce, icv := r.ctx.icv, blocks := blocks)
  {
    var prefix := CounterPrefix(ctx.nonce);
    var out := CtrCrypt(aes, ctx.key, prefix, 1, input);
    var mac := Absorb(aes, ctx.key, MacStart(aes, ctx), if enc then input else out);
    var tag := Xor(mac, aes(ctx.key, CounterBlock(prefix, 0)));
    Outcome(true, ctx.(nonce := Finished(ctx.nonce), icv := tag, blocks := blocks), out)
  }

  /** The nonce block after an accepted call: flags octet and nonce kept, the length field zero. */
  function Finished(block: Block): (r: Block)
    ensures r[0] == block[0]
    ensures r[1..16 - FieldWidth(block)] == block[1..16 - FieldWidth(block)]
    ensures DeclaredLength(r) == 0
  {
    var w := FieldWidth(block);
    var r: Block := block[..16 - w] + Zeros(w);
    assert r[16 - w..] == Zeros(w);
    LemmaDecodeZeros(w);
    r
  }

  /** Reducing the flags octet to its low bits, or setting the associated-data bit, keeps L. */
  lemma LemmaLowBits(f: bv8)
    ensures (f & 7) & 7 == f & 7
    ensures (f | AadFlag) & 7 == f & 7
    ensures (f & !AadFlag) & 7 == f & 7
    ensures (f & !AadFlag) & AadFlag == 0
    ensures (f & !AadFlag) | AadFlag == f | AadFlag
  {
  }

  /**
    Tag read-out: refuses a length above M, otherwise the first tlen bytes
    of the tag.
   */
  function GetTag(ctx: Ctx, tlen: nat): (r: Option<seq<bv8>>)
    requires ctx.M <= 16
    ensures r.None? <==> tlen > ctx.M
    ensures r.Some? ==> |r.value| == tlen && r.value <= ctx.icv
  {
    if tlen > ctx.M then None else Some(ctx.icv[..tlen])
  }

  /** Result of an authenticated encryption: status, context, ciphertext, and the tag if one was read. */
  datatype Sealed = Sealed(ok: bool, ctx: Ctx, out: seq<bv8>, tag: Option<seq<bv8>>)

  /**
    Authenticated encryption: the payload operation, then the tag read-out
    when it succeeded and the caller passed a tag buffer (`wantTag`). A
    refused read-out fails the call but leaves the ciphertext in place.
   */
  function AuthEncrypt(aes: Cipher, ctx: Ctx, input: seq<bv8>, outBuf: seq<bv8>, wantTag: bool, taglen: nat): (r: Sealed)
    requires ctx.M <= 16 && |input| < SizeLimit && |outBuf| == |input|
    ensures var e := AuthEncDec(aes, ctx, input, outBuf, true);
            && r.ctx == e.ctx && r.out == e.out
            && (r.ok <==> e.ok && (!wantTag || taglen <= ctx.M))
            && (r.tag.Some? <==> e.ok && wantTag && taglen <= ctx.M)
            && (r.tag.Some? ==> r.tag.value == e.ctx.icv[..taglen])
  {
    var e := AuthEncDec(aes, ctx, input, outBuf, true);
    if e.ok && wantTag then
      match GetTag(e.ctx, taglen)
      case None => Sealed(false, e.ctx, e.out, None)
      case Some(t) => Sealed(true, e.ctx, e.out, Some(t))
    else
      Sealed(e.ok, e.ctx, e.out, None)
  }

  /**
    Authenticated decryption: the payload operation, then a comparison of
    exactly M tag bytes with the expected tag, whatever `taglen` says. On
    any failure the output is overwritten with zeros.
   */
  function AuthDecrypt(aes: Cipher, ctx: Ctx, input: seq<bv8>, outBuf: seq<bv8>, expectedTag: seq<bv8>, taglen: nat)
    : (r: Outcome)
    requires ctx.M <= 16 && ctx.M <= |expectedTag| && |input| < SizeLimit && |outBuf| == |input|
    ensures var d := AuthEncDec(aes, ctx, input, outBuf, false);
            && r.ctx == d.ctx
            && (r.ok <==> d.ok && d.ctx.icv[..ctx.M] == expectedTag[..ctx.M])
            && (r.ok ==> r.out == d.out)
            && (!r.ok ==> r.out == Zeros(|input|))
  {
    var d := AuthEncDec(aes, ctx, input, outBuf, false);
    var ok := d.ok && d.ctx.icv[..ctx.M] == expectedTag[..ctx.M];
    Outcome(ok, d.ctx, if ok then d.out else Zeros(|input|))
  }

  /**
    Decryption undoes encryption from the same state: it accepts, returns
    the plaintext, and leaves the same tag and nonce block.
   */
  lemma LemmaEncDecRoundTrip(aes: Cipher, ctx: Ctx, p: seq<bv8>, buf1: seq<bv8>, buf2: seq<bv8>)
    requires |p| < SizeLimit && |buf1| == |p| && |buf2| == |p|
    requires AuthEncDec(aes, ctx, p, buf1, true).ok
    ensures var e := AuthEncDec(aes, ctx, p, buf1, true);
            var d := AuthEncDec(aes, ctx, e.out, buf2, false);
            d.ok && d.out == p && d.ctx.icv == e.ctx.icv && d.ctx.nonce == e.ctx.nonce
  {
    LemmaCtrInvolution(aes, ctx.key, CounterPrefix(ctx.nonce), 1, p);
  }

  /**
    Encryption undoes decryption from the same state when the block limit
    allows it, reproducing the ciphertext and the tag.
   */
  lemma LemmaDecEncRoundTrip(aes: Cipher, ctx: Ctx, c: seq<bv8>, buf1: seq<bv8>, buf2: seq<bv8>)
    requires |c| < SizeLimit && |buf1| == |c| && |buf2| == |c|
    requires AuthEncDec(aes, ctx, c, buf1, false).ok
    requires StartBlocks(ctx) + EncBlockOps(|c|) <= BlockLimit
    ensures var d := AuthEncDec(aes, ctx, c, buf1, false);
            var e := AuthEncDec(aes, ctx, d.out, buf2, true);
            e.ok && e.out == c && e.ctx.icv == d.ctx.icv
  {
    LemmaCtrInvolution(aes, ctx.key, CounterPrefix(ctx.nonce), 1, c);
  }

  /**
    Authenticated decryption of what authenticated encryption produced, with
    its full M-byte tag, succeeds and returns the plaintext, whatever tag
    length the decrypting caller states.
   */
  lemma LemmaSealOpen(aes: Cipher, ctx: Ctx, p: seq<bv8>, buf1: seq<bv8>, buf2: seq<bv8>, taglen: nat)
    requires ctx.M <= 16 && |p| < SizeLimit && |buf1| == |p| && |buf2| == |p|
    requires AuthEncrypt(aes, ctx, p, buf1, true, ctx.M).ok
    ensures var s := AuthEncrypt(aes, ctx, p, buf1, true, ctx.M);
            s.tag.Some? && |s.tag.value| == ctx.M
            && var o := AuthDecrypt(aes, ctx, s.out, buf2, s.tag.value, taglen);
               o.ok && o.out == p
  {
    LemmaEncDecRoundTrip(aes, ctx, p, buf1, buf2);
  }

  /** A tag that differs from the computed one in its first M bytes fails, with zeroed output. */
  lemma LemmaForgedTagRejected(aes: Cipher, ctx: Ctx, p: seq<bv8>, buf1: seq<bv8>, buf2: seq<bv8>,
                               forged: seq<bv8>, taglen: nat)
    requires ctx.M <= 16 && |p| < SizeLimit && |buf1| == |p| && |buf2| == |p| && ctx.M <= |forged|
    requires AuthEncrypt(aes, ctx, p, buf1, true, ctx.M).ok
    requires forged[..ctx.M] != AuthEncrypt(aes, ctx, p, buf1, true, ctx.M).tag.value
    ensures var s := AuthEncrypt(aes, ctx, p, buf1, true, ctx.M);
            var o := AuthDecrypt(aes, ctx, s.out, buf2, forged, taglen);
            !o.ok && o.out == Zeros(|p|)
  {
    LemmaEncDecRoundTrip(aes, ctx, p, buf1, buf2);
  }

  /** Whether the CPU offers the CCM functions for each AES key size. */
  datatype Capabilities = Capabilities(aes128: bool, aes192: bool, aes256: bool)

  /** The two function tables: this engine, and the generic one. */
  datatype CcmHw = S390xCcm | GenericCcm

  /**
    Table selection: this engine for a 128-, 192- or 256-bit key whose
    CCM function the CPU offers, the generic engine otherwise.
   */
  function ProvAesHwCcm(keybits: nat, caps: Capabilities): (r: CcmHw)
    ensures r == S390xCcm ==> keybits == 128 || keybits == 192 || keybits == 256
    ensures keybits == 128 ==> (r == S390xCcm <==> caps.aes128)
    ensures keybits == 192 ==> (r == S390xCcm <==> caps.aes192)
    ensures keybits == 256 ==> (r == S390xCcm <==> caps.aes256)
  {
    if (keybits == 128 && caps.aes128)
       || (keybits == 192 && caps.aes192)
       || (keybits == 256 && caps.aes256)
    then S390xCcm
    else GenericCcm
  }
}
