/**
  Two places where the engine's code does not do what it evidently means
  to do, each modelled as written next to the corrected definition that
  the rest of the model uses.
 */
module CcmFindings {
  import opened Bytes
  import opened BlockModes
  import opened CcmFormat
  import opened CcmS390x

  /**
    The 32 bytes key setup can reach: the nonce block, then the scratch
    block that lies directly behind it in the context.
   */
  type Window = s: seq<bv8> | |s| == 32 witness Zeros(32)

  /**
    Key setup as written: the flags octet is stored at offset 0 and then
    sizeof(nonce block) = 16 zero bytes are written from offset 1, that is
    offsets 1 to 16 — the last of them is the first scratch byte.
   */
  function InitKeyWindowAsWritten(w: Window, flags: bv8): (r: Window)
    ensures r[..16] == [flags] + Zeros(15)
  {
    [flags] + Zeros(16) + w[17..]
  }

  /** Key setup as intended: only the 15 bytes behind the flags octet are cleared. */
  function InitKeyWindow(w: Window, flags: bv8): (r: Window)
    ensures r[..16] == [flags] + Zeros(15)
  {
    [flags] + Zeros(15) + w[16..]
  }

  /** As written, key setup changes a byte outside the nonce block whenever that byte is non-zero. */
  lemma LemmaInitKeyOverrun(w: Window, flags: bv8)
    requires w[16] != 0
    ensures InitKeyWindowAsWritten(w, flags)[16] == 0
    ensures InitKeyWindowAsWritten(w, flags)[16..] != w[16..]
  {
    assert InitKeyWindowAsWritten(w, flags)[16..][0] == 0;
  }

  /** A concrete case: a scratch block starting with 1 loses that byte. */
  lemma LemmaInitKeyOverrunExample()
    ensures var w: Window := Zeros(16) + [1] + Zeros(15);
            InitKeyWindowAsWritten(w, 0x3A)[16..] != w[16..]
  {
    var w: Window := Zeros(16) + [1] + Zeros(15);
    LemmaInitKeyOverrun(w, 0x3A);
  }

  /**
    As intended, key setup leaves everything behind the nonce block alone,
    and the nonce block it writes is the one the model's key setup stores.
   */
  lemma LemmaInitKeyWindow(w: Window, ctx: Ctx, key: seq<bv8>)
    requires ValidParams(ctx.L, ctx.M)
    ensures InitKeyWindow(w, InitFlags(ctx.L, ctx.M))[16..] == w[16..]
    ensures InitKeyWindow(w, InitFlags(ctx.L, ctx.M))[..16] == InitKey(ctx, key).nonce
  {
  }

  /**
    The encryption block charge as written, in 64-bit size_t arithmetic:
    len + 15 wraps modulo 2^64 before the shift.
   */
  function EncBlockOpsAsWritten(len: nat): (r: nat)
    requires len < SizeLimit
    ensures r < SizeLimit
  {
    (((len + 15) % SizeLimit) / 16 * 2 + 1) % SizeLimit
  }

  /** For every length below 2^64 - 15 the charge as written is the intended one. */
  lemma LemmaEncBlockOpsAgree(len: nat)
    requires len < SizeLimit - 15
    ensures EncBlockOpsAsWritten(len) == EncBlockOps(len)
  {
    LemmaDivModUnique(len + 15, SizeLimit, 0, len + 15);
    assert (len + 15) / 16 * 2 + 1 < SizeLimit;
    LemmaDivModUnique((len + 15) / 16 * 2 + 1, SizeLimit, 0, (len + 15) / 16 * 2 + 1);
  }

  /**
    The largest length wraps to a charge of a single block operation, so
    the 2^61 limit check passes for any count already below it, although
    the intended charge is far above the limit.
   */
  lemma LemmaEncBlockOpsWrap()
    ensures EncBlockOpsAsWritten(SizeLimit - 1) == 1
    ensures EncBlockOps(SizeLimit - 1) > BlockLimit
  {
    LemmaDivModUnique(SizeLimit + 14, SizeLimit, 1, 14);
    LemmaDivModUnique(1, SizeLimit, 0, 1);
  }

  /** The block count after an encryption's charge, and whether the 2^61 check passes. */
  datatype Charged = Charged(ok: bool, blocks: nat)

  /**
    The encryption charge and limit check as written: the count is a 64-bit
    size_t, so adding the charge wraps modulo 2^64, and the check compares
    the wrapped count with 2^61.
   */
  function ChargeAsWritten(blocks: nat, len: nat): (r: Charged)
    requires blocks < SizeLimit && len < SizeLimit
    ensures r.blocks < SizeLimit
    ensures r.ok <==> r.blocks <= BlockLimit
    ensures len < SizeLimit - 15 ==> r.blocks == (blocks + EncBlockOps(len)) % SizeLimit
  {
    var b := (blocks + EncBlockOpsAsWritten(len)) % SizeLimit;
    if len < SizeLimit - 15 then
      LemmaEncBlockOpsAgree(len);
      Charged(b <= BlockLimit, b)
    else
      Charged(b <= BlockLimit, b)
  }

  /**
    As written, an exhausted key comes back: with the count at 2^64 - 1,
    far above 2^61, an encryption of no bytes charges one operation, the
    count wraps to 0 and the check passes.
   */
  lemma LemmaCountWrapExample()
    ensures SizeLimit - 1 > BlockLimit
    ensures ChargeAsWritten(SizeLimit - 1, 0) == Charged(true, 0)
  {
    assert EncBlockOpsAsWritten(0) == 1 by {
      LemmaDivModUnique(15, SizeLimit, 0, 15);
      LemmaDivModUnique(1, SizeLimit, 0, 1);
    }
    LemmaDivModUnique(SizeLimit, SizeLimit, 1, 0);
  }

  /**
    As intended, an exhausted key stays exhausted: once the count is past
    2^61, every encryption is refused and leaves the count past 2^61, so the
    next one is refused too.
   */
  lemma LemmaExhaustedKeyRefused(aes: Cipher, ctx: Ctx, input: seq<bv8>, buf: seq<bv8>)
    requires |input| < SizeLimit && |buf| == |input|
    requires StartBlocks(ctx) > BlockLimit
    ensures var r := AuthEncDec(aes, ctx, input, buf, true);
            !r.ok && r.out == buf && r.ctx.blocks >= StartBlocks(ctx) && StartBlocks(r.ctx) > BlockLimit
  {
    var r := AuthEncDec(aes, ctx, input, buf, true);
    assert r.ctx.blocks >= ctx.blocks;
  }
}
