# s390x AES-CCM engine — a Dafny model

This project models the s390x hardware engine for AES in CCM mode, `providers/common/ciphers/aes_ccm_s390x.c`.
CCM is defined in RFC 3610 (sections 2.2 and 2.3) and in NIST SP 800-38C (section 6 and Appendix A.2).

The engine keeps a per-key context that holds:
- a 16-byte nonce block, which is B_0 between calls and a counter block during a call;
- a 16-byte CBC-MAC chaining value (`icv`), which also holds the tag after a call;
- a count of block-cipher operations performed with the key.

The model covers every function of the file:
- key setup;
- nonce setup;
- associated-data setup, which writes the length prefix, packs the first block and MACs it;
- the combined payload call (`auth_encdec`): B_0 authentication, the declared-length check, the 2^61 block budget, MAC-then-CTR on encryption and CTR-then-MAC on decryption, and the tag mask E(A_0);
- tag read-out;
- the two composite AEAD calls;
- the table selector.

One-block AES is an uninterpreted parameter `aes(key, block)`.
The hardware KM instruction is one application of it.
KMAC is CBC-MAC built from it, and the counter-mode helper is CTR built from it.

Modules:
- `Bytes`: byte sequences, big-endian encoding and decoding, and their round trips.
- `BlockModes`: CBC-MAC, zero padding, how the engine absorbs a partial final block, and CTR with its keystream and involution.
- `CcmFormat`: the flags octet and the three-tier associated-data length prefix with its decoder.
- `Rfc3610`: CCM as RFC 3610 defines it (B_0, the authentication input, CTR and tag mask, encryption and decryption). It is the independent reference the engine is compared with.
- `CcmS390x`: the engine itself, one function per C function, on an immutable context record.
- `CcmLoops`: the byte loops of the engine, written as loops and proved equal to the functional model.
- `CcmSession`: key, nonce and associated-data setup followed by one payload call, proved equal to RFC 3610's encryption and decryption.
- `CcmFindings`: three places where the code as written differs from its evident intent.

A payload call refused by the length check or by the block limit is not free of side effects. By the time it is refused, the code has changed the context:
- it has MACed B_0 and counted that operation, if no associated data did (lines 121-126);
- it has set the flags octet to L − 1 (line 128);
- it has turned the length field into counter 1 (lines 134-141);
- on encryption, it has added the charge to the count before the limit check (lines 148-150).

`CcmS390x.Refused` and the failure clauses of `CcmS390x.AuthEncDec` state exactly that state.

The tag is the CBC-MAC XORed with E(A_0), computed in place in the chaining value. `gettag` and `auth_decrypt` read it from there: the full 16-byte value is masked, and callers see its first M bytes.

The model follows the code everywhere except in the two arithmetic wraps of the block budget, listed under "## Findings" (the second and third rows). There `CcmS390x.AuthEncDec` uses the evidently intended unbounded arithmetic, and `CcmFindings` models the code as written.

## Model

| member | source | states |
|---|---|---|
| CcmS390x.InitKey | providers/common/ciphers/aes_ccm_s390x.c:17-25 | byte 0 of the nonce block has L−1 in bits 0-2, (M−2)/2 in bits 3-5 and the associated-data bit clear, which is RFC 3610's flags octet without associated data; bytes 1-15 are zero; the block count is 0; the key is set; L, M and the chaining value are unchanged |
| CcmS390x.LemmaInitFlags | providers/common/ciphers/aes_ccm_s390x.c:20-21 | the or-of-shifted-fields expression equals the B_0 flags octet of RFC 3610 section 2.2, and each field can be read back from it |
| CcmS390x.SetIv | providers/common/ciphers/aes_ccm_s390x.c:34-36 | only bit 0x40 of byte 0 changes; exactly 15−L nonce bytes land at positions 1..15−L, whatever length the nonce buffer declares; the last L bytes read back as mlen mod 256^L; nothing else in the context changes; a keyed context stays keyed |
| CcmS390x.LengthField | providers/common/ciphers/aes_ccm_s390x.c:35-36 | the eight-byte big-endian store, cut to its last L bytes, decodes to mlen mod 256^L |
| CcmFormat.LemmaAadLengthPrefix | providers/common/ciphers/aes_ccm_s390x.c:58-72 | the prefix is 2 bytes below 0xFF00; FF FE and 4 bytes up to 2^32; FF FF and 8 bytes from 2^32; its length field decodes to alen in every tier |
| CcmFormat.LemmaAadLengthRoundTrip | providers/common/ciphers/aes_ccm_s390x.c:58-72 | an independent decoder of RFC 3610's length encoding recovers alen and the prefix length from any prefix followed by any data |
| CcmS390x.LemmaFirstAadBlock | providers/common/ciphers/aes_ccm_s390x.c:74-81 | the first block (prefix, as much data as fits, zero bytes) followed by the zero-padded remaining data is the formatted associated data |
| CcmS390x.AadInFirstBlock | providers/common/ciphers/aes_ccm_s390x.c:74-78 | the packing loop takes every byte when they fit, otherwise exactly enough to fill the block |
| CcmLoops.FillFirstAadBlock | providers/common/ciphers/aes_ccm_s390x.c:58-81 | the byte loops fill the scratch block with exactly the first authentication block and consume the number of bytes that fit |
| CcmS390x.SetAad | providers/common/ciphers/aes_ccm_s390x.c:43-106 | no associated data changes nothing; otherwise the associated-data bit is set, the chaining value is the CBC-MAC from zero over B_0 and the formatted associated data, and the count grows by one per block MACed; nothing else changes; a keyed context stays keyed |
| CcmS390x.AadMac | providers/common/ciphers/aes_ccm_s390x.c:83-104 | the 32-byte KMAC over the nonce block and the scratch block behind it, then whole-block KMAC and the XOR-and-KM of the remainder, give the CBC-MAC over B_0 and the zero-padded formatted data |
| CcmS390x.AadBlockOps | providers/common/ciphers/aes_ccm_s390x.c:87-103 | the count increments 2 + ⌊rest/16⌋ + (1 if rest mod 16 ≠ 0) equal one per block of B_0 and the formatted associated data |
| CcmS390x.LemmaMacAfterFirstBlock | providers/common/ciphers/aes_ccm_s390x.c:85-104 | MACing B_0 and the first block, then absorbing the rest, is the CBC-MAC of B_0 and the formatted data |
| BlockModes.Absorb | providers/common/ciphers/aes_ccm_s390x.c:159-167 | KMAC over the whole blocks, then XOR of a partial final block into the chaining value and one KM, equals CBC-MAC over the zero-padded data |
| BlockModes.LemmaCbcMacAppend | providers/common/ciphers/aes_ccm_s390x.c:85-104 | chained KMAC calls over consecutive whole-block inputs equal one CBC-MAC over their concatenation |
| CcmLoops.XorPartial | providers/common/ciphers/aes_ccm_s390x.c:162-163 | the byte loop XORs the partial block into the chaining value and leaves its other bytes alone; XORing the old value back recovers the data |
| CcmLoops.StartCounter | providers/common/ciphers/aes_ccm_s390x.c:127-141 | the shift-or loop reconstructs the big-endian value of the last L bytes, and the block it leaves is counter block A_1 (flags L−1, nonce, counter 1) |
| CcmS390x.AuthEncDec | providers/common/ciphers/aes_ccm_s390x.c:113-201 | success iff the declared length equals len and, when encrypting, the count plus 2·⌈len/16⌉+1 stays within 2^61; B_0 is counted when no associated data did it, and the encryption charge persists on refusal; a refused call leaves the output untouched; a successful call outputs CTR from counter 1 and leaves MAC(plaintext) XOR E(A_0) with the flags octet restored; key, L and M are unchanged |
| CcmS390x.Refused | providers/common/ciphers/aes_ccm_s390x.c:121-151 | after a refusal B_0 has been authenticated, the flags octet is reduced to L−1 and the length field reads counter 1 |
| CcmS390x.Crypt | providers/common/ciphers/aes_ccm_s390x.c:153-200 | encryption MACs its input and decryption MACs its output, so both MAC the plaintext; the output is CTR from counter 1; the tag mask uses counter 0; the flags octet and nonce come back and the length field reads 0 |
| CcmS390x.Finished | providers/common/ciphers/aes_ccm_s390x.c:190-199 | after the tag step the flags octet and nonce bytes are those of entry and the length field reads 0 |
| CcmLoops.ClearCounter | providers/common/ciphers/aes_ccm_s390x.c:190-192 | clearing the last L bytes of a counter block yields A_0, whatever value counting left there |
| CcmS390x.LemmaEncDecRoundTrip | providers/common/ciphers/aes_ccm_s390x.c:153-200 | decrypting an encryption from the same state accepts, returns the plaintext, and leaves an identical 16-byte chaining value and nonce block |
| CcmS390x.LemmaDecEncRoundTrip | providers/common/ciphers/aes_ccm_s390x.c:146-200 | encrypting a decryption from the same state, within the block budget, reproduces the ciphertext and the chaining value |
| BlockModes.LemmaCtrInvolution | providers/common/ciphers/aes_ccm_s390x.c:169-176 | CTR with the same counters applied twice is the identity |
| CcmS390x.GetTag | providers/common/ciphers/aes_ccm_s390x.c:209-212 | fails iff tlen > M; otherwise returns exactly tlen bytes, a prefix of the chaining value |
| CcmS390x.AuthEncrypt | providers/common/ciphers/aes_ccm_s390x.c:222-225 | the tag is read only when the payload call succeeded and a tag buffer was given; a refused read-out fails the call but keeps the ciphertext |
| CcmS390x.AuthDecrypt | providers/common/ciphers/aes_ccm_s390x.c:237-244 | success iff the payload call succeeded and exactly M tag bytes match, whatever taglen says; on any failure the output is all zeros |
| CcmS390x.LemmaSealOpen | providers/common/ciphers/aes_ccm_s390x.c:215-244 | authenticated decryption of an authenticated encryption with its full tag succeeds and returns the plaintext |
| CcmS390x.LemmaForgedTagRejected | providers/common/ciphers/aes_ccm_s390x.c:237-244 | a tag that differs in its first M bytes is rejected and the output zeroed |
| CcmS390x.ProvAesHwCcm | providers/common/ciphers/aes_ccm_s390x.c:256-263 | this engine's table iff the key size is 128, 192 or 256 bits and the matching capability holds; the generic table otherwise |
| CcmSession.Setup | providers/common/ciphers/aes_ccm_s390x.c:12-106 | key, nonce and associated-data setup leave RFC 3610's B_0 in the nonce block, the CBC-MAC of B_0 and the formatted associated data as the payload call's start value, and one counted operation per block MACed |
| CcmSession.LemmaNonceSetup | providers/common/ciphers/aes_ccm_s390x.c:20-36 | the block built by key setup and nonce setup is RFC 3610's B_0 without the associated-data bit |
| CcmSession.LemmaCounterPrefix | providers/common/ciphers/aes_ccm_s390x.c:127-142 | on B_0 the flags octet gives back L, the counter prefix is RFC 3610's (flags L−1 and nonce), and the declared length is mlen mod 256^L |
| CcmSession.LemmaPayloadIsRfc3610 | providers/common/ciphers/aes_ccm_s390x.c:153-200 | an accepted payload call after setup yields RFC 3610's ciphertext, and the first M bytes of the chaining value are RFC 3610's encrypted authentication value U |
| CcmSession.LemmaEncryptIsRfc3610 | providers/common/ciphers/aes_ccm_s390x.c:215-226 | after setup, authenticated encryption with an M-byte tag succeeds iff the block budget allows, and then gives exactly RFC 3610's ciphertext and tag |
| CcmSession.LemmaDecryptIsRfc3610 | providers/common/ciphers/aes_ccm_s390x.c:228-245 | after setup, authenticated decryption accepts iff RFC 3610's decryption accepts the first M tag bytes, returns the same plaintext, and leaves zeros otherwise |
| CcmSession.LemmaLengthMismatch | providers/common/ciphers/aes_ccm_s390x.c:143-144 | a payload whose length differs from the nonce-setup length (mod 256^L) is refused and the output is left as it was |
| CcmFindings.InitKeyWindowAsWritten | providers/common/ciphers/aes_ccm_s390x.c:22 | key setup as written stores the flags octet and zeroes the rest of the nonce block, and also the byte behind it |
| CcmFindings.LemmaInitKeyOverrun | providers/common/ciphers/aes_ccm_s390x.c:22 | as written, a non-zero first byte of the scratch block behind the nonce block is cleared |
| CcmFindings.LemmaInitKeyWindow | providers/common/ciphers/aes_ccm_s390x.c:20-22 | as intended, key setup leaves everything behind the nonce block unchanged and writes the block InitKey stores |
| CcmFindings.LemmaEncBlockOpsAgree | providers/common/ciphers/aes_ccm_s390x.c:148 | the 64-bit charge as written equals the intended 2·⌈len/16⌉+1 for every len below 2^64 − 15 |
| CcmFindings.LemmaEncBlockOpsWrap | providers/common/ciphers/aes_ccm_s390x.c:148-150 | for len = 2^64 − 1 the charge as written is 1, while the intended charge exceeds 2^61 |
| CcmFindings.ChargeAsWritten | providers/common/ciphers/aes_ccm_s390x.c:146-150 | the code's charge and check: the count is kept modulo 2^64, the check passes iff the wrapped count is at most 2^61, and below len = 2^64 − 15 the added charge is the intended one |
| CcmFindings.LemmaCountWrapExample | providers/common/ciphers/aes_ccm_s390x.c:148-150 | as written, a count of 2^64 − 1, far past the limit, wraps to 0 on an encryption of no bytes, and the call is accepted |
| CcmFindings.LemmaExhaustedKeyRefused | providers/common/ciphers/aes_ccm_s390x.c:146-151 | as intended, once the count is past 2^61 every encryption is refused, leaves the output untouched, and leaves the count past 2^61 |

## Left out

- AES, the KM and KMAC instructions: the block cipher is the uninterpreted parameter `aes`. KM is one application of it, and KMAC is CBC-MAC built from it.
- CRYPTO_ctr128_encrypt_ctr32: modelled as XOR with E(A_i) for i = 1, 2, …. Its internals are not modelled: the increment of only the low 32 counter bits, and its partial-block `num`/`buf` bookkeeping. Those internals belong to another file. The declared-length check keeps the counter below 256^L, so the wrap matters only for L ≥ 5 and messages of 2^36 bytes or more.
- CRYPTO_memcmp: modelled as equality of M bytes. Constant-time behaviour cannot be expressed.
- OPENSSL_cleanse: modelled as filling the output with zeros.
- The S390X_aes_*_ccm_CAPABLE macros: they become the boolean fields of `Capabilities`. Capability detection is outside the file.
- The generic `aes_ccm` table: it is only named (`GenericCcm`). Its code is not part of this model.
- The `fc` function code, struct layout, unions and type punning: these are memory representation only. The key is the byte sequence `key`, and the `ks.ks` key schedule used by the CTR helper is taken to be that same key.
- The scratch block `buf`: it is not kept in the context, because no call reads it before writing it. Its role in the 32-byte KMAC of associated-data setup is modelled by `CcmS390x.AadMac`, and the byte it loses at key setup by `CcmFindings`.
- CcmS390x.AuthEncDec: the 2^61 check uses the intended charge `EncBlockOps` and an unbounded `nat` count, so the model does not promise two behaviours of the code. First, for len ≥ 2^64 − 15 the code's charge wraps to a small value and the check passes. Second, refused charges stay on the 64-bit count, so enough refused encryptions wrap it below 2^61 and encryption is accepted again. In the model an exhausted key stays exhausted (`CcmFindings.LemmaExhaustedKeyRefused`). Both wraps are recorded under "## Findings", with the as-written arithmetic in `CcmFindings.EncBlockOpsAsWritten` and `CcmFindings.ChargeAsWritten`. The first needs a buffer no machine can address. The second needs at least 2^64 − 2^61 counted operations of refused charges after exhaustion.
- Aliasing of `in` and `out`: the model takes the input and the previous output buffer as separate values.
- providers/common/ciphers/ciphers_gcm.h: it holds only declarations, with no behaviour.
- Validation of L, M and key length: callers in the generic CCM layer do this. The model requires L in 2..8 and an even M in 4..16, as RFC 3610 section 2 allows.
- BlockModes.CbcMac: it is total and MACs whole blocks only; a trailing partial block would be ignored. Every caller passes whole blocks (the zero-padded data).
- CcmS390x.SetAad: the whole associated data is supplied in one call, as the engine requires. `DecodeAadLength` is an independent decoder written for the round-trip property; the engine has no decoder.

## Findings

| source | as written | input that shows it | evidently intended | confidence | as-written member | corrected member |
|---|---|---|---|---|---|---|
| providers/common/ciphers/aes_ccm_s390x.c:22 | `memset(nonce.b + 1, 0, sizeof(nonce.b))` clears 16 bytes from offset 1, one past the end of the 16-byte nonce block, into the scratch block behind it | scratch block starting with byte 1, flags 0x3A: after key setup that byte is 0 (`CcmFindings.LemmaInitKeyOverrunExample`) | clear the 15 bytes 1..15 of the nonce block only | not executed; high (the byte written is the first scratch byte, which later calls rewrite before reading, so it is harmless in practice) | CcmFindings.InitKeyWindowAsWritten | CcmFindings.InitKeyWindow |
| providers/common/ciphers/aes_ccm_s390x.c:148 | `(((len + 15) >> 4) << 1) + 1` in 64-bit arithmetic wraps for len ≥ 2^64 − 15 | len = 2^64 − 1: the charge is 1, so the 2^61 check passes (`CcmFindings.LemmaEncBlockOpsWrap`) | charge 2·⌈len/16⌉ + 1 operations | not executed; low (such a length cannot be a real buffer, and the declared-length check already needs L = 8) | CcmFindings.EncBlockOpsAsWritten | CcmS390x.EncBlockOps |
| providers/common/ciphers/aes_ccm_s390x.c:148-150 | the charge is added to the 64-bit `blocks` before the check and stays there when the call is refused, so the count keeps growing after exhaustion and can wrap | count 2^64 − 1, reached by refused charges after exhaustion, then an encryption of 0 bytes: the count wraps to 0 and the call is accepted (`CcmFindings.LemmaCountWrapExample`) | once past 2^61 the key stays refused | not executed; low (reaching the wrap needs 2^64 − 2^61 counted operations of refused charges, which is about 2^27 refused calls of 1 TiB declared length) | CcmFindings.ChargeAsWritten | CcmFindings.LemmaExhaustedKeyRefused |
