/**
  The byte layouts CCM defines (section 2.2 of RFC 3610, NIST SP 800-38C
  Appendix A.2): the parameters L and M, the flags octet of B_0 and the
  length prefix in front of the associated data.
 */
module CcmFormat {
  import opened Bytes
  import opened BlockModes
  import opened Optional

  /** L, the size of the length field, is 2..8; M, the tag size, is even and 4..16. */
  predicate ValidParams(L: nat, M: nat)
  {
    2 <= L <= 8 && 4 <= M <= 16 && M % 2 == 0
  }

  /** A value below 8 as a byte: the content of a three-bit field. */
  function ThreeBits(v: nat): (r: bv8)
    requires v < 8
    ensures r < 8 && r as nat == v
  {
    if v == 0 then 0 else if v == 1 then 1 else if v == 2 then 2 else if v == 3 then 3
    else if v == 4 then 4 else if v == 5 then 5 else if v == 6 then 6 else 7
  }

  /** Flags octet of B_0: 64 * Adata + 8 * M' + L', with M' = (M - 2) / 2 and L' = L - 1. */
  function FlagsOctet(adata: bool, L: nat, M: nat): bv8
    requires ValidParams(L, M)
  {
    (if adata then 64 else 0) + 8 * ThreeBits((M - 2) / 2) + ThreeBits(L - 1)
  }

  /** Lengths below this take a plain two-byte length field. */
  const TwoByteLimit: nat := 0xFF00
  /** Lengths from here on take the 0xFF 0xFF marker and an eight-byte field. */
  const FourByteLimit: nat := 0x1_0000_0000

  lemma LemmaPow256Values()
    ensures Pow256(2) == 0x1_0000
    ensures Pow256(4) == FourByteLimit
    ensures Pow256(8) == SizeLimit
  {
    assert Pow256(1) == 256;
    assert Pow256(2) == 0x1_0000;
    assert Pow256(3) == 0x100_0000;
    assert Pow256(4) == 0x1_0000_0000;
    assert Pow256(5) == 0x100_0000_0000;
    assert Pow256(6) == 0x1_0000_0000_0000;
    assert Pow256(7) == 0x100_0000_0000_0000;
  }

  /**
    The encoding of the associated-data length that starts the first
    authentication block, in three tiers: two bytes below 0xFF00; the
    marker 0xFF 0xFE and four bytes below 2^32; the marker 0xFF 0xFF and
    eight bytes above.
   */
  function AadLengthPrefix(alen: nat): (r: seq<bv8>)
    requires 0 < alen < SizeLimit
    ensures |r| == 2 || |r| == 6 || |r| == 10
  {
    if alen < TwoByteLimit then EncodeBE(alen, 2)
    else if alen >= FourByteLimit then Marked(0xFF, EncodeBE(alen, 8))
    else Marked(0xFE, EncodeBE(alen, 4))
  }

  /** Each tier of the length prefix: its width, its marker, and a field that reads back as the length. */
  lemma LemmaAadLengthPrefix(alen: nat)
    requires 0 < alen < SizeLimit
    ensures var r := AadLengthPrefix(alen);
            && (alen < TwoByteLimit ==> |r| == 2 && DecodeBE(r) == alen)
            && (TwoByteLimit <= alen < FourByteLimit ==>
                  |r| == 6 && r[..2] == [0xFF, 0xFE] && DecodeBE(r[2..]) == alen)
            && (FourByteLimit <= alen ==>
                  |r| == 10 && r[..2] == [0xFF, 0xFF] && DecodeBE(r[2..]) == alen)
  {
    if alen < TwoByteLimit {
      LemmaStoreExact(alen, 2);
    } else if alen >= FourByteLimit {
      LemmaStoreExact(alen, 8);
    } else {
      LemmaStoreExact(alen, 4);
    }
  }

  /** A store wide enough for the value reads back as the value. */
  lemma LemmaStoreExact(x: nat, n: nat)
    requires n == 2 || n == 4 || n == 8
    requires n == 2 ==> x < TwoByteLimit
    requires n == 4 ==> x < FourByteLimit
    requires x < SizeLimit
    ensures DecodeBE(EncodeBE(x, n)) == x
  {
    LemmaPow256Values();
    LemmaDecodeEncode(x, n);
    var p := Pow256(n);
    assert x < p by {
      if n == 2 {} else if n == 4 {} else {}
    }
    LemmaDivModUnique(x, p, 0, x);
  }

  /** 0xFF, the given marker byte, then the stored length. */
  function Marked(marker: bv8, field: seq<bv8>): (r: seq<bv8>)
    ensures |r| == |field| + 2 && r[..2] == [0xFF, marker] && r[2..] == field
  {
    [0xFF, marker] + field
  }

  /**
    Reads an associated-data length back from the start of an
    authentication block: the length and the number of header bytes, or
    None for a truncated header or a reserved two-byte value.
   */
  function DecodeAadLength(s: seq<bv8>): Option<(nat, nat)>
  {
    if |s| < 2 then None
    else if s[0] == 0xFF && s[1] == 0xFE then
      if |s| < 6 then None else Some((DecodeBE(s[2..6]), 6))
    else if s[0] == 0xFF && s[1] == 0xFF then
      if |s| < 10 then None else Some((DecodeBE(s[2..10]), 10))
    else if DecodeBE(s[..2]) == 0 || DecodeBE(s[..2]) >= TwoByteLimit then None
    else Some((DecodeBE(s[..2]), 2))
  }

  /** The length prefix is uniquely decodable, whatever follows it. */
  lemma LemmaAadLengthRoundTrip(alen: nat, rest: seq<bv8>)
    requires 0 < alen < SizeLimit
    ensures DecodeAadLength(AadLengthPrefix(alen) + rest) == Some((alen, |AadLengthPrefix(alen)|))
  {
    LemmaAadLengthPrefix(alen);
    var p := AadLengthPrefix(alen);
    var s := p + rest;
    assert s[..|p|] == p;
    if alen < TwoByteLimit {
      assert DecodeBE(p) == DecodeBE(p[..1]) * 256 + p[1] as nat;
      assert DecodeBE(p[..1]) == p[0] as nat;
      assert p[0] != 0xFF;
    } else {
      assert s[2..|p|] == p[2..];
    }
  }

  /**
    The associated data as it enters the CBC-MAC: nothing when there is
    none, otherwise its length prefix and the data, zero-padded to whole
    blocks.
   */
  function FormatAad(aad: seq<bv8>): (r: seq<bv8>)
    requires |aad| < SizeLimit
    ensures |r| % 16 == 0
  {
    if |aad| == 0 then [] else ZeroPad(AadLengthPrefix(|aad|) + aad)
  }

  /** Bit layout of a flags octet with L' and M' in three bits each. */
  lemma LemmaFlagBits(a: bv8, b: bv8)
    requires a < 8 && b < 8
    ensures a | (b << 3) == 8 * b + a
    ensures (a | (b << 3)) | 0x40 == 64 + 8 * b + a
    ensures (a | (b << 3)) & 7 == a
    ensures ((a | (b << 3)) >> 3) & 7 == b
    ensures (a | (b << 3)) & 0xC0 == 0
  {
  }

  /** The Adata bit of the flags octet is 0x40; the low three bits carry L'. */
  lemma LemmaFlagsOctetBits(L: nat, M: nat)
    requires ValidParams(L, M)
    ensures FlagsOctet(false, L, M) & 0x40 == 0
    ensures FlagsOctet(false, L, M) | 0x40 == FlagsOctet(true, L, M)
    ensures FlagsOctet(true, L, M) & !0x40 == FlagsOctet(false, L, M)
    ensures FlagsOctet(true, L, M) & 7 == ThreeBits(L - 1)
    ensures FlagsOctet(false, L, M) & 7 == ThreeBits(L - 1)
  {
    LemmaFlagBits(ThreeBits(L - 1), ThreeBits((M - 2) / 2));
  }
}
