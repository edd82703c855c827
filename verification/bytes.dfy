/**
  Byte strings, 16-byte blocks and big-endian integer fields.

  The engine is big-endian: every multi-byte store it makes (the 8-byte
  message length, the 2/4/8-byte AAD length) lays the integer out most
  significant byte first, which is `EncodeBE` below.
 */
module Bytes {

  /** A cipher block: exactly 16 bytes. */
  type Block = s: seq<bv8> | |s| == 16 witness seq(16, _ => 0 as bv8)

  /** 2^64: every `size_t` of the 64-bit platform is below it. */
  const SizeLimit: nat := 0x1_0000_0000_0000_0000

  function Zeros(n: nat): (r: seq<bv8>)
    ensures |r| == n
  {
    seq(n, _ => 0 as bv8)
  }

  function Min(a: nat, b: nat): nat
  {
    if a <= b then a else b
  }

  /** 256^n, the number of values an n-byte field can hold. */
  function Pow256(n: nat): (r: nat)
    ensures r >= 1
  {
    if n == 0 then 1 else 256 * Pow256(n - 1)
  }

  /** The low n bytes of x, most significant first: a big-endian store of width n. */
  function EncodeBE(x: nat, n: nat): (r: seq<bv8>)
    ensures |r| == n
  {
    if n == 0 then [] else EncodeBE(x / 256, n - 1) + [(x % 256) as bv8]
  }

  /** The unsigned integer a big-endian byte string denotes. */
  function DecodeBE(s: seq<bv8>): (r: nat)
    ensures r < Pow256(|s|)
  {
    if |s| == 0 then 0 else DecodeBE(s[..|s| - 1]) * 256 + s[|s| - 1] as nat
  }

  /** A byte value below 256 converts to a byte and back unchanged. */
  lemma LemmaByteValue(v: nat)
    requires v < 256
    ensures (v as bv8) as nat == v
  {
    LemmaCounted(v);
    LemmaByteRoundTrip(Counted(v));
  }

  /** The byte reached by counting up v times from zero. */
  function Counted(v: nat): bv8
    requires v < 256
  {
    if v == 0 then 0 else Counted(v - 1) + 1
  }

  lemma {:induction false} LemmaCounted(v: nat)
    requires v < 256
    ensures Counted(v) as nat == v
  {
    if v > 0 {
      LemmaCounted(v - 1);
      LemmaByteSucc(Counted(v - 1));
    }
  }

  lemma LemmaByteSucc(b: bv8)
    requires b < 255
    ensures (b + 1) as nat == b as nat + 1
  {
  }

  lemma LemmaByteRoundTrip(b: bv8)
    ensures (b as nat) as bv8 == b
  {
  }

  lemma LemmaDivModUnique(x: nat, m: nat, q: nat, r: nat)
    requires m > 0 && r < m && x == m * q + r
    ensures x / m == q && x % m == r
  {
    var q' := x / m;
    if q' > q {
      LemmaMulMono(m, q + 1, q');
      assert false;
    } else if q' < q {
      LemmaMulMono(m, q' + 1, q);
      assert false;
    }
  }

  lemma LemmaMulMono(m: nat, a: nat, b: nat)
    requires a <= b
    ensures m * a <= m * b
  {
    assert m * b - m * a == m * (b - a);
  }

  /** Dropping the last byte of a store is the store of x / 256. */
  lemma LemmaModPow256Step(x: nat, n: nat)
    requires n > 0
    ensures x % Pow256(n) == ((x / 256) % Pow256(n - 1)) * 256 + x % 256
  {
    var p := Pow256(n - 1);
    var q, r := x / 256, x % 256;
    var a, b := q / p, q % p;
    assert x == 256 * q + r;
    assert q == p * a + b;
    assert 256 * q == (256 * p) * a + 256 * b;
    assert b * 256 + r < 256 * p;
    LemmaDivModUnique(x, 256 * p, a, b * 256 + r);
  }

  /** Reading back an n-byte store yields x reduced modulo 256^n. */
  lemma {:induction false} LemmaDecodeEncode(x: nat, n: nat)
    ensures DecodeBE(EncodeBE(x, n)) == x % Pow256(n)
  {
    if n > 0 {
      var s := EncodeBE(x, n);
      assert s[..n - 1] == EncodeBE(x / 256, n - 1);
      LemmaByteValue(x % 256);
      assert s[n - 1] as nat == x % 256;
      LemmaDecodeEncode(x / 256, n - 1);
      LemmaModPow256Step(x, n);
    }
  }

  /** Storing the value of a byte string at its own width gives the string back. */
  lemma {:induction false} LemmaEncodeDecode(s: seq<bv8>)
    ensures EncodeBE(DecodeBE(s), |s|) == s
  {
    if |s| > 0 {
      var init, last := s[..|s| - 1], s[|s| - 1];
      var x := DecodeBE(s);
      assert x == DecodeBE(init) * 256 + last as nat;
      assert x / 256 == DecodeBE(init) && x % 256 == last as nat;
      LemmaEncodeDecode(init);
      assert (last as nat) as bv8 == last;
      assert s == init + [last];
    }
  }

  /** A store of width k is the last k bytes of a wider store of the same value. */
  lemma {:induction false} LemmaEncodeSuffix(x: nat, n: nat, k: nat)
    requires k <= n
    ensures EncodeBE(x, n)[n - k..] == EncodeBE(x, k)
  {
    if k > 0 {
      LemmaEncodeSuffix(x / 256, n - 1, k - 1);
      assert EncodeBE(x, n)[n - k..] == EncodeBE(x / 256, n - 1)[n - k..] + [(x % 256) as bv8];
    }
  }

  /** Storing zero writes only zero bytes. */
  lemma {:induction false} LemmaEncodeZero(n: nat)
    ensures EncodeBE(0, n) == Zeros(n)
  {
    if n > 0 {
      LemmaEncodeZero(n - 1);
    }
  }

  /** A field of zero bytes reads as zero. */
  lemma {:induction false} LemmaDecodeZeros(n: nat)
    ensures DecodeBE(Zeros(n)) == 0
  {
    if n > 0 {
      assert Zeros(n)[..n - 1] == Zeros(n - 1);
      LemmaDecodeZeros(n - 1);
    }
  }

  /** Storing one writes zeros followed by a single 1 byte. */
  lemma LemmaEncodeOne(n: nat)
    requires n > 0
    ensures EncodeBE(1, n) == Zeros(n - 1) + [1]
  {
    LemmaEncodeZero(n - 1);
  }
}
