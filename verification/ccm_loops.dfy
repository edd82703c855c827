/**
  The byte loops of the engine, written as the loops they are, each proved
  to compute the block-level value the functional model uses.
 */
module CcmLoops {
  import opened Bytes
  import opened BlockModes
  import opened CcmFormat
  import opened CcmS390x

  /**
    Start of a payload call: the flags octet is reduced to L - 1, the L-byte
    length field is read most significant byte first while it is cleared,
    and its last byte is set to 1. The result is the declared message length
    and counter block A_1. The shift-and-or of the C loop (lines 135-140)
    is a multiply-and-add here: the low byte is zero after each shift.
   */
  method StartCounter(block: Block) returns (n: nat, ctr: Block)
    ensures n == DeclaredLength(block)
    ensures ctr == CounterBlock(CounterPrefix(block), 1)
  {
    var l := block[0] & 7;
    var start := 16 - FieldWidth(block);
    ctr := block[0 := l];
    n := 0;
    var i := start;
    while i < 15
      invariant start <= i <= 15
      invariant n == 256 * DecodeBE(block[start..i])
      invariant forall j :: 0 <= j < 16 ==> ctr[j] == if j == 0 then l else if start <= j < i then 0 else block[j]
    {
      LemmaDecodeStep(block, start, i);
      n := (n + block[i] as nat) * 256;
      ctr := ctr[i := 0];
      i := i + 1;
    }
    LemmaDecodeStep(block, start, 15);
    assert block[start..16] == block[start..];
    n := n + block[15] as nat;
    ctr := ctr[15 := 1];
    LemmaCounterOne(block, ctr);
  }

  /** The block StartCounter leaves, byte by byte, is A_1. */
  lemma LemmaCounterOne(block: Block, ctr: Block)
    requires var start := 16 - FieldWidth(block);
             forall j :: 0 <= j < 16 ==>
               ctr[j] == if j == 0 then block[0] & 7 else if start <= j < 15 then 0 else if j == 15 then 1 else block[j]
    ensures ctr == CounterBlock(CounterPrefix(block), 1)
  {
    var w := FieldWidth(block);
    LemmaEncodeOne(w);
    var expected := CounterBlock(CounterPrefix(block), 1);
    assert expected == CounterPrefix(block) + Zeros(w - 1) + [1];
    forall j | 0 <= j < 16
      ensures ctr[j] == expected[j]
    {
      if j == 0 {
      } else if j < 16 - w {
        assert expected[j] == block[1..16 - w][j - 1];
      } else if j < 15 {
        assert expected[j] == Zeros(w - 1)[j - (16 - w)];
      }
    }
  }

  /** Reading one more byte of a big-endian field. */
  lemma LemmaDecodeStep(s: seq<bv8>, a: nat, i: nat)
    requires a <= i < |s|
    ensures DecodeBE(s[a..i + 1]) == DecodeBE(s[a..i]) * 256 + s[i] as nat
  {
    assert s[a..i + 1][..i - a] == s[a..i];
  }

  /**
    The first authentication block as the engine fills its scratch block:
    the length prefix, then associated-data bytes while the block has room
    and data remains, then zero bytes. Also returns how many data bytes
    were consumed.
   */
  method FillFirstAadBlock(aad: seq<bv8>) returns (buf: Block, used: nat)
    requires 0 < |aad| < SizeLimit
    ensures buf == FirstAadBlock(aad)
    ensures used == AadInFirstBlock(|aad|)
  {
    var p := AadLengthPrefix(|aad|);
    var k := AadInFirstBlock(|aad|);
    buf := p + Zeros(16 - |p|);
    var i := |p|;
    used := 0;
    while i < 16 && used < |aad|
      invariant |p| <= i <= 16 && used <= |aad| && i == |p| + used
      invariant buf[..i] == p + aad[..used]
      invariant buf[i..] == Zeros(16 - i)
    {
      var next := buf[i := aad[used]];
      assert next[..i + 1] == buf[..i] + [aad[used]];
      assert aad[..used + 1] == aad[..used] + [aad[used]];
      assert next[i + 1..] == buf[i + 1..];
      buf := next;
      i := i + 1;
      used := used + 1;
    }
    assert used == k;
    assert buf == buf[..i] + buf[i..];
  }

  /** XOR of the bytes of a final partial block into the chaining value, one byte at a time. */
  method XorPartial(icv: Block, data: seq<bv8>) returns (r: Block)
    requires |data| <= 16
    ensures r == XorInto(icv, data)
    ensures Xor(r, icv)[..|data|] == data
  {
    r := icv;
    var i := 0;
    while i < |data|
      invariant 0 <= i <= |data|
      invariant forall j :: 0 <= j < i ==> r[j] == icv[j] ^ data[j]
      invariant forall j :: i <= j < 16 ==> r[j] == icv[j]
    {
      r := r[i := r[i] ^ data[i]];
      i := i + 1;
    }
  }

  /**
    Before the tag is masked the whole L-byte counter field is cleared,
    whatever value counting left in it: the block becomes A_0.
   */
  method ClearCounter(ctr: Block, w: nat) returns (a0: Block)
    requires 1 <= w <= 8
    ensures a0 == CounterBlock(ctr[..16 - w], 0)
  {
    a0 := ctr;
    var i := 16 - w;
    while i < 16
      invariant 16 - w <= i <= 16
      invariant a0[..16 - w] == ctr[..16 - w]
      invariant a0[16 - w..i] == Zeros(i - (16 - w))
    {
      var next := a0[i := 0];
      assert next[16 - w..i + 1] == a0[16 - w..i] + [0];
      assert next[..16 - w] == a0[..16 - w];
      a0 := next;
      i := i + 1;
    }
    LemmaEncodeZero(w);
    assert a0[16 - w..] == Zeros(w);
    assert a0 == a0[..16 - w] + a0[16 - w..];
  }
}
