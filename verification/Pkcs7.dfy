/** PKCS#7 padding, section 6.3 of RFC 5652, with the block size of AES. */
module Pkcs7 {
  import opened Bytes

  const BLOCK_SIZE := 16

  /** The text followed by as many bytes as fill its last block, each saying how many they are. */
  function Pad(x: seq<Byte>): (b: seq<Byte>)
    ensures |b| % 16 == 0
  {
    var n := BLOCK_SIZE - |x| % BLOCK_SIZE;
    x + seq(n, _ => n)
  }

  /** Unpadding accepts exactly the padded texts, and gives the text back. */
  method SafePKCS7Unpad(b: seq<Byte>) returns (r: Result<seq<Byte>>)
    ensures forall x :: r == Ok(x) <==> b == Pad(x)
  {
    if |b| == 0 || |b| % BLOCK_SIZE != 0 {
      forall x ensures b != Pad(x) { assert |Pad(x)| > 0; }
      return Err;
    }
    var padLen := b[|b| - 1];
    if padLen <= 0 || padLen > BLOCK_SIZE {
      forall x ensures b != Pad(x) { LastByte(x); }
      return Err;
    }
    if padLen > |b| {
      forall x ensures b != Pad(x) { LastByte(x); }
      return Err;
    }
    for i := |b| - padLen to |b|
      invariant forall j :: |b| - padLen <= j < i ==> b[j] == padLen
    {
      if b[i] != padLen {
        forall x ensures b != Pad(x) { LastByte(x); }
        return Err;
      }
    }
    var text := b[..|b| - padLen];
    forall x ensures text == x <==> b == Pad(x) {
      LastByte(x);
      if text == x { assert b == Pad(x); }
    }
    return Ok(text);
  }

  /** Every byte of the padding is its length. */
  lemma LastByte(x: seq<Byte>)
    ensures var b, n := Pad(x), BLOCK_SIZE - |x| % BLOCK_SIZE;
      && 1 <= n <= 16 && |b| == |x| + n && b[..|x|] == x
      && forall i :: |x| <= i < |b| ==> b[i] == n
  {}

  /** Padding loses nothing: different texts pad differently. */
  lemma PadInjective(x: seq<Byte>, y: seq<Byte>)
    requires Pad(x) == Pad(y)
    ensures x == y
  {
    LastByte(x);
    LastByte(y);
    var last := |Pad(x)| - 1;
    assert Pad(x)[last] == BLOCK_SIZE - |x| % BLOCK_SIZE && Pad(y)[last] == BLOCK_SIZE - |y| % BLOCK_SIZE;
  }
}
