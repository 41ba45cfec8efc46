/** Bytes and big-endian numbers, as encoding/binary reads them. */
module Bytes {
  type Byte = b: int | 0 <= b < 256

  datatype Result<+T> = Ok(value: T) | Err

  datatype Option<+T> = None | Some(value: T)

  function Pow256(w: nat): (p: nat)
    ensures p >= 1
  {
    if w == 0 then 1 else 256 * Pow256(w - 1)
  }

  /** The low `w` bytes of `v`, most significant first. */
  function BigEndian(w: nat, v: nat): (bs: seq<Byte>)
    ensures |bs| == w
  {
    if w == 0 then [] else BigEndian(w - 1, v / 256) + [v % 256]
  }

  function FromBigEndian(bs: seq<Byte>): nat {
    if |bs| == 0 then 0 else FromBigEndian(bs[..|bs| - 1]) * 256 + bs[|bs| - 1]
  }

  lemma {:induction false} DecodeEncode(w: nat, v: nat)
    requires v < Pow256(w)
    ensures FromBigEndian(BigEndian(w, v)) == v
  {
    if w == 0 {
    } else {
      DecodeEncode(w - 1, v / 256);
      var bs := BigEndian(w, v);
      assert bs[..w - 1] == BigEndian(w - 1, v / 256);
    }
  }

  lemma {:induction false} EncodeDecode(bs: seq<Byte>)
    ensures FromBigEndian(bs) < Pow256(|bs|)
    ensures BigEndian(|bs|, FromBigEndian(bs)) == bs
  {
    if |bs| == 0 {
    } else {
      EncodeDecode(bs[..|bs| - 1]);
      assert bs == bs[..|bs| - 1] + [bs[|bs| - 1]];
    }
  }

  lemma FromOne(bs: seq<Byte>)
    requires |bs| == 1
    ensures FromBigEndian(bs) == bs[0]
  {
    assert bs[..0] == [];
  }

  lemma FromTwo(bs: seq<Byte>)
    requires |bs| == 2
    ensures FromBigEndian(bs) == bs[0] as int * 0x100 + bs[1]
  {
    assert bs[..1][..0] == [];
    assert FromBigEndian(bs[..1]) == bs[0];
  }

  lemma FromFour(bs: seq<Byte>)
    requires |bs| == 4
    ensures FromBigEndian(bs) == bs[0] as int * 0x100_0000 + bs[1] as int * 0x1_0000 + bs[2] as int * 0x100 + bs[3]
  {
    FromTwo(bs[..2]);
    assert bs[..3][..2] == bs[..2];
    assert FromBigEndian(bs[..3]) == FromBigEndian(bs[..2]) * 256 + bs[2];
  }

  lemma FromEight(bs: seq<Byte>)
    requires |bs| == 8
    ensures FromBigEndian(bs) ==
      (bs[0] as int * 0x100_0000 + bs[1] as int * 0x1_0000 + bs[2] as int * 0x100 + bs[3]) * 0x1_0000_0000
      + bs[4] as int * 0x100_0000 + bs[5] as int * 0x1_0000 + bs[6] as int * 0x100 + bs[7]
  {
    FromFour(bs[..4]);
    assert bs[..5][..4] == bs[..4] && bs[..6][..5] == bs[..5] && bs[..7][..6] == bs[..6];
    assert FromBigEndian(bs[..5]) == FromBigEndian(bs[..4]) * 256 + bs[4];
    assert FromBigEndian(bs[..6]) == FromBigEndian(bs[..5]) * 256 + bs[5];
    assert FromBigEndian(bs[..7]) == FromBigEndian(bs[..6]) * 256 + bs[6];
  }

  // ---------- bytes at an offset ----------

  /** `bs` is what `data` holds at `off`. */
  predicate At(data: seq<Byte>, off: nat, bs: seq<Byte>) {
    off + |bs| <= |data| && data[off..off + |bs|] == bs
  }

  lemma AtExact(data: seq<Byte>, off: nat, n: nat)
    requires off + n <= |data|
    ensures At(data, off, data[off..off + n])
  {}

  lemma AtRange(data: seq<Byte>, off: nat, bs: seq<Byte>)
    requires At(data, off, bs)
    ensures off + |bs| <= |data| && data[off..off + |bs|] == bs
  {}

  lemma AtConcat(data: seq<Byte>, off: nat, xs: seq<Byte>, ys: seq<Byte>)
    ensures At(data, off, xs + ys) <==> At(data, off, xs) && At(data, off + |xs|, ys)
  {
    if At(data, off, xs + ys) {
      var all := data[off..off + |xs + ys|];
      assert all[..|xs|] == xs && all[|xs|..] == ys;
      assert data[off..off + |xs|] == all[..|xs|] && data[off + |xs|..off + |xs + ys|] == all[|xs|..];
    }
    if At(data, off, xs) && At(data, off + |xs|, ys) {
      assert data[off..off + |xs + ys|] == data[off..off + |xs|] + data[off + |xs|..off + |xs + ys|];
    }
  }

  lemma AtOne(data: seq<Byte>, off: nat, b: Byte)
    ensures At(data, off, [b]) <==> off < |data| && data[off] == b
  {
    if off < |data| { assert data[off..off + 1] == [data[off]]; }
  }
}
