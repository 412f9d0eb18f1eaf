/**
 * Bytes and hex nibbles. The source packs two nibbles `hi` and `lo` into the
 * byte `hi << 4 | lo` (u8 arithmetic). Every nibble it packs comes from one of
 * the sixteen hex-digit terms `x0`..`xf`, so both operands are below 16 and the
 * shift never wraps: the packed byte is `hi * 16 + lo`.
 */
module Bytes {

  type byte = x: int | 0 <= x < 256
  type nibble = x: int | 0 <= x < 16

  /** `hi << 4 | lo`: the high nibble comes first. */
  function Join(hi: nibble, lo: nibble): (b: byte)
    ensures b / 16 == hi && b % 16 == lo
  {
    hi * 16 + lo
  }

  /** Packs an even-length nibble stream pairwise, high nibble first. */
  function Pack(hs: seq<nibble>): seq<byte>
    requires |hs| % 2 == 0
  {
    if hs == [] then [] else [Join(hs[0], hs[1])] + Pack(hs[2..])
  }

  /** Splits every byte into its high and low nibble. */
  function Unpack(bs: seq<byte>): (hs: seq<nibble>)
    ensures |hs| == 2 * |bs|
  {
    if bs == [] then [] else [bs[0] / 16, bs[0] % 16] + Unpack(bs[1..])
  }

  lemma {:induction false} UnpackPack(hs: seq<nibble>)
    requires |hs| % 2 == 0
    ensures Unpack(Pack(hs)) == hs
  {
    if hs != [] {
      UnpackPack(hs[2..]);
      assert Pack(hs) == [Join(hs[0], hs[1])] + Pack(hs[2..]);
      assert ([Join(hs[0], hs[1])] + Pack(hs[2..]))[1..] == Pack(hs[2..]);
    }
  }

  lemma {:induction false} PackUnpack(bs: seq<byte>)
    ensures Pack(Unpack(bs)) == bs
  {
    if bs != [] {
      PackUnpack(bs[1..]);
      var hs := Unpack(bs);
      assert hs[2..] == Unpack(bs[1..]);
      assert Join(hs[0], hs[1]) == bs[0];
    }
  }

  lemma {:induction false} UnpackAppend(a: seq<byte>, b: seq<byte>)
    ensures Unpack(a + b) == Unpack(a) + Unpack(b)
  {
    if a == [] {
      assert a + b == b;
    } else {
      UnpackAppend(a[1..], b);
      assert (a + b)[1..] == a[1..] + b;
      assert (a + b)[0] == a[0];
    }
  }
}
