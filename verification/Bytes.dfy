/** Octets and big-endian integers, as `u8`, `to_be_bytes` and `from_be_bytes` see them. */
module Bytes {

  newtype byte = x: int | 0 <= x < 256

  function Zeros(n: nat): (zeros: seq<byte>)
    ensures |zeros| == n
  {
    seq(n, _ => 0)
  }

  /** The `width` low-order octets of `n`, most significant first. */
  function BigEndian(n: nat, width: nat): (bs: seq<byte>)
    ensures |bs| == width
  {
    if width == 0 then [] else BigEndian(n / 256, width - 1) + [(n % 256) as byte]
  }

  function FromBigEndian(bs: seq<byte>): (n: nat)
  {
    if bs == [] then 0 else 256 * FromBigEndian(bs[..|bs| - 1]) + bs[|bs| - 1] as nat
  }

  function Power256(width: nat): (p: nat)
    ensures 0 < p
  {
    if width == 0 then 1 else 256 * Power256(width - 1)
  }

  /** Writing then reading keeps the number modulo the word size, and always fits. */
  lemma {:induction false} BigEndianRoundTrip(n: nat, width: nat)
    ensures FromBigEndian(BigEndian(n, width)) < Power256(width)
    ensures n < Power256(width) ==> FromBigEndian(BigEndian(n, width)) == n
  {
    if width > 0 {
      var bs := BigEndian(n, width);
      assert bs[..|bs| - 1] == BigEndian(n / 256, width - 1);
      BigEndianRoundTrip(n / 256, width - 1);
    }
  }

  /** Reading then writing gives back the octets. */
  lemma {:induction false} FromBigEndianRoundTrip(bs: seq<byte>)
    ensures BigEndian(FromBigEndian(bs), |bs|) == bs
  {
    if bs != [] {
      var low := bs[|bs| - 1] as nat;
      var high := FromBigEndian(bs[..|bs| - 1]);
      assert (256 * high + low) / 256 == high && (256 * high + low) % 256 == low;
      FromBigEndianRoundTrip(bs[..|bs| - 1]);
      assert bs == bs[..|bs| - 1] + [bs[|bs| - 1]];
    }
  }

  lemma FromBigEndianFour(a: byte, b: byte, c: byte, d: byte)
    ensures FromBigEndian([a, b, c, d]) == a as nat * 0x100_0000 + b as nat * 0x1_0000 + c as nat * 0x100 + d as nat
  {
    assert [a, b, c, d][..3] == [a, b, c] && [a, b, c][..2] == [a, b] && [a, b][..1] == [a];
    assert FromBigEndian([a]) == a as nat by { assert [a][..0] == []; }
    assert FromBigEndian([a, b]) == a as nat * 0x100 + b as nat;
    assert FromBigEndian([a, b, c]) == a as nat * 0x1_0000 + b as nat * 0x100 + c as nat;
  }

  /** Four octets, the most significant first. */
  lemma BigEndianFour(a: byte, b: byte, c: byte, d: byte)
    ensures BigEndian(a as nat * 0x100_0000 + b as nat * 0x1_0000 + c as nat * 0x100 + d as nat, 4) == [a, b, c, d]
  {
    FromBigEndianFour(a, b, c, d);
    FromBigEndianRoundTrip([a, b, c, d]);
  }
}
