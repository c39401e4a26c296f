/** The 16-bit checksum of `calc_checksum`: the byte sum of everything from an
    offset to the end of the buffer, truncated to 16 bits. */
module Checksum {
  import opened Bytes

  /** Python `calc_checksum(data, offset)`: `sum(data[offset:]) & 0xFFFF`. */
  function CalcChecksum(data: seq<Byte>, offset: nat): (r: U16)
    ensures offset <= |data| ==> r == Sum(data[offset..]) % 0x1_0000
    ensures offset >= |data| ==> r == 0
  {
    Sum(Drop(data, offset)) % 0x1_0000
  }

  /** With a header of exactly 0x80 bytes in front, checking from the default
      offset 0x80 gives the checksum of the body alone from offset 0: the value
      a rebuild stores is the value verification recomputes. */
  lemma {:induction false} ChecksumSkipsHeader(header: seq<Byte>, body: seq<Byte>)
    requires |header| == 0x80
    ensures CalcChecksum(header + body, 0x80) == CalcChecksum(body, 0)
  {
    assert (header + body)[0x80..] == body;
  }

  /** The checksum of a concatenation is the truncated sum of the parts'
      checksums: the body checksum can be accumulated part by part. */
  lemma {:induction false} ChecksumConcat(a: seq<Byte>, b: seq<Byte>)
    ensures CalcChecksum(a + b, 0) == (CalcChecksum(a, 0) + CalcChecksum(b, 0)) % 0x1_0000
  {
    assert Drop(a + b, 0) == a + b;
    assert Drop(a, 0) == a;
    assert Drop(b, 0) == b;
    SumAppend(a, b);
    TruncatedSum(Sum(a), Sum(b));
  }

  /** Truncating to 16 bits commutes with addition. */
  lemma TruncatedSum(x: nat, y: nat)
    ensures (x + y) % 0x1_0000 == (x % 0x1_0000 + y % 0x1_0000) % 0x1_0000
  {
    var q := x / 0x1_0000 + y / 0x1_0000;
    assert x + y == q * 0x1_0000 + (x % 0x1_0000 + y % 0x1_0000);
  }
}
