/** Byte strings as the codec sees them: Python `bytes` values, their slices,
    little-endian integers, byte sums and ASCII decimal numbers. */
module Bytes {
  import opened Errors

  type Byte = b: int | 0 <= b < 0x100
  type U16 = n: int | 0 <= n < 0x1_0000
  type U32 = n: int | 0 <= n < 0x1_0000_0000

  const ASCII_B: Byte := 0x42
  const ASCII_M: Byte := 0x4D
  const ASCII_ZERO: Byte := 0x30

  /** The two bytes "BM" that open every bitmap blob. */
  const BitmapMagic: seq<Byte> := [ASCII_B, ASCII_M]

  /** `n` copies of the byte `b` (Python `bytes([b]) * n`; a negative count gives nothing). */
  function Fill(b: Byte, n: int): (r: seq<Byte>)
    ensures |r| == if n < 0 then 0 else n
    ensures forall i | 0 <= i < |r| :: r[i] == b
  {
    if n <= 0 then [] else [b] + Fill(b, n - 1)
  }

  /** Python `s[n:]` for a non-negative start: empty once `n` reaches the end. */
  function Drop(s: seq<Byte>, n: nat): (r: seq<Byte>)
    ensures n <= |s| ==> r == s[n..]
    ensures n >= |s| ==> r == []
  {
    if n <= |s| then s[n..] else []
  }

  /** Python `s[lo:hi]` for non-negative bounds: both are clamped to the length. */
  function Slice(s: seq<Byte>, lo: nat, hi: nat): (r: seq<Byte>)
    ensures lo <= hi <= |s| ==> r == s[lo..hi]
    ensures hi >= |s| ==> r == Drop(s, lo)
    ensures hi <= lo ==> r == []
    ensures |r| <= |s|
  {
    var h := if hi <= |s| then hi else |s|;
    if lo < h then s[lo..h] else []
  }

  /** Powers of 256: the number of values a byte string of length `n` can encode. */
  function Pow256(n: nat): (r: nat)
    ensures r >= 1
  {
    if n == 0 then 1 else 0x100 * Pow256(n - 1)
  }

  /** Python `int.from_bytes(s, byteorder="little", signed=False)`. */
  function LittleEndian(s: seq<Byte>): (r: nat)
    ensures r < Pow256(|s|)
  {
    if s == [] then 0 else s[0] + 0x100 * LittleEndian(s[1..])
  }

  /** Python `struct.pack("<H", v)`. */
  function PackU16(v: U16): (r: seq<Byte>)
    ensures |r| == 2
  {
    [v % 0x100, v / 0x100]
  }

  /** Python `struct.pack("<I", v)`. */
  function PackU32(v: U32): (r: seq<Byte>)
    ensures |r| == 4
  {
    PackLE(v, 4)
  }

  /** The `n` low bytes of `v`, least significant first. */
  function PackLE(v: nat, n: nat): (r: seq<Byte>)
    ensures |r| == n
  {
    if n == 0 then [] else [v % 0x100] + PackLE(v / 0x100, n - 1)
  }

  /** The four bytes `struct.pack("<I", v)` writes, one by one. */
  lemma PackU32Bytes(v: U32)
    ensures PackU32(v) == [v % 0x100, v / 0x100 % 0x100, v / 0x100 / 0x100 % 0x100, v / 0x100 / 0x100 / 0x100]
  {
    var q1 := v / 0x100;
    var q2 := q1 / 0x100;
    var q3 := q2 / 0x100;
    assert PackLE(q3, 1) == [q3 % 0x100] + PackLE(q3 / 0x100, 0) == [q3];
    assert PackLE(q2, 2) == [q2 % 0x100] + PackLE(q3, 1);
    assert PackLE(q1, 3) == [q1 % 0x100] + PackLE(q2, 2);
    assert PackLE(v, 4) == [v % 0x100] + PackLE(q1, 3);
  }

  lemma LittleEndian2(s: seq<Byte>)
    requires |s| == 2
    ensures LittleEndian(s) == s[0] as int + 0x100 * (s[1] as int)
  {
    assert s[1..][1..] == [];
  }

  lemma LittleEndian4(s: seq<Byte>)
    requires |s| == 4
    ensures LittleEndian(s) == s[0] as int + 0x100 * (s[1] as int + 0x100 * (s[2] as int + 0x100 * (s[3] as int)))
  {
    assert s[3..][1..] == [];
    assert LittleEndian(s[3..]) == s[3];
    assert s[2..][1..] == s[3..];
    assert LittleEndian(s[2..]) == s[2] as int + 0x100 * (s[3] as int);
    assert s[1..][1..] == s[2..];
    assert LittleEndian(s[1..]) == s[1] as int + 0x100 * LittleEndian(s[2..]);
  }

  /** Unpacking what `struct.pack("<H", v)` wrote gives back `v`, and packing
      two unpacked bytes gives back the bytes. */
  lemma {:induction false} PackU16RoundTrip(v: U16, s: seq<Byte>)
    requires |s| == 2
    ensures LittleEndian(PackU16(v)) == v
    ensures LittleEndian(s) < 0x1_0000 && PackU16(LittleEndian(s)) == s
  {
    LittleEndian2(PackU16(v));
    LittleEndian2(s);
  }

  /** Unpacking what `struct.pack("<I", v)` wrote gives back `v`. */
  lemma UnpackPackU32(v: U32)
    ensures LittleEndian(PackU32(v)) == v
  {
    PackU32Bytes(v);
    LittleEndian4(PackU32(v));
    var q0 := v / 0x100;
    var q1 := q0 / 0x100;
    assert v == v % 0x100 + 0x100 * q0;
    assert q0 == q0 % 0x100 + 0x100 * q1;
    assert q1 == q1 % 0x100 + 0x100 * (q1 / 0x100);
  }

  /** Packing four unpacked bytes gives back the bytes. */
  lemma PackUnpackU32(s: seq<Byte>)
    requires |s| == 4
    ensures LittleEndian(s) < 0x1_0000_0000 && PackU32(LittleEndian(s)) == s
  {
    LittleEndian4(s);
    PackU32Bytes(LittleEndian(s));
    var n2 := s[2] as int + 0x100 * (s[3] as int);
    var n1 := s[1] as int + 0x100 * n2;
    DivMod256(s[0], n1);
    DivMod256(s[1], n2);
    DivMod256(s[2], s[3]);
  }

  /** Unpacking what `struct.pack("<I", v)` wrote gives back `v`, and packing
      four unpacked bytes gives back the bytes. */
  lemma PackU32RoundTrip(v: U32, s: seq<Byte>)
    requires |s| == 4
    ensures LittleEndian(PackU32(v)) == v
    ensures LittleEndian(s) < 0x1_0000_0000 && PackU32(LittleEndian(s)) == s
  {
    UnpackPackU32(v);
    PackUnpackU32(s);
  }

  /** Division by 256 splits a number into its low byte and the rest. */
  lemma DivMod256(lo: int, hi: int)
    requires 0 <= lo < 0x100
    ensures (lo + 0x100 * hi) % 0x100 == lo && (lo + 0x100 * hi) / 0x100 == hi
  {
  }

  /** The raw bytes 0xFFFFFFFF, the sentinel of an empty table slot. */
  lemma SentinelBytes()
    ensures PackU32(0xFFFF_FFFF) == Fill(0xFF, 4)
    ensures LittleEndian(Fill(0xFF, 4)) == 0xFFFF_FFFF
  {
    LittleEndian4(Fill(0xFF, 4));
  }

  /** Python `sum(s)`. */
  function Sum(s: seq<Byte>): (r: nat)
  {
    if s == [] then 0 else s[0] + Sum(s[1..])
  }

  lemma {:induction false} SumAppend(a: seq<Byte>, b: seq<Byte>)
    ensures Sum(a + b) == Sum(a) + Sum(b)
  {
    if a != [] {
      assert (a + b)[1..] == a[1..] + b;
      SumAppend(a[1..], b);
      assert Sum(a + b) == (a + b)[0] + Sum((a + b)[1..]);
    } else {
      assert a + b == b;
    }
  }

  /** The first position holding `x`, if any (the scan of `read_null_str`). */
  function IndexOf(s: seq<Byte>, x: Byte): (r: Option<nat>)
    ensures r.Some? ==> r.value < |s| && s[r.value] == x
                        && forall j | 0 <= j < r.value :: s[j] != x
    ensures r.None? ==> forall j | 0 <= j < |s| :: s[j] != x
  {
    if s == [] then None
    else if s[0] == x then Some(0)
    else match IndexOf(s[1..], x)
      case None => None
      case Some(i) => Some(i + 1)
  }

  /** The first position not holding `x`, if any (the scan of `find_next_block`). */
  function IndexOfOther(s: seq<Byte>, x: Byte): (r: Option<nat>)
    ensures r.Some? ==> r.value < |s| && s[r.value] != x
                        && forall j | 0 <= j < r.value :: s[j] == x
    ensures r.None? ==> forall j | 0 <= j < |s| :: s[j] == x
  {
    if s == [] then None
    else if s[0] != x then Some(0)
    else match IndexOfOther(s[1..], x)
      case None => None
      case Some(i) => Some(i + 1)
  }

  predicate IsDigit(b: Byte)
  {
    ASCII_ZERO <= b <= ASCII_ZERO + 9
  }

  predicate AllDigits(s: seq<Byte>)
  {
    forall i | 0 <= i < |s| :: IsDigit(s[i])
  }

  /** The value of a string of ASCII digits, most significant first. */
  function DigitsValue(s: seq<Byte>): (r: nat)
    requires AllDigits(s)
  {
    if s == [] then 0 else DigitsValue(s[..|s| - 1]) * 10 + (s[|s| - 1] - ASCII_ZERO)
  }

  /** Python `int(s)` on ASCII text, restricted to plain digit strings:
      `None` stands for the ValueError raised on anything else. */
  function ParseDecimal(s: seq<Byte>): (r: Option<nat>)
    ensures r.Some? <==> |s| > 0 && AllDigits(s)
  {
    if |s| > 0 && AllDigits(s) then Some(DigitsValue(s)) else None
  }

  /** Python `str(n).encode("ascii")` for a non-negative integer. */
  function DecimalString(n: nat): (r: seq<Byte>)
    ensures |r| > 0 && AllDigits(r)
  {
    if n < 10 then [ASCII_ZERO + n] else DecimalString(n / 10) + [ASCII_ZERO + n % 10]
  }

  /** Parsing the decimal rendering of `n` gives back `n`. */
  lemma {:induction false} DecimalRoundTrip(n: nat)
    ensures ParseDecimal(DecimalString(n)) == Some(n)
  {
    var s := DecimalString(n);
    if n < 10 {
      assert s[..|s| - 1] == [];
      assert DigitsValue(s) == DigitsValue([]) * 10 + n;
    } else {
      DecimalRoundTrip(n / 10);
      assert s[..|s| - 1] == DecimalString(n / 10);
      assert DigitsValue(s) == DigitsValue(DecimalString(n / 10)) * 10 + n % 10;
    }
  }

  /** The rendering has exactly three characters for 100..999 and at most two below 100. */
  lemma {:induction false} DecimalLength(n: nat)
    ensures n < 100 ==> |DecimalString(n)| <= 2
    ensures 100 <= n < 1000 ==> |DecimalString(n)| == 3
    ensures n >= 1000 ==> |DecimalString(n)| >= 4
  {
    if n >= 10 {
      DecimalLength(n / 10);
    }
  }
}
