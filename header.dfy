/** The fixed 128-byte header record `BD3Header` (struct format
    `<3sc4s6sHI12s32s32s32s`) and its derived views. */
module HeaderCodec {
  import opened Errors
  import opened Bytes

  const HeaderSize: nat := 0x80

  type Bytes3 = s: seq<Byte> | |s| == 3 witness [0, 0, 0]
  type Bytes4 = s: seq<Byte> | |s| == 4 witness [0, 0, 0, 0]
  type Bytes6 = s: seq<Byte> | |s| == 6 witness [0, 0, 0, 0, 0, 0]
  type Bytes12 = s: seq<Byte> | |s| == 12 witness seq(12, i => 0)
  type Bytes32 = s: seq<Byte> | |s| == 32 witness seq(32, i => 0)

  /** One field per struct member, reserved regions included, in file order:
      magic 0x00, device 0x03, type 0x04, reserved 0x08, checksum 0x0E,
      size 0x10, reserved 0x14, table name 0x20, version name 0x40, reserved 0x60. */
  datatype Header = Header(
    magic: Bytes3,
    device: Byte,
    pdType: Bytes4,
    reserved0: Bytes6,
    checksum: U16,
    bodySize: U32,
    reserved1: Bytes12,
    tableName: Bytes32,
    versionName: Bytes32,
    reserved2: Bytes32)

  /** `BD3Header.from_bytes`: unpack the first 128 bytes; shorter input is refused. */
  function FromBytes(data: seq<Byte>): (r: Result<Header>)
    ensures r.Err? <==> |data| < HeaderSize
    ensures r.Err? ==> r.error == InsufficientSize
  {
    if |data| < HeaderSize then Err(InsufficientSize)
    else
      PackU16RoundTrip(0, data[14..16]);
      PackU32RoundTrip(0, data[16..20]);
      Ok(Header(data[0..3], data[3], data[4..8], data[8..14],
                LittleEndian(data[14..16]), LittleEndian(data[16..20]),
                data[20..32], data[32..64], data[64..96], data[96..128]))
  }

  /** `BD3Header.to_bytes`: pack every field back, in file order, into
      exactly 128 bytes (see `ToBytesRoundTrip`). */
  function ToBytes(h: Header): (r: seq<Byte>)
    ensures |r| == HeaderSize
  {
    h.magic + [h.device] + h.pdType + h.reserved0 + PackU16(h.checksum)
    + PackU32(h.bodySize) + h.reserved1 + h.tableName + h.versionName + h.reserved2
  }

  /** Unpacking a packed header gives back the same record. */
  lemma ToBytesRoundTrip(h: Header)
    ensures FromBytes(ToBytes(h)) == Ok(h)
  {
    var r := ToBytes(h);
    PackU16RoundTrip(h.checksum, r[14..16]);
    PackU32RoundTrip(h.bodySize, r[16..20]);
    assert r[0..3] == h.magic && r[3] == h.device && r[4..8] == h.pdType;
    assert r[8..14] == h.reserved0 && r[20..32] == h.reserved1;
    assert r[32..64] == h.tableName && r[64..96] == h.versionName && r[96..128] == h.reserved2;
    assert r[14..16] == PackU16(h.checksum);
    assert r[16..20] == PackU32(h.bodySize);
  }

  /** Re-serialising a decoded header reproduces the first 128 input bytes,
      reserved regions included. */
  lemma HeaderRoundTrip(data: seq<Byte>)
    requires |data| >= HeaderSize
    ensures FromBytes(data).Ok? && ToBytes(FromBytes(data).value) == data[..HeaderSize]
  {
    var h := FromBytes(data).value;
    PackU16RoundTrip(0, data[14..16]);
    PackU32RoundTrip(0, data[16..20]);
    assert ToBytes(h) == data[0..3] + [data[3]] + data[4..8] + data[8..14] + data[14..16]
                         + data[16..20] + data[20..32] + data[32..64] + data[64..96] + data[96..128];
  }

  /** `read_null_str`: the bytes before the first 0x00, or nothing at all when
      the field holds no 0x00. */
  function NullStr(field: seq<Byte>): (r: seq<Byte>)
    ensures (forall i | 0 <= i < |field| :: field[i] != 0) ==> r == []
    ensures (exists i | 0 <= i < |field| :: field[i] == 0) ==>
              |r| < |field| && r == field[..|r|] && field[|r|] == 0
              && forall j | 0 <= j < |r| :: r[j] != 0
  {
    match IndexOf(field, 0)
    case Some(i) => field[..i]
    case None => []
  }

  /** `read_null_str` as written: an index loop that returns at the first 0x00. */
  method ReadNullStr(field: seq<Byte>) returns (r: seq<Byte>)
    ensures r == NullStr(field)
  {
    for idx := 0 to |field|
      invariant forall j | 0 <= j < idx :: field[j] != 0
    {
      if field[idx] == 0 {
        return field[..idx];
      }
    }
    return [];
  }

  /** `bytes.decode("ascii")`: text is kept as its bytes; a byte of 0x80 or
      above makes decoding fail. */
  function DecodeAscii(s: seq<Byte>): (r: Result<seq<Byte>>)
    ensures r.Ok? <==> forall i | 0 <= i < |s| :: s[i] < 0x80
    ensures r.Ok? ==> r.value == s
    ensures r.Err? ==> r.error == NotAscii
  {
    if forall i | 0 <= i < |s| :: s[i] < 0x80 then Ok(s) else Err(NotAscii)
  }

  /** The `table_name` property. */
  function TableName(h: Header): (r: Result<seq<Byte>>)
    ensures r.Ok? ==> r.value == NullStr(h.tableName)
    ensures r.Err? <==> exists i | 0 <= i < |NullStr(h.tableName)| :: NullStr(h.tableName)[i] >= 0x80
    ensures r.Err? ==> r.error == NotAscii
  {
    DecodeAscii(NullStr(h.tableName))
  }

  /** The `version_name` property. */
  function VersionName(h: Header): (r: Result<seq<Byte>>)
    ensures r.Ok? ==> r.value == NullStr(h.versionName)
    ensures r.Err? <==> exists i | 0 <= i < |NullStr(h.versionName)| :: NullStr(h.versionName)[i] >= 0x80
    ensures r.Err? ==> r.error == NotAscii
  {
    DecodeAscii(NullStr(h.versionName))
  }

  /** The `version` property: `int(version_name[1:5])`. Its value is given
      by `VersionOfName` (and, for names matching the version pattern, by
      `FileCheck.PatternGivesVersion`). */
  function Version(h: Header): (r: Result<nat>)
    ensures r.Ok? ==> VersionName(h).Ok? && 1 < |VersionName(h).value|
  {
    match VersionName(h)
    case Err(e) => Err(e)
    case Ok(name) =>
      match ParseDecimal(Slice(name, 1, 5))
      case None => Err(NotANumber)
      case Some(v) => Ok(v)
  }

  /** The `x10_filesize` property: the whole file length the header announces. */
  function FileSize(h: Header): (r: nat)
    ensures r >= HeaderSize
  {
    h.bodySize + HeaderSize
  }

  /** A version name that decodes and has digits at 1..4 has as version the
      value of those four digits; the name may be just five characters long,
      and whatever follows its 0x00 does not matter. */
  lemma VersionOfName(h: Header)
    requires VersionName(h).Ok? && |VersionName(h).value| >= 5
    requires AllDigits(VersionName(h).value[1..5])
    ensures Version(h) == Ok(DigitsValue(VersionName(h).value[1..5]))
  {
    assert Slice(VersionName(h).value, 1, 5) == VersionName(h).value[1..5];
  }

  /** The views read the bytes at the documented offsets: the checksum at
      0x0E, the size at 0x10 (plus 0x80), and the version digits at
      0x41..0x44 when the version name decodes and its 0x00 comes after them. */
  lemma {:induction false} HeaderFieldOffsets(data: seq<Byte>)
    requires |data| >= HeaderSize
    ensures FromBytes(data).Ok?
    ensures FromBytes(data).value.checksum == data[0x0E] as int + 0x100 * (data[0x0F] as int)
    ensures FileSize(FromBytes(data).value) == LittleEndian(data[0x10..0x14]) + 0x80
    ensures VersionName(FromBytes(data).value).Ok?
            && (forall i | 0x40 <= i < 0x45 :: data[i] != 0)
            && (exists i | 0x45 <= i < 0x60 :: data[i] == 0)
            && AllDigits(data[0x41..0x45])
            ==> Version(FromBytes(data).value) == Ok(DigitsValue(data[0x41..0x45]))
  {
    var h := FromBytes(data).value;
    LittleEndian2(data[14..16]);
    if && VersionName(h).Ok?
       && (forall i | 0x40 <= i < 0x45 :: data[i] != 0)
       && (exists i | 0x45 <= i < 0x60 :: data[i] == 0)
       && AllDigits(data[0x41..0x45])
    {
      var vn := h.versionName;
      assert vn == data[0x40..0x60];
      var z :| 0x45 <= z < 0x60 && data[z] == 0;
      assert vn[z - 0x40] == 0;
      var name := NullStr(vn);
      assert |name| >= 5;
      assert name == vn[..|name|];
      assert name[1..5] == vn[1..5] == data[0x41..0x45];
      VersionOfName(h);
    }
  }
}
