/** Whole-file verification: `verify_header`, `verify_body` and `verify_file`.
    Each check stops at the first failure; an `Outcome` names it. */
module FileCheck {
  import opened Errors
  import opened Bytes
  import opened Checksum
  import opened HeaderCodec
  import opened OffsetTable
  import opened BitmapChain

  /** `MAGIC_BYTES`, the header magic of the device family. */
  const MagicBytes: seq<Byte> := [0x90, 0x80, 0x30]

  /** `COLOR_MAGIC_BYTES`, the type field value the check refuses. */
  const ColorMagicBytes: seq<Byte> := [0x30, 0x00, 0x01, 0x03]

  /** `STR_COLOR_TABLE`, "FP-COLOR" in ASCII. */
  const ColorTableName: seq<Byte> := [0x46, 0x50, 0x2D, 0x43, 0x4F, 0x4C, 0x4F, 0x52]

  /** The device the caller names. `verify_file` passes the integer 0x6A,
      while the header's device field unpacks (struct code `c`) to a one-byte
      byte string, and Python never finds an integer equal to a byte string. */
  datatype DeviceArg = DeviceInt(n: int) | DeviceBytes(b: seq<Byte>)

  /** Python `header.x03_device == device`. */
  predicate DeviceEquals(h: Header, device: DeviceArg)
    ensures device.DeviceInt? ==> !DeviceEquals(h, device)
    ensures DeviceEquals(h, device) <==> device == DeviceBytes([h.device])
  {
    device.DeviceBytes? && device.b == [h.device]
  }

  predicate IsUpper(b: Byte)
  {
    0x41 <= b <= 0x5A
  }

  const ASCII_V: Byte := 0x56
  const ASCII_UNDERSCORE: Byte := 0x5F

  /** What `re.match(r"V\d{4}[A-Z]+_[A-Z]+", s)` accepts: some prefix of `s`
      is "V", four digits, one or more capitals, "_", one or more capitals.
      The match is anchored at the start only, so anything may follow;
      `j` is the position of the underscore. */
  predicate VersionPattern(s: seq<Byte>)
    ensures VersionPattern(s) ==> |s| >= 8 && s[0] == ASCII_V && AllDigits(s[1..5])
  {
    exists j | 5 < j < |s| - 1 ::
      && s[0] == ASCII_V && AllDigits(s[1..5])
      && (forall k | 5 <= k < j :: IsUpper(s[k]))
      && s[j] == ASCII_UNDERSCORE && IsUpper(s[j + 1])
  }

  /** The end of the run of capitals that starts at `i`. */
  function UpperRunEnd(s: seq<Byte>, i: nat): (r: nat)
    requires i <= |s|
    ensures i <= r <= |s|
    ensures forall k | i <= k < r :: IsUpper(s[k])
    ensures r < |s| ==> !IsUpper(s[r])
    decreases |s| - i
  {
    if i < |s| && IsUpper(s[i]) then UpperRunEnd(s, i + 1) else i
  }

  /** A matcher in one pass: the run of capitals is taken greedily, and the
      underscore has to come right after it. */
  function MatchVersion(s: seq<Byte>): (r: bool)
    ensures r ==> && |s| >= 8 && s[0] == ASCII_V && AllDigits(s[1..5])
                  && UpperRunEnd(s, 5) < |s| && s[UpperRunEnd(s, 5)] == ASCII_UNDERSCORE
  {
    && |s| >= 6 && s[0] == ASCII_V && AllDigits(s[1..5])
    && var j := UpperRunEnd(s, 5);
       5 < j < |s| - 1 && s[j] == ASCII_UNDERSCORE && IsUpper(s[j + 1])
  }

  /** Greedy matching loses nothing: the underscore is not a capital, so the
      only split the regex can use is the one after the longest run. */
  lemma MatchVersionIsPattern(s: seq<Byte>)
    ensures MatchVersion(s) <==> VersionPattern(s)
  {
    if VersionPattern(s) {
      var j :| 5 < j < |s| - 1 && s[0] == ASCII_V && AllDigits(s[1..5])
               && (forall k | 5 <= k < j :: IsUpper(s[k]))
               && s[j] == ASCII_UNDERSCORE && IsUpper(s[j + 1]);
      assert UpperRunEnd(s, 5) == j;
    }
  }

  /** `re.match` is a prefix match: whatever follows a matching name, it
      still matches. */
  lemma {:induction false} VersionPatternPrefix(s: seq<Byte>, tail: seq<Byte>)
    requires VersionPattern(s)
    ensures VersionPattern(s + tail)
  {
    var j :| 5 < j < |s| - 1 && s[0] == ASCII_V && AllDigits(s[1..5])
             && (forall k | 5 <= k < j :: IsUpper(s[k]))
             && s[j] == ASCII_UNDERSCORE && IsUpper(s[j + 1]);
    var t := s + tail;
    assert t[1..5] == s[1..5];
    assert forall k | 5 <= k < j :: t[k] == s[k];
    assert t[j] == s[j] && t[j + 1] == s[j + 1];
  }

  /** A matching name always yields a version number: the four characters
      after "V" are digits, so `int(version_name[1:5])` cannot fail. */
  lemma {:induction false} PatternGivesVersion(h: Header)
    requires VersionName(h).Ok? && VersionPattern(VersionName(h).value)
    ensures Version(h) == Ok(DigitsValue(VersionName(h).value[1..5]))
  {
    var name := VersionName(h).value;
    assert Slice(name, 1, 5) == name[1..5];
  }

  /** `int(data[-3:])`: the trailer of a file of at least three bytes. */
  function Trailer(data: seq<Byte>): (r: Option<nat>)
    requires |data| >= 3
    ensures r.Some? <==> AllDigits(data[|data| - 3..])
    ensures r.Some? ==> r.value < 1000
  {
    DigitsBoundThree(data[|data| - 3..]);
    ParseDecimal(data[|data| - 3..])
  }

  /** `verify_header(data, device)`: header present; magic (only for the
      matching device); type not the colour sentinel; checksum of the bytes
      after the header; announced size; table name; version name pattern;
      version equal to the decimal trailer. */
  function VerifyHeader(data: seq<Byte>, device: DeviceArg): (r: Outcome)
    ensures |data| < HeaderSize ==> r == Fail(InsufficientSize)
    ensures r == Pass ==> |data| >= HeaderSize
  {
    match FromBytes(data)
    case Err(e) => Fail(e)
    case Ok(h) =>
      if h.magic != MagicBytes && DeviceEquals(h, device) then Fail(MagicMismatch)
      else if h.pdType == ColorMagicBytes then Fail(TypeMismatch)
      else if h.checksum != CalcChecksum(data, HeaderSize) then Fail(ChecksumMismatch)
      else if FileSize(h) != |data| then Fail(SizeMismatch)
      else match TableName(h)
      case Err(e) => Fail(e)
      case Ok(table) =>
        if table != ColorTableName then Fail(TableTypeMismatch)
        else match VersionName(h)
        case Err(e) => Fail(e)
        case Ok(name) =>
          if !VersionPattern(name) then Fail(VersionPatternMismatch)
          else match Version(h)
          case Err(e) => Fail(e)
          case Ok(v) =>
            match Trailer(data)
            case None => Fail(NotANumber)
            case Some(t) => if v != t then Fail(VersionTrailerMismatch) else Pass
  }

  /** What a header that passes satisfies, field by field. */
  ghost predicate HeaderAccepted(data: seq<Byte>, device: DeviceArg)
  {
    && |data| >= HeaderSize
    && var h := FromBytes(data).value;
       && !(h.magic != MagicBytes && DeviceEquals(h, device))
       && h.pdType != ColorMagicBytes
       && h.checksum == CalcChecksum(data, HeaderSize)
       && FileSize(h) == |data|
       && TableName(h) == Ok(ColorTableName)
       && VersionName(h).Ok? && VersionPattern(VersionName(h).value)
       && Trailer(data) == Some(DigitsValue(VersionName(h).value[1..5]))
  }

  /** The header check passes exactly when every field is as required. */
  lemma {:induction false} VerifyHeaderPasses(data: seq<Byte>, device: DeviceArg)
    ensures VerifyHeader(data, device) == Pass <==> HeaderAccepted(data, device)
  {
    if |data| >= HeaderSize {
      var h := FromBytes(data).value;
      if VersionName(h).Ok? && VersionPattern(VersionName(h).value) {
        PatternGivesVersion(h);
      }
    }
  }

  /** Which error a failing header gets: the checks run in the order of
      `verify_header`, and the first one that fails names the error. */
  lemma {:induction false} VerifyHeaderOrder(data: seq<Byte>, device: DeviceArg)
    requires |data| >= HeaderSize
    ensures var h := FromBytes(data).value;
            var r := VerifyHeader(data, device);
            var magicOk := !(h.magic != MagicBytes && DeviceEquals(h, device));
            var typeOk := magicOk && h.pdType != ColorMagicBytes;
            var sumOk := typeOk && h.checksum == CalcChecksum(data, HeaderSize);
            var sizeOk := sumOk && FileSize(h) == |data|;
            var tableOk := sizeOk && TableName(h) == Ok(ColorTableName);
            var nameOk := tableOk && VersionName(h).Ok? && VersionPattern(VersionName(h).value);
            && (!magicOk ==> r == Fail(MagicMismatch))
            && (magicOk && !typeOk ==> r == Fail(TypeMismatch))
            && (typeOk && !sumOk ==> r == Fail(ChecksumMismatch))
            && (sumOk && !sizeOk ==> r == Fail(SizeMismatch))
            && (sizeOk && TableName(h).Err? ==> r == Fail(NotAscii))
            && (sizeOk && TableName(h).Ok? && !tableOk ==> r == Fail(TableTypeMismatch))
            && (tableOk && VersionName(h).Err? ==> r == Fail(NotAscii))
            && (tableOk && VersionName(h).Ok? && !nameOk ==> r == Fail(VersionPatternMismatch))
            && (nameOk && Trailer(data).None? ==> r == Fail(NotANumber))
            && (nameOk && Trailer(data).Some? && Trailer(data).value != DigitsValue(VersionName(h).value[1..5])
                ==> r == Fail(VersionTrailerMismatch))
  {
    var h := FromBytes(data).value;
    if VersionName(h).Ok? && VersionPattern(VersionName(h).value) {
      PatternGivesVersion(h);
    }
  }

  /** The magic check can never fire when the device is given as an integer,
      as `verify_file` does: a header with any magic bytes gets past it. */
  lemma DeviceIntSkipsMagic(data: seq<Byte>, n: int)
    ensures VerifyHeader(data, DeviceInt(n)) != Fail(MagicMismatch)
  {
  }

  /** The type check refuses the colour sentinel itself: every header whose
      type field is 30 00 01 03 fails, unless a magic mismatch came first. */
  lemma ColorTypeRejected(data: seq<Byte>, device: DeviceArg)
    requires |data| >= HeaderSize && data[4..8] == ColorMagicBytes
    ensures VerifyHeader(data, device) == Fail(TypeMismatch)
            || VerifyHeader(data, device) == Fail(MagicMismatch)
  {
  }

  /** The trailer holds three characters, so a version of 1000 or more (four
      digits are allowed by the pattern) can never pass. */
  lemma {:induction false} WideVersionRejected(data: seq<Byte>, device: DeviceArg)
    requires |data| >= HeaderSize
    requires Version(FromBytes(data).value).Ok? && Version(FromBytes(data).value).value >= 1000
    ensures VerifyHeader(data, device) != Pass
  {
    var t := data[|data| - 3..];
    if ParseDecimal(t).Some? {
      DigitsBound(t);
    }
  }

  lemma DigitsBoundThree(s: seq<Byte>)
    requires |s| == 3
    ensures AllDigits(s) ==> DigitsValue(s) < 1000
  {
    if AllDigits(s) {
      DigitsBound(s);
    }
  }

  lemma {:induction false} DigitsBound(s: seq<Byte>)
    requires AllDigits(s)
    ensures DigitsValue(s) < Pow10(|s|)
  {
    if s != [] {
      DigitsBound(s[..|s| - 1]);
    }
  }

  function Pow10(n: nat): nat
  {
    if n == 0 then 1 else 10 * Pow10(n - 1)
  }

  /** `[addr for (idx, addr) in table if addr is not None]`. */
  function Present(entries: seq<Entry>): (r: seq<nat>)
    ensures |r| <= |entries|
  {
    if entries == [] then []
    else
      var rest := Present(entries[1..]);
      match entries[0].addr
      case None => rest
      case Some(a) => [a] + rest
  }

  /** The listed addresses are exactly those of the entries that have one. */
  lemma {:induction false} PresentMembers(entries: seq<Entry>)
    ensures forall a :: a in Present(entries) <==> exists i | 0 <= i < |entries| :: entries[i].addr == Some(a)
  {
    if entries != [] {
      PresentMembers(entries[1..]);
      assert forall i | 1 <= i < |entries| :: entries[i] == entries[1..][i - 1];
      forall a | exists i | 0 <= i < |entries| :: entries[i].addr == Some(a)
        ensures a in Present(entries)
      {
        var i :| 0 <= i < |entries| && entries[i].addr == Some(a);
        if i > 0 {
          assert entries[1..][i - 1].addr == Some(a);
        }
      }
    }
  }

  /** `data[:-3]`: the data without its three-byte trailer (empty when shorter). */
  function WithoutTrailer(data: seq<Byte>): (r: seq<Byte>)
    ensures |r| == if |data| >= 3 then |data| - 3 else 0
  {
    if |data| >= 3 then data[..|data| - 3] else []
  }

  /** `verify_body(data)`: the table parses, names at least one blob, and the
      chain from the first named blob holds over the data without its trailer. */
  function VerifyBody(data: seq<Byte>): (r: Outcome)
    ensures ParseTable(data).Err? ==> r == Fail(ParseTable(data).error)
    ensures r == Pass ==> ParseTable(data).Ok? && |Present(ParseTable(data).value)| > 0
    ensures r.Fail? ==> || r.error == TableMissing || r.error == TruncatedSlot
                        || r.error == TableWidthMismatch || r.error == IndexOutOfRange
                        || r.error == LocationMismatch || r.error == ChainBroken
  {
    ParseTableErrors(data);
    match ParseTable(data)
    case Err(e) => Fail(e)
    case Ok(entries) =>
      var list := Present(entries);
      if |list| == 0 then Fail(IndexOutOfRange)
      else match ChainFrom(WithoutTrailer(data), list, list[0], 0)
      case Err(e) => Fail(e)
      case Ok(ok) => if ok then Pass else Fail(ChainBroken)
  }

  /** How `verify_body` answers once the table parses: an index error when it
      names no blob; otherwise the chain from the first named blob over the
      data without its trailer decides, "Couldn't verify body" being raised
      exactly when the chain walk returns False. */
  lemma VerifyBodyChain(data: seq<Byte>)
    requires ParseTable(data).Ok?
    ensures var list := Present(ParseTable(data).value);
            |list| == 0 ==> VerifyBody(data) == Fail(IndexOutOfRange)
    ensures var list := Present(ParseTable(data).value);
            |list| > 0 ==>
              var chain := ChainFrom(WithoutTrailer(data), list, list[0], 0);
              && (VerifyBody(data) == Pass <==> chain == Ok(true))
              && (VerifyBody(data) == Fail(ChainBroken) <==> chain == Ok(false))
              && (chain.Err? ==> VerifyBody(data) == Fail(chain.error))
  {
  }

  /** `verify_file(data)`: the header check with the device given as the
      integer 0x6A, then the body check. */
  function VerifyFile(data: seq<Byte>): (r: Outcome)
    ensures r == Pass <==> VerifyHeader(data, DeviceInt(0x6A)) == Pass && VerifyBody(data) == Pass
    ensures VerifyHeader(data, DeviceInt(0x6A)).Fail? ==> r == VerifyHeader(data, DeviceInt(0x6A))
    ensures VerifyHeader(data, DeviceInt(0x6A)) == Pass ==> r == VerifyBody(data)
    ensures r != Fail(MagicMismatch)
  {
    DeviceIntSkipsMagic(data, 0x6A);
    match VerifyHeader(data, DeviceInt(0x6A))
    case Fail(e) => Fail(e)
    case Pass => VerifyBody(data)
  }

  /** A file passes exactly when its header fields are as required and its
      body checks out. */
  lemma VerifyFilePasses(data: seq<Byte>)
    ensures VerifyFile(data) == Pass <==> HeaderAccepted(data, DeviceInt(0x6A)) && VerifyBody(data) == Pass
  {
    VerifyHeaderPasses(data, DeviceInt(0x6A));
  }

  /** A colour-table file (type 30 00 01 03) never passes `verify_file`. */
  lemma ColorFileRejected(data: seq<Byte>)
    requires |data| >= HeaderSize && data[4..8] == ColorMagicBytes
    ensures VerifyFile(data) == Fail(TypeMismatch)
  {
    ColorTypeRejected(data, DeviceInt(0x6A));
  }
}
