/** Rebuilding a container from its parts (`cmd_combine`): the bitmaps are
    concatenated in index order after a table whose size is derived from the
    saved table, the table of distances is packed, the rest of the announced
    file size is filled with 0xFF and the decimal version, and the header gets
    the checksum of everything after it. */
module Rebuild {
  import opened Errors
  import opened Bytes
  import opened Checksum
  import opened HeaderCodec
  import opened SortedKeys
  import opened OffsetTable
  import opened TableLayout
  import opened FileCheck

  /** Every key of `ks` names a bitmap. */
  predicate Listed(files: map<nat, seq<Byte>>, ks: seq<nat>)
  {
    forall i | 0 <= i < |ks| :: ks[i] in files
  }

  /** The first `n` bitmaps of `ks`, concatenated (`d_body` after `n` rounds). */
  function BodyOf(files: map<nat, seq<Byte>>, ks: seq<nat>, n: nat): seq<Byte>
    requires n <= |ks| && Listed(files, ks)
  {
    if n == 0 then [] else BodyOf(files, ks, n - 1) + files[ks[n - 1]]
  }

  /** The addresses given to the first `n` bitmaps of `ks` when the first one
      goes to `base`: each starts where the body written so far ends. */
  function AddrsOf(files: map<nat, seq<Byte>>, ks: seq<nat>, n: nat, base: nat): map<nat, nat>
    requires n <= |ks| && Listed(files, ks)
  {
    if n == 0 then map[]
    else AddrsOf(files, ks, n - 1, base)[ks[n - 1] := base + |BodyOf(files, ks, n - 1)|]
  }

  /** The address loop of `cmd_combine`: walk the bitmaps in ascending index
      order, record the running address, append the bitmap to the body. */
  method AssignAddresses(files: map<nat, seq<Byte>>, base: nat) returns (addrs: map<nat, nat>, body: seq<Byte>)
    ensures Listed(files, Sorted(files))
    ensures addrs == AddrsOf(files, Sorted(files), |Sorted(files)|, base)
    ensures body == BodyOf(files, Sorted(files), |Sorted(files)|)
  {
    var ks := Sorted(files);
    SortedFacts(files);
    addrs := map[];
    body := [];
    var cumAddr := base;
    for i := 0 to |ks|
      invariant addrs == AddrsOf(files, ks, i, base)
      invariant body == BodyOf(files, ks, i)
      invariant cumAddr == base + |body|
    {
      var bmp := files[ks[i]];
      addrs := addrs[ks[i] := cumAddr];
      cumAddr := cumAddr + |bmp|;
      body := body + bmp;
    }
  }

  /** The body written after `i` rounds is a prefix of the body after `n`. */
  lemma {:induction false} BodyPrefix(files: map<nat, seq<Byte>>, ks: seq<nat>, i: nat, n: nat)
    requires i <= n <= |ks| && Listed(files, ks)
    ensures |BodyOf(files, ks, i)| <= |BodyOf(files, ks, n)|
    ensures BodyOf(files, ks, n)[..|BodyOf(files, ks, i)|] == BodyOf(files, ks, i)
    decreases n - i
  {
    if i < n {
      BodyPrefix(files, ks, i, n - 1);
      var b := BodyOf(files, ks, n - 1);
      assert (b + files[ks[n - 1]])[..|BodyOf(files, ks, i)|] == b[..|BodyOf(files, ks, i)|];
    }
  }

  /** Bitmap `ks[i]` is copied whole into the body, right after the ones
      before it. */
  lemma {:induction false} BlobInBody(files: map<nat, seq<Byte>>, ks: seq<nat>, i: nat, n: nat)
    requires i < n <= |ks| && Listed(files, ks)
    ensures var lo := |BodyOf(files, ks, i)|;
            && lo + |files[ks[i]]| <= |BodyOf(files, ks, n)|
            && BodyOf(files, ks, n)[lo..lo + |files[ks[i]]|] == files[ks[i]]
  {
    BodyPrefix(files, ks, i + 1, n);
    var whole := BodyOf(files, ks, n);
    var before := BodyOf(files, ks, i);
    var blob := files[ks[i]];
    var upTo := before + blob;
    var lo := |before|;
    assert upTo[lo..] == blob;
    assert whole[..|upTo|] == upTo;
    assert whole[lo..lo + |blob|] == whole[..|upTo|][lo..];
  }

  /** The bitmaps listed so far, and no other key, have an address. */
  lemma {:induction false} AddrsOfKeys(files: map<nat, seq<Byte>>, ks: seq<nat>, n: nat, base: nat)
    requires n <= |ks| && Listed(files, ks)
    ensures forall k :: k in AddrsOf(files, ks, n, base) <==> k in ks[..n]
  {
    if n > 0 {
      AddrsOfKeys(files, ks, n - 1, base);
      assert ks[..n] == ks[..n - 1] + [ks[n - 1]];
    }
  }

  /** For distinct keys, every bitmap gets the address where the body written
      before it ends, offset by `base`. */
  lemma {:induction false} AddrsOfValues(files: map<nat, seq<Byte>>, ks: seq<nat>, n: nat, base: nat, i: nat)
    requires n <= |ks| && Listed(files, ks) && StrictlyAscending(ks)
    requires i < n
    ensures ks[i] in AddrsOf(files, ks, n, base)
    ensures AddrsOf(files, ks, n, base)[ks[i]] == base + |BodyOf(files, ks, i)|
  {
    if i < n - 1 {
      AddrsOfValues(files, ks, n - 1, base, i);
      var m := AddrsOf(files, ks, n - 1, base);
      assert ks[i] != ks[n - 1];
      assert AddrsOf(files, ks, n, base) == m[ks[n - 1] := base + |BodyOf(files, ks, n - 1)|];
    }
  }

  /** Both facts for every listed bitmap. */
  lemma AddrsOfFacts(files: map<nat, seq<Byte>>, ks: seq<nat>, n: nat, base: nat)
    requires n <= |ks| && Listed(files, ks) && StrictlyAscending(ks)
    ensures forall k :: k in AddrsOf(files, ks, n, base) <==> k in ks[..n]
    ensures forall i | 0 <= i < n :: AddrsOf(files, ks, n, base)[ks[i]] == base + |BodyOf(files, ks, i)|
  {
    AddrsOfKeys(files, ks, n, base);
    forall i | 0 <= i < n
      ensures AddrsOf(files, ks, n, base)[ks[i]] == base + |BodyOf(files, ks, i)|
    {
      AddrsOfValues(files, ks, n, base, i);
    }
  }

  /** The stitched data after the header (`d_data`): table, body, then 0xFF
      up to the announced file size and the version in decimal. */
  function Payload(h: Header, tbl: seq<Byte>, body: seq<Byte>, version: nat): (r: seq<Byte>)
    ensures var need := Needed(tbl, body, version);
            HeaderSize + |r| == if need <= FileSize(h) then FileSize(h) else need
  {
    var vs := DecimalString(version);
    tbl + body + Fill(0xFF, FileSize(h) - (HeaderSize + |tbl| + |body|) - |vs|) + vs
  }

  /** The bytes the content needs: header, table, body and version text. */
  function Needed(tbl: seq<Byte>, body: seq<Byte>, version: nat): nat
  {
    HeaderSize + |tbl| + |body| + |DecimalString(version)|
  }

  /** The file `cmd_combine` writes: the header with only its checksum
      replaced (the size field is kept), then the payload. */
  function Assemble(h: Header, tbl: seq<Byte>, body: seq<Byte>, version: nat): (r: seq<Byte>)
    ensures |r| == HeaderSize + |Payload(h, tbl, body, version)|
    ensures r[..HeaderSize] == ToBytes(h.(checksum := CalcChecksum(r, HeaderSize)))
  {
    var payload := Payload(h, tbl, body, version);
    var head := ToBytes(h.(checksum := CalcChecksum(payload, 0)));
    ChecksumSkipsHeader(head, payload);
    assert (head + payload)[..HeaderSize] == head;
    head + payload
  }

  /** `from_bytes` reads only the first 128 bytes. */
  lemma FromBytesPrefix(head: seq<Byte>, tail: seq<Byte>)
    requires |head| == HeaderSize
    ensures FromBytes(head + tail) == FromBytes(head)
  {
    var d := head + tail;
    assert d[0..3] == head[0..3] && d[4..8] == head[4..8] && d[8..14] == head[8..14];
    assert d[14..16] == head[14..16] && d[16..20] == head[16..20] && d[20..32] == head[20..32];
    assert d[32..64] == head[32..64] && d[64..96] == head[64..96] && d[96..128] == head[96..128];
  }

  /** The written header reads back as the given one, except that its
      checksum is that of everything after the header, which is exactly what
      `verify_header` recomputes. */
  lemma AssembleHeader(h: Header, tbl: seq<Byte>, body: seq<Byte>, version: nat)
    ensures var out := Assemble(h, tbl, body, version);
            FromBytes(out) == Ok(h.(checksum := CalcChecksum(out, HeaderSize)))
  {
    var payload := Payload(h, tbl, body, version);
    var head := ToBytes(h.(checksum := CalcChecksum(payload, 0)));
    ToBytesRoundTrip(h.(checksum := CalcChecksum(payload, 0)));
    FromBytesPrefix(head, payload);
    ChecksumSkipsHeader(head, payload);
  }

  /** The file has the announced size when the content fits, and is longer
      (the fill is empty) when it does not. */
  lemma AssembleLength(h: Header, tbl: seq<Byte>, body: seq<Byte>, version: nat)
    ensures var need := Needed(tbl, body, version);
            |Assemble(h, tbl, body, version)| == if need <= FileSize(h) then FileSize(h) else need
  {
  }

  /** Where the parts land: the table right after the header, the body right
      after the table, 0xFF up to the version text, which ends the file. */
  lemma AssembleParts(h: Header, tbl: seq<Byte>, body: seq<Byte>, version: nat)
    ensures var out := Assemble(h, tbl, body, version);
            var vs := DecimalString(version);
            var bodyEnd := HeaderSize + |tbl| + |body|;
            && bodyEnd + |vs| <= |out|
            && out[HeaderSize..HeaderSize + |tbl|] == tbl
            && out[HeaderSize + |tbl|..bodyEnd] == body
            && (forall k | bodyEnd <= k < |out| - |vs| :: out[k] == 0xFF)
            && out[|out| - |vs|..] == vs
  {
    var vs := DecimalString(version);
    var payload := Payload(h, tbl, body, version);
    var head := ToBytes(h.(checksum := CalcChecksum(payload, 0)));
    var fill := Fill(0xFF, FileSize(h) - (HeaderSize + |tbl| + |body|) - |vs|);
    assert Assemble(h, tbl, body, version) == head + (tbl + body + fill + vs);
    FiveParts(head, tbl, body, fill, vs);
  }

  /** Where five concatenated parts land, the fourth being all 0xFF. */
  lemma FiveParts(a: seq<Byte>, b: seq<Byte>, c: seq<Byte>, d: seq<Byte>, e: seq<Byte>)
    requires forall i | 0 <= i < |d| :: d[i] == 0xFF
    ensures var s := a + (b + c + d + e);
            var lo := |a| + |b| + |c|;
            && lo + |e| <= |s|
            && s[|a|..|a| + |b|] == b
            && s[|a| + |b|..lo] == c
            && (forall k | lo <= k < |s| - |e| :: s[k] == 0xFF)
            && s[|s| - |e|..] == e
  {
    var s := a + (b + c + d + e);
    assert s == a + b + c + d + e;
    var lo := |a| + |b| + |c|;
    forall k | lo <= k < |s| - |e|
      ensures s[k] == 0xFF
    {
      assert s[k] == d[k - lo];
    }
  }

  /** The size check of `verify_header` passes on the result exactly when the
      content fits the size announced by the (unchanged) header. */
  lemma AssembleSizeCheck(h: Header, tbl: seq<Byte>, body: seq<Byte>, version: nat)
    ensures var out := Assemble(h, tbl, body, version);
            FromBytes(out).Ok?
            && (FileSize(FromBytes(out).value) == |out| <==> Needed(tbl, body, version) <= FileSize(h))
  {
    AssembleHeader(h, tbl, body, version);
    AssembleLength(h, tbl, body, version);
  }

  /** A three-digit version is found again in the trailer `int(data[-3:])`. */
  lemma TrailerOfThreeDigits(h: Header, tbl: seq<Byte>, body: seq<Byte>, version: nat)
    requires 100 <= version < 1000
    ensures var out := Assemble(h, tbl, body, version);
            |out| >= 3 && Trailer(out) == Some(version)
  {
    AssembleParts(h, tbl, body, version);
    DecimalLength(version);
    DecimalRoundTrip(version);
  }

  /** `str(version)` is not zero-padded: a version below 100 is written with
      fewer than three digits, so when there is fill before it the trailer
      holds an 0xFF byte and is not a number. */
  lemma ShortVersionUnreadable(h: Header, tbl: seq<Byte>, body: seq<Byte>, version: nat)
    requires version < 100
    requires Needed(tbl, body, version) < FileSize(h)
    ensures var out := Assemble(h, tbl, body, version);
            |out| >= 3 && Trailer(out) == None
  {
    var out := Assemble(h, tbl, body, version);
    var vs := DecimalString(version);
    AssembleParts(h, tbl, body, version);
    AssembleLength(h, tbl, body, version);
    DecimalLength(version);
    var t := out[|out| - 3..];
    var k := |out| - |vs| - 1;
    assert out[k] == 0xFF;
    assert t[k - (|out| - 3)] == out[k];
    assert !IsDigit(t[k - (|out| - 3)]);
  }

  /** `table[idx]["size"]` for every bitmap: the saved table must hold each
      index, with a size (saved only for slots that held a bitmap). */
  predicate HasSizes(table: map<nat, bool>, files: map<nat, seq<Byte>>)
  {
    forall k | k in files :: k in table && table[k]
  }

  /** Where the first bitmap goes: after the header and a table sized
      `(len(table) + 1) * 4`. */
  function BodyBase(table: map<nat, bool>): nat
  {
    HeaderSize + (|table| + 1) * 4
  }

  /** The addresses `cmd_combine` gives the bitmaps. */
  function CombineAddrs(table: map<nat, bool>, files: map<nat, seq<Byte>>): (r: map<nat, nat>)
    ensures Listed(files, Sorted(files))
    ensures forall k :: k in r <==> k in files
  {
    var ks := Sorted(files);
    SortedFacts(files);
    AddrsOfFacts(files, ks, |ks|, BodyBase(table));
    assert ks[..|ks|] == ks;
    AddrsOf(files, ks, |ks|, BodyBase(table))
  }

  /** The bitmaps concatenated in index order (`d_body`). */
  function CombineBody(files: map<nat, seq<Byte>>): (r: seq<Byte>)
    ensures Listed(files, Sorted(files))
    ensures r == BodyOf(files, Sorted(files), |Sorted(files)|)
  {
    SortedFacts(files);
    BodyOf(files, Sorted(files), |Sorted(files)|)
  }

  /** `cmd_combine` on a header, the saved table (index to "has a size") and
      the bitmaps by index: a bitmap without a sized table entry fails the
      lookup, a distance that does not fit fails `build_table`, a version
      name without digits fails `header.version`. */
  function Combine(h: Header, table: map<nat, bool>, files: map<nat, seq<Byte>>): (r: Result<seq<Byte>>)
    ensures !HasSizes(table, files) <==> r == Err(MissingTableEntry)
    ensures r.Err? ==> r.error == MissingTableEntry || r.error == OffsetOutOfRange
                       || r.error == NotAscii || r.error == NotANumber
  {
    if !HasSizes(table, files) then Err(MissingTableEntry)
    else
      match BuildTable(CombineAddrs(table, files))
      case Err(e) => Err(e)
      case Ok(tbl) =>
        match Version(h)
        case Err(e) => assert e == NotAscii || e == NotANumber by { VersionErrors(h); } Err(e)
        case Ok(v) => Ok(Assemble(h, tbl, CombineBody(files), v))
  }

  lemma VersionErrors(h: Header)
    ensures Version(h).Err? ==> Version(h).error == NotAscii || Version(h).error == NotANumber
  {
  }

  /** The tail of `cmd_combine`: the version text, the fill, the checksum
      over everything after the header, and the header in front. */
  method StitchFile(h: Header, dTable: seq<Byte>, body: seq<Byte>, version: nat) returns (out: seq<Byte>)
    ensures out == Assemble(h, dTable, body, version)
  {
    var versionText := DecimalString(version);
    var cumSize := HeaderSize + |dTable| + |body|;
    var fill := Fill(0xFF, FileSize(h) - cumSize - |versionText|) + versionText;
    var data := dTable + body + fill;
    assert data == Payload(h, dTable, body, version);
    var header := h.(checksum := CalcChecksum(data, 0));
    out := ToBytes(header) + data;
  }

  /** `cmd_combine` as written: the size lookups, the address loop,
      `build_table`, then the stitching. */
  method CombineFiles(h: Header, table: map<nat, bool>, files: map<nat, seq<Byte>>) returns (r: Result<seq<Byte>>)
    ensures r == Combine(h, table, files)
  {
    if !HasSizes(table, files) {
      return Err(MissingTableEntry);
    }
    var dTable, body := PlaceBitmaps(table, files);
    if dTable.Err? {
      return Err(dTable.error);
    }
    var version := Version(h);
    if version.Err? {
      return Err(version.error);
    }
    var out := StitchFile(h, dTable.value, body, version.value);
    return Ok(out);
  }

  /** The address loop of `cmd_combine` followed by `build_table`. */
  method PlaceBitmaps(table: map<nat, bool>, files: map<nat, seq<Byte>>) returns (dTable: Result<seq<Byte>>, body: seq<Byte>)
    ensures dTable == BuildTable(CombineAddrs(table, files))
    ensures body == CombineBody(files)
  {
    var addrs;
    addrs, body := AssignAddresses(files, BodyBase(table));
    assert addrs == CombineAddrs(table, files);
    dTable := BuildTableLoop(addrs);
  }

  /** Quirk: the first bitmap's address assumes a table of `len(table) + 1`
      slots, but the table written has one slot more than the largest
      bitmap index; the address is where the bitmap really lands only when
      that index equals `len(table)`. */
  lemma FirstAddressMatchesTable(h: Header, table: map<nat, bool>, files: map<nat, seq<Byte>>)
    requires |files| > 0
    requires Fits(CombineAddrs(table, files))
    requires Combine(h, table, files).Ok?
    ensures var first := Sorted(files)[0];
            var tbl := BuildTable(CombineAddrs(table, files)).value;
            CombineAddrs(table, files)[first] == HeaderSize + |tbl| <==> MaxKey(files) == |table|
  {
    var addrs := CombineAddrs(table, files);
    var ks := Sorted(files);
    SortedFacts(files);
    AddrsOfFacts(files, ks, |ks|, BodyBase(table));
    BuildTableLayout(addrs);
    TableSlotsIsMaxKey(addrs);
    assert ks[0] in files;
    assert MaxKey(addrs) == MaxKey(files);
  }

  /** Quirk: distances are not checked before packing; a smallest bitmap
      index beyond `len(table) + 1` puts its slot after the address it should
      point at, and the negative distance makes `struct.pack` fail. */
  lemma IndexBeyondTableFails(h: Header, table: map<nat, bool>, files: map<nat, seq<Byte>>)
    requires HasSizes(table, files) && |files| > 0
    requires forall k | k in files :: k > |table| + 1
    ensures Combine(h, table, files) == Err(OffsetOutOfRange)
  {
    var addrs := CombineAddrs(table, files);
    var ks := Sorted(files);
    SortedFacts(files);
    var k := ks[0];
    assert k in files;
    AddrsOfValues(files, ks, |ks|, BodyBase(table), 0);
    assert addrs[k] < SlotAddr(k);
    BuildTableSucceeds(addrs);
  }
}
