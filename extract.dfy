/** The byte side of `cmd_extract`: check the file, read its header, record
    every decoded table index with its address (or none), and cut out each
    present blob by the length its "BM" header declares. */
module Extract {
  import opened Errors
  import opened Bytes
  import opened HeaderCodec
  import opened OffsetTable
  import opened BitmapChain
  import opened FileCheck

  /** One cut-out blob: the table index it was found under and its bytes. */
  datatype Blob = Blob(index: nat, bytes: seq<Byte>)

  /** What extraction yields: the header record, the table as a map from
      index to address (`info_d["table"]` without the pixel sizes), the
      blobs in table order, and the two counters reported at the end. */
  datatype Extracted = Extracted(
    header: Header,
    table: map<nat, Option<nat>>,
    blobs: seq<Blob>,
    num: nat,
    lastIndex: nat)

  /** The table map after recording `entries` one after the other: a later
      entry for the same index overwrites an earlier one. */
  function TableOf(entries: seq<Entry>): map<nat, Option<nat>>
  {
    if entries == [] then map[]
    else
      var e := entries[|entries| - 1];
      TableOf(entries[..|entries| - 1])[e.index := e.addr]
  }

  /** `bmp_idx` after the loop: the index of the last entry, 0 without any. */
  function LastIndex(entries: seq<Entry>): nat
  {
    if entries == [] then 0 else entries[|entries| - 1].index
  }

  /** The blob the entry's address points at, cut to its declared length
      (`data[addr:addr + length]`, clamped at the end of the data). */
  function CutBlob(data: seq<Byte>, index: nat, addr: nat): (r: Result<Blob>)
    ensures r.Err? <==> !StartsWithMagic(Drop(data, addr))
    ensures r.Err? ==> r.error == NotABitmap
    ensures r.Ok? ==> r.value.index == index
                      && r.value.bytes == Slice(data, addr, addr + BlobLength(data, addr))
  {
    match ReadBmpFilesize(Drop(data, addr))
    case Err(e) => Err(e)
    case Ok(len) => Ok(Blob(index, Slice(data, addr, addr + len)))
  }

  /** Every address in `list` holds "BM". */
  predicate AllBitmaps(data: seq<Byte>, list: seq<nat>)
  {
    forall j | 0 <= j < |list| :: StartsWithMagic(Drop(data, list[j]))
  }

  lemma AllBitmapsCons(data: seq<Byte>, a: nat, tail: seq<nat>)
    ensures AllBitmaps(data, [a] + tail) <==> StartsWithMagic(Drop(data, a)) && AllBitmaps(data, tail)
  {
    var list := [a] + tail;
    assert list[0] == a;
    assert forall j | 0 <= j < |tail| :: tail[j] == list[j + 1];
  }

  /** The indices of the entries that have an address, in table order. */
  function PresentKeys(entries: seq<Entry>): (r: seq<nat>)
    ensures |r| == |Present(entries)|
  {
    if entries == [] then []
    else
      var rest := PresentKeys(entries[1..]);
      if entries[0].addr.Some? then [entries[0].index] + rest else rest
  }

  /** The present addresses of `entries` are the first entry's, if any,
      followed by those of the rest. */
  lemma PresentCons(entries: seq<Entry>)
    requires entries != []
    ensures Present(entries) == match entries[0].addr
                                case None => Present(entries[1..])
                                case Some(a) => [a] + Present(entries[1..])
  {
  }

  /** The blobs of all present entries, in table order; the first address
      that does not hold "BM" stops extraction (see `BlobsOfSucceeds`). */
  function BlobsOf(data: seq<Byte>, entries: seq<Entry>): (r: Result<seq<Blob>>)
    ensures r.Err? ==> r.error == NotABitmap
  {
    if entries == [] then Ok([])
    else
      var rest := BlobsOf(data, entries[1..]);
      match entries[0].addr
      case None => rest
      case Some(a) =>
        match CutBlob(data, entries[0].index, a)
        case Err(e) => Err(e)
        case Ok(b) => Prepend([b], rest)
  }

  /** The blobs are cut exactly when every present address holds "BM", and
      then there is one blob per present address. */
  lemma {:induction false} BlobsOfSucceeds(data: seq<Byte>, entries: seq<Entry>)
    ensures var r := BlobsOf(data, entries);
            && (r.Ok? <==> AllBitmaps(data, Present(entries)))
            && (r.Ok? ==> |r.value| == |Present(entries)|)
  {
    if entries != [] {
      BlobsOfSucceeds(data, entries[1..]);
      PresentCons(entries);
      if entries[0].addr.Some? {
        AllBitmapsCons(data, entries[0].addr.value, Present(entries[1..]));
      }
    }
  }

  /** One blob per present address. */
  lemma {:induction false} BlobsOfLength(data: seq<Byte>, entries: seq<Entry>)
    requires BlobsOf(data, entries).Ok?
    ensures |BlobsOf(data, entries).value| == |Present(entries)|
  {
    if entries != [] {
      PresentCons(entries);
      BlobsOfLength(data, entries[1..]);
    }
  }

  /** What the loop over the decoded table yields for a file whose header
      reads as `h`. */
  function Walked(data: seq<Byte>, h: Header, entries: seq<Entry>): (r: Result<Extracted>)
    ensures r.Err? ==> r.error == NotABitmap
    ensures r.Ok? ==> && r.value.header == h && r.value.table == TableOf(entries)
                      && r.value.num == |r.value.blobs| && r.value.lastIndex == LastIndex(entries)
  {
    match BlobsOf(data, entries)
    case Err(e) => Err(e)
    case Ok(blobs) => Ok(Extracted(h, TableOf(entries), blobs, |blobs|, LastIndex(entries)))
  }

  /** `cmd_extract` without its file system side: the file must pass
      `verify_file` (as `_open_pd3` demands), then the header is read and
      the table walked. */
  function Extraction(data: seq<Byte>): (r: Result<Extracted>)
    ensures VerifyFile(data).Fail? ==> r == Err(VerifyFile(data).error)
    ensures r.Err? && VerifyFile(data) == Pass ==> r.error == NotABitmap
    ensures r.Ok? ==> VerifyFile(data) == Pass && FromBytes(data) == Ok(r.value.header)
  {
    PassingFileParses(data);
    match VerifyFile(data)
    case Fail(e) => Err(e)
    case Pass =>
      match FromBytes(data)
      case Err(e) => Err(e)
      case Ok(h) =>
        match ParseTable(data)
        case Err(e) => Err(e)
        case Ok(entries) => Walked(data, h, entries)
  }

  /** A file that passes `verify_file` has a header and a table that decode. */
  lemma PassingFileParses(data: seq<Byte>)
    ensures VerifyFile(data) == Pass ==> FromBytes(data).Ok? && ParseTable(data).Ok?
  {
  }

  /** An empty slot adds no blob. */
  lemma SkipEmpty(data: seq<Byte>, entries: seq<Entry>, i: nat)
    requires i < |entries| && entries[i].addr.None?
    ensures BlobsOf(data, entries[i..]) == BlobsOf(data, entries[i + 1..])
  {
    assert entries[i..][1..] == entries[i + 1..];
  }

  /** A present address without "BM" stops the walk. */
  lemma CutFails(data: seq<Byte>, entries: seq<Entry>, i: nat)
    requires i < |entries| && entries[i].addr.Some?
    requires !StartsWithMagic(Drop(data, entries[i].addr.value))
    ensures BlobsOf(data, entries[i..]) == Err(NotABitmap)
  {
    assert entries[i..][0] == entries[i];
  }

  /** A present address with "BM" adds the blob cut there. */
  lemma CutStep(data: seq<Byte>, entries: seq<Entry>, i: nat, b: Blob)
    requires i < |entries| && entries[i].addr.Some?
    requires CutBlob(data, entries[i].index, entries[i].addr.value) == Ok(b)
    ensures BlobsOf(data, entries[i..]) == Prepend([b], BlobsOf(data, entries[i + 1..]))
  {
    assert entries[i..][0] == entries[i];
    assert entries[i..][1..] == entries[i + 1..];
  }

  /** Recording entry `i` after the ones before it. */
  lemma RecordStep(entries: seq<Entry>, i: nat)
    requires i < |entries|
    ensures TableOf(entries[..i + 1]) == TableOf(entries[..i])[entries[i].index := entries[i].addr]
    ensures LastIndex(entries[..i + 1]) == entries[i].index
  {
    assert entries[..i + 1][..i] == entries[..i];
  }

  /** `cmd_extract` as written: the checks of `_open_pd3`, the header, and
      the table walk. */
  method CmdExtract(data: seq<Byte>) returns (r: Result<Extracted>)
    ensures r == Extraction(data)
  {
    var verdict := VerifyFile(data);
    if verdict.Fail? {
      return Err(verdict.error);
    }
    var header := FromBytes(data);
    if header.Err? {
      assert false;
    }
    var parsed := ParseBitmapTable(data);
    if parsed.Err? {
      assert false;
    }
    r := WalkTable(data, header.value, parsed.value);
  }

  /** `read_bmp(data[addr:])` for the declared length, then
      `data[addr:addr + length]`. */
  method CutOut(data: seq<Byte>, index: nat, addr: nat) returns (r: Result<Blob>)
    ensures r == CutBlob(data, index, addr)
  {
    var length := ReadBmpFilesize(Drop(data, addr));
    if length.Err? {
      return Err(length.error);
    }
    return Ok(Blob(index, Slice(data, addr, addr + length.value)));
  }

  /** The loop of `cmd_extract`: record each decoded index with its address
      in the table map, count the present ones and cut out their blobs. */
  method WalkTable(data: seq<Byte>, h: Header, entries: seq<Entry>) returns (r: Result<Extracted>)
    ensures r == Walked(data, h, entries)
  {
    var table: map<nat, Option<nat>> := map[];
    var blobs: seq<Blob> := [];
    var num := 0;
    var bmpIdx := 0;
    PrependEmpty(BlobsOf(data, entries));
    assert entries[0..] == entries;
    for i := 0 to |entries|
      invariant table == TableOf(entries[..i])
      invariant bmpIdx == LastIndex(entries[..i])
      invariant num == |blobs|
      invariant Prepend(blobs, BlobsOf(data, entries[i..])) == BlobsOf(data, entries)
    {
      var e := entries[i];
      RecordStep(entries, i);
      table := table[e.index := e.addr];
      bmpIdx := e.index;
      if e.addr.Some? {
        num := num + 1;
        var cut := CutOut(data, e.index, e.addr.value);
        if cut.Err? {
          CutFails(data, entries, i);
          return Err(cut.error);
        }
        CutStep(data, entries, i, cut.value);
        PrependTwice(blobs, [cut.value], BlobsOf(data, entries[i + 1..]));
        blobs := blobs + [cut.value];
      } else {
        SkipEmpty(data, entries, i);
      }
    }
    assert entries[..|entries|] == entries;
    assert entries[|entries|..] == [];
    assert blobs + [] == blobs;
    return Ok(Extracted(h, table, blobs, num, bmpIdx));
  }

  /** With the indices 1, 2, ... that table decoding produces, the table map
      holds exactly those indices, each with its entry's address or none. */
  lemma {:induction false} TableOfRecords(entries: seq<Entry>)
    requires forall i | 0 <= i < |entries| :: entries[i].index == i + 1
    ensures forall k :: k in TableOf(entries) <==> 1 <= k <= |entries|
    ensures forall i | 0 <= i < |entries| :: TableOf(entries)[i + 1] == entries[i].addr
    ensures |TableOf(entries)| == |entries|
  {
    if entries != [] {
      var init := entries[..|entries| - 1];
      TableOfRecords(init);
    }
  }

  /** `b` is the blob at `addr`: "BM" is there and `b` holds the bytes from
      `addr` on, as many as the blob declares (fewer where the data ends). */
  predicate CutAt(data: seq<Byte>, addr: nat, b: Blob)
  {
    StartsWithMagic(Drop(data, addr)) && b.bytes == Slice(data, addr, addr + BlobLength(data, addr))
  }

  /** Blob `j` is the blob at the `j`-th present address, cut to the length
      declared there. */
  lemma BlobsAreSlices(data: seq<Byte>, entries: seq<Entry>)
    requires BlobsOf(data, entries).Ok?
    ensures var blobs := BlobsOf(data, entries).value; var list := Present(entries);
            && |blobs| == |list|
            && (forall j | 0 <= j < |blobs| :: CutAt(data, list[j], blobs[j]))
            && forall j | 0 <= j < |blobs| :: blobs[j].index == PresentKeys(entries)[j]
  {
    BlobsOfLength(data, entries);
    forall j | 0 <= j < |Present(entries)|
      ensures CutAt(data, Present(entries)[j], BlobsOf(data, entries).value[j])
      ensures BlobsOf(data, entries).value[j].index == PresentKeys(entries)[j]
    {
      BlobAt(data, entries, j);
      var b := BlobsOf(data, entries).value[j];
      assert CutBlob(data, b.index, Present(entries)[j]) == Ok(b);
    }
  }

  /** The `j`-th blob is the one cut at the `j`-th present address. */
  lemma {:induction false} BlobAt(data: seq<Byte>, entries: seq<Entry>, j: nat)
    requires BlobsOf(data, entries).Ok? && j < |Present(entries)|
    ensures |BlobsOf(data, entries).value| == |Present(entries)|
    ensures var b := BlobsOf(data, entries).value[j];
            && CutBlob(data, b.index, Present(entries)[j]) == Ok(b)
            && b.index == PresentKeys(entries)[j]
    decreases |entries|
  {
    BlobsOfLength(data, entries);
    assert entries != [];
    PresentCons(entries);
    BlobsOfCons(data, entries);
    var list, blobs := Present(entries), BlobsOf(data, entries).value;
    if entries[0].addr.Some? {
      if j == 0 {
        assert list[0] == entries[0].addr.value;
        assert blobs[0] == CutBlob(data, entries[0].index, entries[0].addr.value).value;
        assert PresentKeys(entries)[0] == entries[0].index;
      } else {
        BlobAt(data, entries[1..], j - 1);
        ConsAt(entries[0].addr.value, Present(entries[1..]), j);
        ConsAt(entries[0].index, PresentKeys(entries[1..]), j);
        ConsAt(CutBlob(data, entries[0].index, entries[0].addr.value).value, BlobsOf(data, entries[1..]).value, j);
      }
    } else {
      BlobAt(data, entries[1..], j);
    }
  }

  /** Element `j` behind a head is element `j - 1` of the tail. */
  lemma ConsAt<T>(x: T, xs: seq<T>, j: nat)
    requires 0 < j <= |xs|
    ensures ([x] + xs)[j] == xs[j - 1]
  {
  }

  /** A successful cut of all blobs is the first entry's blob, if any,
      followed by the blobs of the rest. */
  lemma BlobsOfCons(data: seq<Byte>, entries: seq<Entry>)
    requires entries != [] && BlobsOf(data, entries).Ok?
    ensures BlobsOf(data, entries[1..]).Ok?
    ensures entries[0].addr.None? ==> BlobsOf(data, entries) == BlobsOf(data, entries[1..])
    ensures entries[0].addr.Some? ==>
              var cut := CutBlob(data, entries[0].index, entries[0].addr.value);
              && cut.Ok?
              && BlobsOf(data, entries).value == [cut.value] + BlobsOf(data, entries[1..]).value
  {
  }

  /** What a successful extraction reports: the header read from the first
      128 bytes, every decoded index with its address, one blob per present
      address cut from there in table order, `num` counting them and
      `bmp_idx` the number of decoded slots. */
  lemma ExtractionReports(data: seq<Byte>)
    requires Extraction(data).Ok?
    ensures var x := Extraction(data).value; var entries := ParseTable(data).value;
            && ParseTable(data).Ok?
            && FromBytes(data) == Ok(x.header)
            && (forall k :: k in x.table <==> 1 <= k <= |entries|)
            && (forall i | 0 <= i < |entries| :: x.table[i + 1] == entries[i].addr)
            && x.num == |x.blobs| == |Present(entries)|
            && (forall j | 0 <= j < |x.blobs| :: CutAt(data, Present(entries)[j], x.blobs[j]))
            && (forall j | 0 <= j < |x.blobs| :: x.blobs[j].index == PresentKeys(entries)[j])
            && x.lastIndex == |entries|
  {
    var entries := ParseTable(data).value;
    TableOfRecords(entries);
    BlobsAreSlices(data, entries);
  }

  /** Extraction stops with `NotABitmap` exactly when some present address of
      a file that passes verification does not hold "BM". */
  lemma ExtractionFails(data: seq<Byte>)
    requires VerifyFile(data) == Pass
    ensures Extraction(data).Err? <==> !AllBitmaps(data, Present(ParseTable(data).value))
    ensures Extraction(data).Err? ==> Extraction(data).error == NotABitmap
  {
    VerifyFilePasses(data);
    VerifyHeaderPasses(data, DeviceInt(0x6A));
    BlobsOfSucceeds(data, ParseTable(data).value);
  }
}
