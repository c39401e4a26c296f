/** The rebuild of `cmd_combine` and the checks of `verify_file` fit
    together: under the conditions the rebuild silently relies on, the file it
    writes is accepted. */
module RoundTrip {
  import opened Errors
  import opened Bytes
  import opened Checksum
  import opened HeaderCodec
  import opened SortedKeys
  import opened OffsetTable
  import opened TableLayout
  import opened BitmapChain
  import opened FileCheck
  import opened Rebuild
  import Extract

  /** A bitmap as `_read_bmp_filesize` expects it: "BM", then its own length
      as the little-endian number in bytes 2..6. */
  predicate SelfSized(b: seq<Byte>)
  {
    |b| >= 6 && b[0] == ASCII_B && b[1] == ASCII_M && LittleEndian(b[2..6]) == |b|
  }

  /** The addresses of the keys `ks`, in the order of `ks`. */
  function AddrList(addrs: map<nat, nat>, ks: seq<nat>): seq<nat>
    requires forall k | k in ks :: k in addrs
  {
    if ks == [] then [] else [addrs[ks[0]]] + AddrList(addrs, ks[1..])
  }

  /** The addresses of `ks` stand in the same places as the keys. */
  lemma {:induction false} AddrListAt(addrs: map<nat, nat>, ks: seq<nat>, i: nat)
    requires forall k | k in ks :: k in addrs
    requires i < |ks|
    ensures |AddrList(addrs, ks)| == |ks|
    ensures AddrList(addrs, ks)[i] == addrs[ks[i]]
    decreases |ks|
  {
    if i == 0 {
      AddrListLength(addrs, ks);
    } else {
      AddrListAt(addrs, ks[1..], i - 1);
      Extract.ConsAt(addrs[ks[0]], AddrList(addrs, ks[1..]), i);
    }
  }

  /** One address per key. */
  lemma {:induction false} AddrListLength(addrs: map<nat, nat>, ks: seq<nat>)
    requires forall k | k in ks :: k in addrs
    ensures |AddrList(addrs, ks)| == |ks|
    decreases |ks|
  {
    if ks != [] {
      AddrListLength(addrs, ks[1..]);
    }
  }

  /** Decoded entries numbered 1, 2, ..., each holding the address of its
      index or none: from entry `m` on, the present addresses are those of the
      keys above `m`, in ascending key order. */
  lemma {:induction false} PresentFrom(entries: seq<Entry>, addrs: map<nat, nat>, ks: seq<nat>, m: nat, c: nat)
    requires forall i | 0 <= i < |entries| :: entries[i] == Entry(i + 1, Lookup(addrs, i + 1))
    requires StrictlyAscending(ks) && forall k :: k in addrs <==> k in ks
    requires forall k | k in addrs :: 1 <= k <= |entries|
    requires m <= |entries| && c <= |ks|
    requires forall j | 0 <= j < c :: ks[j] <= m
    requires c < |ks| ==> m < ks[c]
    ensures Present(entries[m..]) == AddrList(addrs, ks[c..])
    decreases |entries| - m
  {
    if m == |entries| {
      forall j | 0 <= j < |ks|
        ensures ks[j] <= m
      {
        assert ks[j] in ks;
      }
      assert ks[c..] == [];
    } else {
      assert entries[m..][0] == entries[m];
      assert entries[m..][1..] == entries[m + 1..];
      if m + 1 in addrs {
        var j :| 0 <= j < |ks| && ks[j] == m + 1;
        assert c <= j;
        assert ks[c] <= ks[j] by {
          if c < j {
          }
        }
        PresentFrom(entries, addrs, ks, m + 1, c + 1);
        assert ks[c..][0] == ks[c];
        assert ks[c..][1..] == ks[c + 1..];
      } else {
        if c < |ks| {
          assert ks[c] in ks;
        }
        PresentFrom(entries, addrs, ks, m + 1, c);
      }
    }
  }

  /** Entries numbered `m + 1`, `m + 2`, ...: the `j`th index kept lies
      past `m` and names an entry that has an address. */
  lemma {:induction false} PresentKeyAt(entries: seq<Entry>, m: nat, j: nat)
    requires forall i | 0 <= i < |entries| :: entries[i].index == m + i + 1
    requires j < |Extract.PresentKeys(entries)|
    ensures var k := Extract.PresentKeys(entries)[j];
            m < k <= m + |entries| && entries[k - m - 1].addr.Some?
    decreases |entries|
  {
    var rest := entries[1..];
    var tail := Extract.PresentKeys(rest);
    if entries[0].addr.Some? && j == 0 {
    } else {
      var j' := if entries[0].addr.Some? then j - 1 else j;
      assert Extract.PresentKeys(entries)[j] == tail[j'];
      PresentKeyAt(rest, m + 1, j');
      assert entries[tail[j'] - m - 1] == rest[tail[j'] - (m + 1) - 1];
    }
  }

  /** The same entries: the indices kept ascend. */
  lemma {:induction false} PresentKeysOrder(entries: seq<Entry>, m: nat, i: nat, j: nat)
    requires forall i | 0 <= i < |entries| :: entries[i].index == m + i + 1
    requires i < j < |Extract.PresentKeys(entries)|
    ensures Extract.PresentKeys(entries)[i] < Extract.PresentKeys(entries)[j]
    decreases |entries|
  {
    var rest := entries[1..];
    var tail := Extract.PresentKeys(rest);
    if entries[0].addr.Some? {
      assert Extract.PresentKeys(entries)[j] == tail[j - 1];
      if i == 0 {
        PresentKeyAt(rest, m + 1, j - 1);
      } else {
        assert Extract.PresentKeys(entries)[i] == tail[i - 1];
        PresentKeysOrder(rest, m + 1, i - 1, j - 1);
      }
    } else {
      PresentKeysOrder(rest, m + 1, i, j);
    }
  }

  /** The same entries: every index whose entry has an address is kept. */
  lemma {:induction false} PresentKeysComplete(entries: seq<Entry>, m: nat, i: nat)
    requires forall i | 0 <= i < |entries| :: entries[i].index == m + i + 1
    requires i < |entries| && entries[i].addr.Some?
    ensures m + i + 1 in Extract.PresentKeys(entries)
    decreases i
  {
    if i > 0 {
      PresentKeysComplete(entries[1..], m + 1, i - 1);
    }
  }

  /** A self-sized bitmap copied to `a` is where the chain walk finds a blob
      of exactly its length. */
  lemma BlobAtAddr(d: seq<Byte>, a: nat, b: seq<Byte>)
    requires SelfSized(b)
    requires a + |b| <= |d| && d[a..a + |b|] == b
    ensures StartsWithMagic(Drop(d, a))
    ensures BlobLength(d, a) == |b|
  {
    var rest := Drop(d, a);
    assert rest[..|b|] == b;
    assert rest[2..6] == rest[..|b|][2..6];
  }

  /** A piece of a sequence copied to `base` sits at `base` plus its offset. */
  lemma Window(d: seq<Byte>, base: nat, s: seq<Byte>, lo: nat, b: seq<Byte>)
    requires base + |s| <= |d| && d[base..base + |s|] == s
    requires lo + |b| <= |s| && s[lo..lo + |b|] == b
    ensures d[base + lo..base + lo + |b|] == b
  {
    var x := d[base + lo..base + lo + |b|];
    forall k | 0 <= k < |b|
      ensures x[k] == b[k]
    {
      assert d[base..base + |s|][lo + k] == s[lo + k];
      assert s[lo..lo + |b|][k] == s[lo + k];
    }
  }

  /** Blobs copied to `list`, each where the one before ends, follow each
      other as the chain walk expects. */
  lemma ListConsecutive(d: seq<Byte>, blobs: seq<seq<Byte>>, list: seq<nat>)
    requires |list| == |blobs| > 0
    requires forall j | 0 <= j < |blobs| :: SelfSized(blobs[j])
    requires forall j {:trigger blobs[j]} | 0 <= j < |blobs| :: list[j] + |blobs[j]| <= |d| && d[list[j]..list[j] + |blobs[j]|] == blobs[j]
    requires forall j {:trigger blobs[j]} | 0 <= j < |blobs| - 1 :: list[j + 1] == list[j] + |blobs[j]|
    ensures Consecutive(d, list, 0)
  {
    forall j | 0 <= j < |list|
      ensures StartsWithMagic(Drop(d, list[j]))
    {
      BlobAtAddr(d, list[j], blobs[j]);
    }
    forall j | 0 <= j < |list| - 1
      ensures list[j + 1] == list[j] + BlobLength(d, list[j])
    {
      BlobAtAddr(d, list[j], blobs[j]);
    }
  }

  /** Such blobs, followed by 0xFF up to the end, form a chain the walk
      accepts. */
  lemma BlobsChain(d: seq<Byte>, blobs: seq<seq<Byte>>, list: seq<nat>)
    requires |list| == |blobs| > 0
    requires forall j | 0 <= j < |blobs| :: SelfSized(blobs[j])
    requires forall j {:trigger blobs[j]} | 0 <= j < |blobs| :: list[j] + |blobs[j]| <= |d| && d[list[j]..list[j] + |blobs[j]|] == blobs[j]
    requires forall j {:trigger blobs[j]} | 0 <= j < |blobs| - 1 :: list[j + 1] == list[j] + |blobs[j]|
    requires var n := |list|;
             forall k | list[n - 1] + |blobs[n - 1]| <= k < |d| :: d[k] == Padding
    ensures ChainFrom(d, list, list[0], 0) == Ok(true)
  {
    var n := |list|;
    ListConsecutive(d, blobs, list);
    BlobAtAddr(d, list[n - 1], blobs[n - 1]);
    ChainAcceptsConsecutive(d, list, 0);
  }

  /** The bitmaps in the order of `ks`. */
  function Blobs(files: map<nat, seq<Byte>>, ks: seq<nat>): (r: seq<seq<Byte>>)
    requires Listed(files, ks)
    ensures |r| == |ks| && forall j | 0 <= j < |ks| :: r[j] == files[ks[j]]
  {
    seq(|ks|, j requires 0 <= j < |ks| => files[ks[j]])
  }

  /** Bitmap `ks[j]` of a body copied to `base` sits where the bitmaps before
      it end. */
  lemma PlacedBlob(d: seq<Byte>, files: map<nat, seq<Byte>>, ks: seq<nat>, base: nat, j: nat)
    requires Listed(files, ks) && j < |ks|
    requires base + |BodyOf(files, ks, |ks|)| <= |d|
    requires d[base..base + |BodyOf(files, ks, |ks|)|] == BodyOf(files, ks, |ks|)
    ensures var a := base + |BodyOf(files, ks, j)|;
            a + |files[ks[j]]| <= |d| && d[a..a + |files[ks[j]]|] == files[ks[j]]
  {
    var body := BodyOf(files, ks, |ks|);
    var b := files[ks[j]];
    var lo := |BodyOf(files, ks, j)|;
    BlobInBody(files, ks, j, |ks|);
    Window(d, base, body, lo, b);
    var a := base + lo;
    assert a + |b| <= |d| && d[a..a + |b|] == b;
  }

  /** Each bitmap lengthens the body by its own length. */
  lemma BodyStep(files: map<nat, seq<Byte>>, ks: seq<nat>, j: nat)
    requires Listed(files, ks) && j < |ks|
    ensures |BodyOf(files, ks, j + 1)| == |BodyOf(files, ks, j)| + |files[ks[j]]|
  {
  }

  /** Every bitmap of the body copied to `base` sits at its listed address. */
  lemma PlacedBlobs(d: seq<Byte>, files: map<nat, seq<Byte>>, ks: seq<nat>, blobs: seq<seq<Byte>>, base: nat, list: seq<nat>)
    requires Listed(files, ks) && |list| == |ks| == |blobs|
    requires forall j | 0 <= j < |ks| :: blobs[j] == files[ks[j]]
    requires forall j {:trigger list[j]} | 0 <= j < |ks| :: list[j] == base + |BodyOf(files, ks, j)|
    requires base + |BodyOf(files, ks, |ks|)| <= |d|
    requires d[base..base + |BodyOf(files, ks, |ks|)|] == BodyOf(files, ks, |ks|)
    ensures forall j {:trigger blobs[j]} | 0 <= j < |blobs| :: list[j] + |blobs[j]| <= |d| && d[list[j]..list[j] + |blobs[j]|] == blobs[j]
  {
    forall j {:trigger blobs[j]} | 0 <= j < |blobs|
      ensures list[j] + |blobs[j]| <= |d| && d[list[j]..list[j] + |blobs[j]|] == blobs[j]
    {
      PlacedBlob(d, files, ks, base, j);
    }
  }

  /** Each listed address is where the bitmap before it ends; the last one
      ends where the body does. */
  lemma ListSteps(files: map<nat, seq<Byte>>, ks: seq<nat>, blobs: seq<seq<Byte>>, base: nat, list: seq<nat>)
    requires Listed(files, ks) && |list| == |ks| == |blobs| > 0
    requires forall j | 0 <= j < |ks| :: blobs[j] == files[ks[j]]
    requires forall j {:trigger list[j]} | 0 <= j < |ks| :: list[j] == base + |BodyOf(files, ks, j)|
    ensures forall j {:trigger blobs[j]} | 0 <= j < |blobs| - 1 :: list[j + 1] == list[j] + |blobs[j]|
    ensures list[|ks| - 1] + |blobs[|ks| - 1]| == base + |BodyOf(files, ks, |ks|)|
  {
    forall j | 0 <= j < |blobs| - 1
      ensures list[j + 1] == list[j] + |blobs[j]|
    {
      BodyStep(files, ks, j);
    }
    BodyStep(files, ks, |ks| - 1);
  }

  /** The body copied to `base`, followed by 0xFF up to the end, forms a chain
      the walk accepts when the list holds the bitmaps' addresses. */
  lemma BodyChains(d: seq<Byte>, files: map<nat, seq<Byte>>, ks: seq<nat>, base: nat, list: seq<nat>)
    requires Listed(files, ks) && |ks| > 0
    requires forall i | 0 <= i < |ks| :: SelfSized(files[ks[i]])
    requires |list| == |ks|
    requires forall j {:trigger list[j]} | 0 <= j < |ks| :: list[j] == base + |BodyOf(files, ks, j)|
    requires base + |BodyOf(files, ks, |ks|)| <= |d|
    requires d[base..base + |BodyOf(files, ks, |ks|)|] == BodyOf(files, ks, |ks|)
    requires forall k | base + |BodyOf(files, ks, |ks|)| <= k < |d| :: d[k] == Padding
    ensures ChainFrom(d, list, list[0], 0) == Ok(true)
  {
    var blobs := Blobs(files, ks);
    PlacedBlobs(d, files, ks, blobs, base, list);
    ListSteps(files, ks, blobs, base, list);
    BlobsChain(d, blobs, list);
  }

  /** What the rebuild needs of its inputs for its output to verify: sizes for
      every bitmap, a table length that matches the largest index, self-sized
      bitmaps, distances that fit, do not end in "BM" and are not the
      sentinel, room for the body and a three-digit version, and a header
      whose other fields `verify_header` accepts. */
  ghost predicate Rebuildable(h: Header, table: map<nat, bool>, files: map<nat, seq<Byte>>)
  {
    && HasSizes(table, files)
    && |files| > 0 && MaxKey(files) == |table|
    && (forall k | k in files :: SelfSized(files[k]))
    && (var addrs := CombineAddrs(table, files);
        Fits(addrs) && NoMagic(addrs) && NoSentinel(addrs))
    && BodyBase(table) + |CombineBody(files)| + 3 <= FileSize(h)
    && h.pdType != ColorMagicBytes && TableName(h) == Ok(ColorTableName)
    && VersionName(h).Ok? && VersionPattern(VersionName(h).value)
    && 100 <= DigitsValue(VersionName(h).value[1..5]) < 1000
  }

  /** The table the rebuild writes is as long as `BodyBase` assumed. */
  lemma RebuiltTable(table: map<nat, bool>, files: map<nat, seq<Byte>>)
    requires |files| > 0 && MaxKey(files) == |table|
    requires Fits(CombineAddrs(table, files))
    ensures BuildTable(CombineAddrs(table, files)).Ok?
    ensures HeaderSize + |BuildTable(CombineAddrs(table, files)).value| == BodyBase(table)
  {
    var addrs := CombineAddrs(table, files);
    BuildTableLayout(addrs);
    TableSlotsIsMaxKey(addrs);
    assert MaxKey(files) in addrs;
    assert MaxKey(addrs) == MaxKey(files);
  }

  /** The header of the rebuilt file passes `verify_header`. */
  lemma RebuiltHeaderAccepted(h: Header, tbl: seq<Byte>, body: seq<Byte>)
    requires HeaderSize + |tbl| + |body| + 3 <= FileSize(h)
    requires h.pdType != ColorMagicBytes && TableName(h) == Ok(ColorTableName)
    requires VersionName(h).Ok? && VersionPattern(VersionName(h).value)
    requires 100 <= DigitsValue(VersionName(h).value[1..5]) < 1000
    ensures Version(h).Ok?
    ensures HeaderAccepted(Assemble(h, tbl, body, Version(h).value), DeviceInt(0x6A))
  {
    PatternGivesVersion(h);
    var v := Version(h).value;
    var out := Assemble(h, tbl, body, v);
    AssembleHeader(h, tbl, body, v);
    DecimalLength(v);
    AssembleLength(h, tbl, body, v);
    TrailerOfThreeDigits(h, tbl, body, v);
    assert FromBytes(out).value.pdType == h.pdType;
  }

  /** Where the parts of an assembled file land when the size field leaves
      room for a three-digit version: the table after the header, the body
      after the table, then 0xFF up to the trailer. */
  lemma AssembledLayout(h: Header, tbl: seq<Byte>, body: seq<Byte>, v: nat)
    requires 100 <= v < 1000
    requires HeaderSize + |tbl| + |body| + 3 <= FileSize(h)
    ensures var out := Assemble(h, tbl, body, v);
            var base := HeaderSize + |tbl|;
            && |out| == FileSize(h)
            && out[HeaderSize..base] == tbl
            && out[base..base + |body|] == body
            && forall k | base + |body| <= k < |out| - 3 :: out[k] == Padding
  {
    DecimalLength(v);
    AssembleLength(h, tbl, body, v);
    AssembleParts(h, tbl, body, v);
  }

  /** The rebuilt file is the assembly of the built table and the body. */
  lemma RebuiltIsAssembled(h: Header, table: map<nat, bool>, files: map<nat, seq<Byte>>)
    requires Rebuildable(h, table, files)
    ensures BuildTable(CombineAddrs(table, files)).Ok?
    ensures HeaderSize + |BuildTable(CombineAddrs(table, files)).value| == BodyBase(table)
    ensures Version(h).Ok? && 100 <= Version(h).value < 1000
    ensures Combine(h, table, files)
            == Ok(Assemble(h, BuildTable(CombineAddrs(table, files)).value, CombineBody(files), Version(h).value))
  {
    RebuiltTable(table, files);
    PatternGivesVersion(h);
  }

  /** The body starts with the first bitmap, so with "BM". */
  lemma BodyHead(files: map<nat, seq<Byte>>)
    requires |files| > 0 && forall k | k in files :: SelfSized(files[k])
    ensures |CombineBody(files)| >= 6
    ensures CombineBody(files)[0] == ASCII_B && CombineBody(files)[1] == ASCII_M
  {
    var ks := Sorted(files);
    SortedFacts(files);
    assert MaxKey(files) in ks;
    assert Listed(files, ks);
    BlobInBody(files, ks, 0, |ks|);
    var b := files[ks[0]];
    assert CombineBody(files)[0..|b|] == b;
  }

  /** Decoding the rebuilt table lists the bitmaps' addresses in index
      order. */
  lemma PresentIsAddrList(table: map<nat, bool>, files: map<nat, seq<Byte>>, entries: seq<Entry>)
    requires forall i | 0 <= i < |entries| :: entries[i] == Entry(i + 1, Lookup(CombineAddrs(table, files), i + 1))
    requires forall k | k in CombineAddrs(table, files) :: 1 <= k <= |entries|
    ensures forall k | k in Sorted(files) :: k in CombineAddrs(table, files)
    ensures Present(entries) == AddrList(CombineAddrs(table, files), Sorted(files))
    ensures Extract.PresentKeys(entries) == Sorted(files)
  {
    var ks := Sorted(files);
    SortedFacts(files);
    if |ks| > 0 {
      assert ks[0] in ks;
    }
    PresentFrom(entries, CombineAddrs(table, files), ks, 0, 0);
    PresentKeysAreSorted(table, files, entries);
    assert entries[0..] == entries && ks[0..] == ks;
  }

  /** Entries numbered from 1 whose addresses come from `addrs`: the
      indices with an address are the keys of `addrs` in ascending order. */
  lemma PresentKeysOfAddrs(entries: seq<Entry>, addrs: map<nat, nat>, ks: seq<nat>)
    requires forall i | 0 <= i < |entries| :: entries[i] == Entry(i + 1, Lookup(addrs, i + 1))
    requires forall k | k in addrs :: 1 <= k <= |entries|
    requires StrictlyAscending(ks) && forall k :: k in addrs <==> k in ks
    ensures Extract.PresentKeys(entries) == ks
  {
    var keys := Extract.PresentKeys(entries);
    PresentKeysAscending(entries);
    forall k | k in ks
      ensures k in keys
    {
      PresentKeyOfAddr(entries, addrs, k);
    }
    forall k | k in keys
      ensures k in ks
    {
      var j :| 0 <= j < |keys| && keys[j] == k;
      PresentKeyAt(entries, 0, j);
      assert entries[k - 1].addr == Lookup(addrs, k);
    }
    AscendingUnique(keys, ks);
  }

  /** Entries numbered from 1: the indices with an address ascend. */
  lemma PresentKeysAscending(entries: seq<Entry>)
    requires forall i | 0 <= i < |entries| :: entries[i].index == i + 1
    ensures StrictlyAscending(Extract.PresentKeys(entries))
  {
    var keys := Extract.PresentKeys(entries);
    forall i, j | 0 <= i < j < |keys|
      ensures keys[i] < keys[j]
    {
      PresentKeysOrder(entries, 0, i, j);
    }
  }

  /** Entries numbered from 1 whose addresses come from `addrs`: every key
      of `addrs` is an index with an address. */
  lemma PresentKeyOfAddr(entries: seq<Entry>, addrs: map<nat, nat>, k: nat)
    requires forall i | 0 <= i < |entries| :: entries[i] == Entry(i + 1, Lookup(addrs, i + 1))
    requires 1 <= k <= |entries| && k in addrs
    ensures k in Extract.PresentKeys(entries)
  {
    assert entries[k - 1].addr == Lookup(addrs, k);
    PresentKeysComplete(entries, 0, k - 1);
  }

  /** The same entries, built by the rebuild: the indices with an address
      are the bitmap indices in ascending order. */
  lemma PresentKeysAreSorted(table: map<nat, bool>, files: map<nat, seq<Byte>>, entries: seq<Entry>)
    requires forall i | 0 <= i < |entries| :: entries[i] == Entry(i + 1, Lookup(CombineAddrs(table, files), i + 1))
    requires forall k | k in CombineAddrs(table, files) :: 1 <= k <= |entries|
    ensures Extract.PresentKeys(entries) == Sorted(files)
  {
    SortedFacts(files);
    PresentKeysOfAddrs(entries, CombineAddrs(table, files), Sorted(files));
  }

  /** The address the rebuild gives each bitmap is where the bitmaps before
      it end. */
  lemma AddressesAreOffsets(table: map<nat, bool>, files: map<nat, seq<Byte>>)
    ensures Listed(files, Sorted(files))
    ensures forall k | k in Sorted(files) :: k in CombineAddrs(table, files)
    ensures var ks := Sorted(files);
            var list := AddrList(CombineAddrs(table, files), ks);
            && |list| == |ks|
            && forall j {:trigger list[j]} | 0 <= j < |ks| :: list[j] == BodyBase(table) + |BodyOf(files, ks, j)|
  {
    var ks := Sorted(files);
    SortedFacts(files);
    var addrs := CombineAddrs(table, files);
    var base := BodyBase(table);
    AddrListLength(addrs, ks);
    assert addrs == AddrsOf(files, ks, |ks|, base);
    forall j | 0 <= j < |ks|
      ensures AddrList(addrs, ks)[j] == base + |BodyOf(files, ks, j)|
    {
      AddrsOfValues(files, ks, |ks|, base, j);
      AddrListAt(addrs, ks, j);
    }
  }

  /** A sequence is its three pieces around two cut points. */
  lemma Cut3(s: seq<Byte>, i: nat, j: nat)
    requires i <= j <= |s|
    ensures s == s[..i] + s[i..j] + s[j..]
  {
  }

  /** A window before `n` is unchanged by cutting `s` at `n`. */
  lemma CutKeepsWindow(s: seq<Byte>, n: nat, lo: nat, b: seq<Byte>)
    requires lo + |b| <= n <= |s| && s[lo..lo + |b|] == b
    ensures s[..n][lo..lo + |b|] == b
  {
    assert s[..n][lo..lo + |b|] == s[lo..lo + |b|];
  }

  /** A file holding the built table after the header and the body after
      the table lists the bitmaps' addresses in index order. */
  lemma LaidOutList(out: seq<Byte>, tbl: seq<Byte>, body: seq<Byte>, table: map<nat, bool>, files: map<nat, seq<Byte>>)
    requires |files| > 0 && forall k | k in files :: SelfSized(files[k])
    requires var addrs := CombineAddrs(table, files);
             Fits(addrs) && NoMagic(addrs) && NoSentinel(addrs)
    requires BuildTable(CombineAddrs(table, files)) == Ok(tbl) && body == CombineBody(files)
    requires HeaderSize + |tbl| == BodyBase(table)
    requires HeaderSize + |tbl| + |body| <= |out|
    requires out[HeaderSize..HeaderSize + |tbl|] == tbl
    requires out[HeaderSize + |tbl|..HeaderSize + |tbl| + |body|] == body
    ensures ParseTable(out).Ok?
    ensures Listed(files, Sorted(files))
    ensures var ks := Sorted(files);
            var list := Present(ParseTable(out).value);
            && |list| == |ks| > 0
            && forall j {:trigger list[j]} | 0 <= j < |ks| :: list[j] == BodyBase(table) + |BodyOf(files, ks, j)|
  {
    var addrs := CombineAddrs(table, files);
    var base := HeaderSize + |tbl|;
    BodyHead(files);
    var tail := out[base..];
    assert tail[..|body|] == body;
    Cut3(out, HeaderSize, base);
    TableRoundTrip(addrs, out[..HeaderSize], tail);
    var entries := ParseTable(out).value;
    PresentIsAddrList(table, files, entries);
    AddressesAreOffsets(table, files);
    SortedFacts(files);
    assert MaxKey(files) in Sorted(files);
  }

  /** The body at `base`, then 0xFF up to a three-byte trailer: without the
      trailer, the chain walk over the bitmaps' addresses accepts it. */
  lemma LaidOutChain(out: seq<Byte>, base: nat, files: map<nat, seq<Byte>>, ks: seq<nat>, list: seq<nat>)
    requires Listed(files, ks) && |ks| > 0
    requires forall k | k in files :: SelfSized(files[k])
    requires var body := BodyOf(files, ks, |ks|);
             && base + |body| + 3 <= |out|
             && out[base..base + |body|] == body
             && forall k | base + |body| <= k < |out| - 3 :: out[k] == Padding
    requires |list| == |ks|
    requires forall j {:trigger list[j]} | 0 <= j < |ks| :: list[j] == base + |BodyOf(files, ks, j)|
    ensures ChainFrom(WithoutTrailer(out), list, list[0], 0) == Ok(true)
  {
    var body := BodyOf(files, ks, |ks|);
    var d := WithoutTrailer(out);
    CutKeepsWindow(out, |out| - 3, base, body);
    BodyChains(d, files, ks, base, list);
  }

  /** Such a file, with 0xFF from the end of the body up to a three-byte
      trailer, passes `verify_body`. */
  lemma LaidOutBodyPasses(out: seq<Byte>, tbl: seq<Byte>, body: seq<Byte>, table: map<nat, bool>, files: map<nat, seq<Byte>>)
    requires |files| > 0 && forall k | k in files :: SelfSized(files[k])
    requires var addrs := CombineAddrs(table, files);
             Fits(addrs) && NoMagic(addrs) && NoSentinel(addrs)
    requires BuildTable(CombineAddrs(table, files)) == Ok(tbl) && body == CombineBody(files)
    requires HeaderSize + |tbl| == BodyBase(table)
    requires HeaderSize + |tbl| + |body| + 3 <= |out|
    requires out[HeaderSize..HeaderSize + |tbl|] == tbl
    requires out[HeaderSize + |tbl|..HeaderSize + |tbl| + |body|] == body
    requires forall k | HeaderSize + |tbl| + |body| <= k < |out| - 3 :: out[k] == Padding
    ensures VerifyBody(out) == Pass
  {
    LaidOutList(out, tbl, body, table, files);
    var ks := Sorted(files);
    assert body == BodyOf(files, ks, |ks|);
    LaidOutChain(out, BodyBase(table), files, ks, Present(ParseTable(out).value));
    VerifyBodyChain(out);
  }

  /** The table and body of the rebuilt file pass `verify_body`. */
  lemma RebuiltBodyPasses(h: Header, table: map<nat, bool>, files: map<nat, seq<Byte>>)
    requires Rebuildable(h, table, files)
    ensures Combine(h, table, files).Ok?
    ensures VerifyBody(Combine(h, table, files).value) == Pass
  {
    RebuiltIsAssembled(h, table, files);
    var tbl := BuildTable(CombineAddrs(table, files)).value;
    var body := CombineBody(files);
    var out := Assemble(h, tbl, body, Version(h).value);
    AssembledLayout(h, tbl, body, Version(h).value);
    LaidOutBodyPasses(out, tbl, body, table, files);
  }

  /** `verify_file` accepts what `cmd_combine` writes. */
  lemma RebuiltFileVerifies(h: Header, table: map<nat, bool>, files: map<nat, seq<Byte>>)
    requires Rebuildable(h, table, files)
    ensures Combine(h, table, files).Ok?
    ensures VerifyFile(Combine(h, table, files).value) == Pass
  {
    RebuiltBodyPasses(h, table, files);
    var addrs := CombineAddrs(table, files);
    RebuiltTable(table, files);
    var tbl := BuildTable(addrs).value;
    RebuiltHeaderAccepted(h, tbl, CombineBody(files));
    var out := Combine(h, table, files).value;
    VerifyFilePasses(out);
  }

  /** A file laid out as the rebuild lays it out decodes to one entry per
      index up to the largest bitmap index, each with the address the rebuild
      gave that index, or none. */
  lemma LaidOutEntries(out: seq<Byte>, tbl: seq<Byte>, body: seq<Byte>, table: map<nat, bool>, files: map<nat, seq<Byte>>)
    requires |files| > 0 && forall k | k in files :: SelfSized(files[k])
    requires var addrs := CombineAddrs(table, files);
             Fits(addrs) && NoMagic(addrs) && NoSentinel(addrs)
    requires BuildTable(CombineAddrs(table, files)) == Ok(tbl) && body == CombineBody(files)
    requires HeaderSize + |tbl| + |body| <= |out|
    requires out[HeaderSize..HeaderSize + |tbl|] == tbl
    requires out[HeaderSize + |tbl|..HeaderSize + |tbl| + |body|] == body
    ensures ParseTable(out).Ok?
    ensures var entries := ParseTable(out).value;
            var addrs := CombineAddrs(table, files);
            && |entries| == MaxKey(files)
            && (forall i | 0 <= i < |entries| :: entries[i] == Entry(i + 1, Lookup(addrs, i + 1)))
            && (forall k | k in addrs :: 1 <= k <= |entries|)
  {
    var addrs := CombineAddrs(table, files);
    var base := HeaderSize + |tbl|;
    BodyHead(files);
    var tail := out[base..];
    assert tail[..|body|] == body;
    Cut3(out, HeaderSize, base);
    TableRoundTrip(addrs, out[..HeaderSize], tail);
    assert MaxKey(files) in addrs && MaxKey(addrs) in files;
  }

  /** The cut of `cmd_extract` at each address of `list` finds "BM" and,
      by the declared length, exactly the bitmap of the matching key. */
  ghost predicate CutsAre(out: seq<Byte>, list: seq<nat>, files: map<nat, seq<Byte>>, ks: seq<nat>)
    requires Listed(files, ks) && |list| == |ks|
  {
    forall j | 0 <= j < |ks| ::
      && StartsWithMagic(Drop(out, list[j]))
      && Slice(out, list[j], list[j] + BlobLength(out, list[j])) == files[ks[j]]
  }

  /** Each bitmap of a body copied to `base` is found at its address by the
      cut of `cmd_extract`: "BM" is there, and the declared length cuts out
      exactly the bitmap. */
  lemma CutsAreBitmaps(out: seq<Byte>, base: nat, files: map<nat, seq<Byte>>, ks: seq<nat>, list: seq<nat>)
    requires Listed(files, ks)
    requires forall k | k in files :: SelfSized(files[k])
    requires base + |BodyOf(files, ks, |ks|)| <= |out|
    requires out[base..base + |BodyOf(files, ks, |ks|)|] == BodyOf(files, ks, |ks|)
    requires |list| == |ks|
    requires forall j {:trigger list[j]} | 0 <= j < |ks| :: list[j] == base + |BodyOf(files, ks, j)|
    ensures CutsAre(out, list, files, ks)
  {
    forall j | 0 <= j < |ks|
      ensures StartsWithMagic(Drop(out, list[j]))
      ensures Slice(out, list[j], list[j] + BlobLength(out, list[j])) == files[ks[j]]
    {
      PlacedBlob(out, files, ks, base, j);
      BlobAtAddr(out, list[j], files[ks[j]]);
    }
  }

  /** Blobs cut at the bitmaps' addresses under their indices are the
      bitmaps. */
  lemma CutBlobsAreFiles(out: seq<Byte>, blobs: seq<Extract.Blob>, list: seq<nat>, keys: seq<nat>,
                         files: map<nat, seq<Byte>>, ks: seq<nat>)
    requires Listed(files, ks) && |blobs| == |list| == |ks| && keys == ks
    requires forall j | 0 <= j < |blobs| :: Extract.CutAt(out, list[j], blobs[j])
    requires forall j | 0 <= j < |blobs| :: blobs[j].index == keys[j]
    requires CutsAre(out, list, files, ks)
    ensures forall j | 0 <= j < |ks| :: blobs[j] == Extract.Blob(ks[j], files[ks[j]])
  {
  }

  /** In a file laid out as the rebuild lays it out, each present address
      holds "BM" and the cut there is the bitmap of the matching key. */
  lemma LaidOutCuts(out: seq<Byte>, tbl: seq<Byte>, body: seq<Byte>, table: map<nat, bool>, files: map<nat, seq<Byte>>)
    requires |files| > 0 && forall k | k in files :: SelfSized(files[k])
    requires var addrs := CombineAddrs(table, files);
             Fits(addrs) && NoMagic(addrs) && NoSentinel(addrs)
    requires BuildTable(CombineAddrs(table, files)) == Ok(tbl) && body == CombineBody(files)
    requires HeaderSize + |tbl| == BodyBase(table)
    requires HeaderSize + |tbl| + |body| <= |out|
    requires out[HeaderSize..HeaderSize + |tbl|] == tbl
    requires out[HeaderSize + |tbl|..HeaderSize + |tbl| + |body|] == body
    ensures ParseTable(out).Ok?
    ensures Listed(files, Sorted(files))
    ensures var list := Present(ParseTable(out).value);
            var ks := Sorted(files);
            && |list| == |ks|
            && Extract.AllBitmaps(out, list)
            && CutsAre(out, list, files, ks)
  {
    LaidOutList(out, tbl, body, table, files);
    var ks := Sorted(files);
    var list := Present(ParseTable(out).value);
    CutsAreBitmaps(out, BodyBase(table), files, ks, list);
    assert Extract.AllBitmaps(out, list);
  }

  /** The same file: the indices with an address are the bitmaps' indices in
      ascending order. */
  lemma LaidOutKeys(out: seq<Byte>, tbl: seq<Byte>, body: seq<Byte>, table: map<nat, bool>, files: map<nat, seq<Byte>>)
    requires |files| > 0 && forall k | k in files :: SelfSized(files[k])
    requires var addrs := CombineAddrs(table, files);
             Fits(addrs) && NoMagic(addrs) && NoSentinel(addrs)
    requires BuildTable(CombineAddrs(table, files)) == Ok(tbl) && body == CombineBody(files)
    requires HeaderSize + |tbl| + |body| <= |out|
    requires out[HeaderSize..HeaderSize + |tbl|] == tbl
    requires out[HeaderSize + |tbl|..HeaderSize + |tbl| + |body|] == body
    ensures ParseTable(out).Ok?
    ensures Extract.PresentKeys(ParseTable(out).value) == Sorted(files)
  {
    LaidOutEntries(out, tbl, body, table, files);
    PresentIsAddrList(table, files, ParseTable(out).value);
  }

  /** What extraction reports for such a file once it passes `verify_file`:
      every index up to the largest bitmap index with the address the rebuild
      gave it or none, and the bitmaps in index order, each under its own
      index and byte for byte. */
  lemma LaidOutExtracts(out: seq<Byte>, tbl: seq<Byte>, body: seq<Byte>, table: map<nat, bool>, files: map<nat, seq<Byte>>)
    requires VerifyFile(out) == Pass
    requires |files| > 0 && forall k | k in files :: SelfSized(files[k])
    requires var addrs := CombineAddrs(table, files);
             Fits(addrs) && NoMagic(addrs) && NoSentinel(addrs)
    requires BuildTable(CombineAddrs(table, files)) == Ok(tbl) && body == CombineBody(files)
    requires HeaderSize + |tbl| == BodyBase(table)
    requires HeaderSize + |tbl| + |body| <= |out|
    requires out[HeaderSize..HeaderSize + |tbl|] == tbl
    requires out[HeaderSize + |tbl|..HeaderSize + |tbl| + |body|] == body
    ensures Listed(files, Sorted(files))
    ensures var x := Extract.Extraction(out);
            var ks := Sorted(files);
            && x.Ok?
            && FromBytes(out) == Ok(x.value.header)
            && (forall k :: k in x.value.table <==> 1 <= k <= MaxKey(files))
            && (forall k | k in x.value.table :: x.value.table[k] == Lookup(CombineAddrs(table, files), k))
            && |x.value.table| == MaxKey(files)
            && |x.value.blobs| == |ks|
            && (forall j | 0 <= j < |ks| :: x.value.blobs[j] == Extract.Blob(ks[j], files[ks[j]]))
  {
    LaidOutEntries(out, tbl, body, table, files);
    LaidOutCuts(out, tbl, body, table, files);
    LaidOutKeys(out, tbl, body, table, files);
    ExtractedParts(out, CombineAddrs(table, files), files, Sorted(files));
  }

  /** Extraction of a file that passes `verify_file`, whose table decodes to
      the addresses `addrs` index by index and whose cuts are the bitmaps. */
  lemma ExtractedParts(out: seq<Byte>, addrs: map<nat, nat>, files: map<nat, seq<Byte>>, ks: seq<nat>)
    requires VerifyFile(out) == Pass && ParseTable(out).Ok?
    requires var entries := ParseTable(out).value;
             forall i | 0 <= i < |entries| :: entries[i] == Entry(i + 1, Lookup(addrs, i + 1))
    requires Listed(files, ks)
    requires var list := Present(ParseTable(out).value);
             && Extract.PresentKeys(ParseTable(out).value) == ks
             && |list| == |ks|
             && Extract.AllBitmaps(out, list)
             && CutsAre(out, list, files, ks)
    ensures var x := Extract.Extraction(out);
            var n := |ParseTable(out).value|;
            && x.Ok?
            && FromBytes(out) == Ok(x.value.header)
            && (forall k :: k in x.value.table <==> 1 <= k <= n)
            && (forall k | k in x.value.table :: x.value.table[k] == Lookup(addrs, k))
            && |x.value.table| == n
            && |x.value.blobs| == |ks|
            && (forall j | 0 <= j < |ks| :: x.value.blobs[j] == Extract.Blob(ks[j], files[ks[j]]))
  {
    var entries := ParseTable(out).value;
    Extract.ExtractionFails(out);
    Extract.ExtractionReports(out);
    Extract.TableOfRecords(entries);
    var x := Extract.Extraction(out).value;
    CutBlobsAreFiles(out, x.blobs, Present(entries), Extract.PresentKeys(entries), files, ks);
    forall k | k in x.table
      ensures x.table[k] == Lookup(addrs, k)
    {
      assert entries[k - 1] == Entry(k, Lookup(addrs, k));
    }
  }

  /** What extraction of the rebuilt file reports: the header written (the
      given one with the new checksum), every index up to the table length
      with the address the rebuild gave it or none, and the bitmaps in index
      order, each under its own index and byte for byte. */
  lemma RebuiltExtracts(h: Header, table: map<nat, bool>, files: map<nat, seq<Byte>>)
    requires Rebuildable(h, table, files)
    ensures Combine(h, table, files).Ok?
    ensures var out := Combine(h, table, files).value;
            var x := Extract.Extraction(out);
            var ks := Sorted(files);
            && x.Ok?
            && x.value.header == h.(checksum := CalcChecksum(out, HeaderSize))
            && (forall k :: k in x.value.table <==> 1 <= k <= |table|)
            && (forall k | k in x.value.table :: x.value.table[k] == Lookup(CombineAddrs(table, files), k))
            && |x.value.table| == |table|
            && |x.value.blobs| == |ks|
            && (forall j | 0 <= j < |ks| :: x.value.blobs[j] == Extract.Blob(ks[j], files[ks[j]]))
  {
    RebuiltFileVerifies(h, table, files);
    RebuiltIsAssembled(h, table, files);
    var tbl := BuildTable(CombineAddrs(table, files)).value;
    var body := CombineBody(files);
    var v := Version(h).value;
    AssembleHeader(h, tbl, body, v);
    AssembledLayout(h, tbl, body, v);
    LaidOutExtracts(Assemble(h, tbl, body, v), tbl, body, table, files);
  }

  /** The size entries `cmd_combine` finds in the saved table: `cmd_extract`
      records a size exactly for the indices that hold a bitmap. */
  function SavedSizes(x: Extract.Extracted): (r: map<nat, bool>)
    ensures forall k :: k in r <==> k in x.table
    ensures forall k | k in r :: r[k] <==> x.table[k].Some?
  {
    map k | k in x.table :: x.table[k].Some?
  }

  /** The bitmaps `cmd_combine` finds in the folder: each blob file is named
      after its index, and a later file of the same index replaces an
      earlier one. */
  function SavedFiles(blobs: seq<Extract.Blob>): (r: map<nat, seq<Byte>>)
    ensures forall k :: k in r <==> exists j | 0 <= j < |blobs| :: blobs[j].index == k
  {
    if blobs == [] then map[]
    else
      var last := blobs[|blobs| - 1];
      var r := SavedFiles(blobs[..|blobs| - 1]);
      assert forall j | 0 <= j < |blobs| - 1 :: blobs[..|blobs| - 1][j] == blobs[j];
      r[last.index := last.bytes]
  }

  /** With distinct indices, each blob is saved under its index. */
  lemma {:induction false} SavedFilesAt(blobs: seq<Extract.Blob>, j: nat)
    requires forall a, b | 0 <= a < b < |blobs| :: blobs[a].index != blobs[b].index
    requires j < |blobs|
    ensures SavedFiles(blobs)[blobs[j].index] == blobs[j].bytes
  {
    var n := |blobs| - 1;
    if j < n {
      var init := blobs[..n];
      assert init[j] == blobs[j];
      SavedFilesAt(init, j);
      assert blobs[j].index != blobs[n].index;
    }
  }

  /** The saved bitmaps are the ones the rebuild started from. */
  lemma SavedFilesAreFiles(blobs: seq<Extract.Blob>, files: map<nat, seq<Byte>>)
    requires Listed(files, Sorted(files)) && |blobs| == |Sorted(files)|
    requires forall j | 0 <= j < |blobs| :: blobs[j] == Extract.Blob(Sorted(files)[j], files[Sorted(files)[j]])
    ensures SavedFiles(blobs) == files
  {
    var ks := Sorted(files);
    SortedFacts(files);
    forall a, b | 0 <= a < b < |blobs|
      ensures blobs[a].index != blobs[b].index
    {
      assert ks[a] < ks[b];
    }
    forall k | k in files
      ensures k in SavedFiles(blobs) && SavedFiles(blobs)[k] == files[k]
    {
      var j :| 0 <= j < |ks| && ks[j] == k;
      SavedFilesAt(blobs, j);
    }
    forall k | k in SavedFiles(blobs)
      ensures k in files
    {
      var j :| 0 <= j < |blobs| && blobs[j].index == k;
      assert ks[j] in ks;
    }
  }

  /** `cmd_extract` records a size entry for every index of the table. */
  lemma SavedSizesCount(x: Extract.Extracted)
    ensures |SavedSizes(x)| == |x.table|
  {
    assert SavedSizes(x).Keys == x.table.Keys;
  }

  /** `cmd_combine` overwrites the checksum and uses the saved table only for
      its length and its size entries: headers that differ only in the
      checksum, and tables of one length that give every bitmap a size, yield
      the same file. */
  lemma CombineIgnoresChecksum(h: Header, h2: Header, table: map<nat, bool>, table2: map<nat, bool>, files: map<nat, seq<Byte>>)
    requires h2 == h.(checksum := h2.checksum)
    requires HasSizes(table, files) && HasSizes(table2, files) && |table2| == |table|
    ensures Combine(h2, table2, files) == Combine(h, table, files)
  {
    AddrsIgnoreSizes(table, table2, files);
    VersionIgnoresChecksum(h, h2);
    match BuildTable(CombineAddrs(table, files))
    case Err(_) =>
    case Ok(tbl) =>
      if Version(h).Ok? {
        AssembleIgnoresChecksum(h, h2, tbl, CombineBody(files), Version(h).value);
      }
  }

  /** The addresses depend on the table only through its number of entries. */
  lemma AddrsIgnoreSizes(table: map<nat, bool>, table2: map<nat, bool>, files: map<nat, seq<Byte>>)
    requires |table2| == |table|
    ensures CombineAddrs(table2, files) == CombineAddrs(table, files)
  {
    assert BodyBase(table2) == BodyBase(table);
  }

  /** The version does not depend on the checksum the header held. */
  lemma VersionIgnoresChecksum(h: Header, h2: Header)
    requires h2 == h.(checksum := h2.checksum)
    ensures Version(h2) == Version(h)
  {
    assert h2.versionName == h.versionName;
  }

  /** The assembled file does not depend on the checksum the header held. */
  lemma AssembleIgnoresChecksum(h: Header, h2: Header, tbl: seq<Byte>, body: seq<Byte>, v: nat)
    requires h2 == h.(checksum := h2.checksum)
    ensures Assemble(h2, tbl, body, v) == Assemble(h, tbl, body, v)
  {
    assert Payload(h2, tbl, body, v) == Payload(h, tbl, body, v);
    var c := CalcChecksum(Payload(h, tbl, body, v), 0);
    assert h2.(checksum := c) == h.(checksum := c);
  }

  /** The round trip closes: `cmd_combine` on what `cmd_extract` saves from
      a rebuilt file (its header, its table's size entries and its bitmaps by
      index) writes the same bytes again. */
  lemma ExtractThenCombine(h: Header, table: map<nat, bool>, files: map<nat, seq<Byte>>)
    requires Rebuildable(h, table, files)
    ensures Combine(h, table, files).Ok?
    ensures var x := Extract.Extraction(Combine(h, table, files).value);
            && x.Ok?
            && Combine(x.value.header, SavedSizes(x.value), SavedFiles(x.value.blobs)) == Combine(h, table, files)
  {
    RebuiltExtracts(h, table, files);
    var out := Combine(h, table, files).value;
    var x := Extract.Extraction(out).value;
    SortedFacts(files);
    SavedFilesAreFiles(x.blobs, files);
    var sizes := SavedSizes(x);
    SavedSizesCount(x);
    assert HasSizes(sizes, files) by {
      forall k | k in files
        ensures k in sizes && sizes[k]
      {
        assert k in CombineAddrs(table, files);
        assert Lookup(CombineAddrs(table, files), k).Some?;
        assert MaxKey(files) >= k;
      }
    }
    CombineIgnoresChecksum(h, x.header, table, sizes, files);
  }
}
