/** The blob chain behind the table: `_read_bmp_filesize`, `find_next_block`
    and `check_bitmap_chain`, which walks from blob to blob by their declared
    lengths and accepts when the walk runs off the end of the data or reaches
    padding made only of 0xFF bytes. */
module BitmapChain {
  import opened Errors
  import opened Bytes

  /** The byte `find_next_block` skips by default. */
  const Padding: Byte := 0xFF

  /** `data` starts with "BM" (Python `data[:2] == b"BM"`). */
  predicate StartsWithMagic(data: seq<Byte>)
  {
    |data| >= 2 && data[0] == ASCII_B && data[1] == ASCII_M
  }

  /** `_read_bmp_filesize`: a blob must start with "BM"; its length is the
      unsigned little-endian number in bytes 2..6, of which fewer are read
      when the data is shorter. */
  function ReadBmpFilesize(data: seq<Byte>): (r: Result<nat>)
    ensures r.Err? <==> !StartsWithMagic(data)
    ensures r.Err? ==> r.error == NotABitmap
    ensures r.Ok? && |data| >= 6 ==> r.value == LittleEndian(data[2..6])
    ensures r.Ok? ==> r.value == LittleEndian(Slice(data, 2, 6))
    ensures r.Ok? ==> r.value < 0x1_0000_0000
  {
    if StartsWithMagic(data) then
      assert Pow256(|Slice(data, 2, 6)|) <= 0x1_0000_0000 by {
        PowMonotone(|Slice(data, 2, 6)|, 4);
      }
      Ok(LittleEndian(Slice(data, 2, 6)))
    else Err(NotABitmap)
  }

  lemma {:induction false} PowMonotone(m: nat, n: nat)
    requires m <= n
    ensures Pow256(m) <= Pow256(n)
    decreases n
  {
    if m < n {
      PowMonotone(m, n - 1);
    }
  }

  /** `find_next_block(data)` as written: the position of the first byte
      other than 0xFF, or nothing when every byte is 0xFF (also for empty data). */
  method FindNextBlock(data: seq<Byte>) returns (r: Option<nat>)
    ensures r == IndexOfOther(data, Padding)
  {
    for i := 0 to |data|
      invariant forall j | 0 <= j < i :: data[j] == Padding
    {
      if data[i] != Padding {
        return Some(i);
      }
    }
    return None;
  }

  /** What `check_bitmap_chain` returns from cursor `addr`, with `idx`
      blobs already matched against `list`:
      - no "BM" at the cursor: true exactly when only 0xFF follows;
      - a blob there but `list` exhausted: the list index fails;
      - a blob at another address than `list[idx]`: location mismatch;
      - otherwise step over the blob, accepting once past the end. */
  function ChainFrom(data: seq<Byte>, list: seq<nat>, addr: nat, idx: nat): (r: Result<bool>)
    decreases |list| - idx
    ensures r.Err? ==> r.error == IndexOutOfRange || r.error == LocationMismatch
  {
    var rest := Drop(data, addr);
    match ReadBmpFilesize(rest)
    case Err(_) => Ok(IndexOfOther(rest, Padding).None?)
    case Ok(len) =>
      if idx >= |list| then Err(IndexOutOfRange)
      else if addr != list[idx] then Err(LocationMismatch)
      else if addr + len >= |data| then Ok(true)
      else ChainFrom(data, list, addr + len, idx + 1)
  }

  /** `check_bitmap_chain(data, list, start)` as written: a `while True`
      loop over the cursor `addr` and the list position `_idx`. */
  method CheckBitmapChain(data: seq<Byte>, list: seq<nat>, start: nat) returns (r: Result<bool>)
    ensures r == ChainFrom(data, list, start, 0)
  {
    var addr: nat := start;
    var idx: nat := 0;
    while true
      invariant idx <= |list|
      invariant ChainFrom(data, list, addr, idx) == ChainFrom(data, list, start, 0)
      decreases |list| - idx
    {
      var size := ReadBmpFilesize(Drop(data, addr));
      if size.Err? {
        var next := FindNextBlock(Drop(data, addr));
        return Ok(next.None?);
      }
      if idx >= |list| {
        return Err(IndexOutOfRange);
      }
      if addr != list[idx] {
        return Err(LocationMismatch);
      }
      addr := addr + size.value;
      idx := idx + 1;
      if addr >= |data| {
        return Ok(true);
      }
    }
  }

  /** A cursor at or past the end of the data is accepted: nothing is left,
      so nothing but padding is left. */
  lemma ChainAtEnd(data: seq<Byte>, list: seq<nat>, addr: nat, idx: nat)
    requires addr >= |data|
    ensures ChainFrom(data, list, addr, idx) == Ok(true)
  {
    assert Drop(data, addr) == [];
  }

  /** Where no blob starts, the chain is accepted exactly when every byte from
      the cursor to the end is 0xFF, and rejected (false) as soon as one is not. */
  lemma ChainPadding(data: seq<Byte>, list: seq<nat>, addr: nat, idx: nat)
    requires !StartsWithMagic(Drop(data, addr))
    ensures ChainFrom(data, list, addr, idx)
            == Ok(forall j | addr <= j < |data| :: data[j] == Padding)
  {
    var rest := Drop(data, addr);
    if addr <= |data| {
      assert forall j | addr <= j < |data| :: data[j] == rest[j - addr];
    }
    if IndexOfOther(rest, Padding).Some? {
      var k := IndexOfOther(rest, Padding).value;
      assert data[addr + k] == rest[k];
    }
  }

  /** A blob found at another address than the one the list expects next is
      refused with a location mismatch. */
  lemma ChainLocationMismatch(data: seq<Byte>, list: seq<nat>, addr: nat, idx: nat)
    requires StartsWithMagic(Drop(data, addr))
    requires idx < |list| && addr != list[idx]
    ensures ChainFrom(data, list, addr, idx) == Err(LocationMismatch)
  {
  }

  /** The walk succeeds only through blobs sitting exactly at the listed
      addresses, in list order: an accepting walk from `addr` that meets a
      blob there consumed `list[idx]`. */
  lemma ChainVisitsList(data: seq<Byte>, list: seq<nat>, addr: nat, idx: nat)
    requires StartsWithMagic(Drop(data, addr))
    requires ChainFrom(data, list, addr, idx).Ok?
    ensures idx < |list| && list[idx] == addr
  {
  }

  /** The length the blob at `addr` declares. */
  function BlobLength(data: seq<Byte>, addr: nat): nat
    requires StartsWithMagic(Drop(data, addr))
  {
    ReadBmpFilesize(Drop(data, addr)).value
  }

  /** Blobs `list[idx..]` follow each other without gaps, each at the end of
      the one before. */
  ghost predicate Consecutive(data: seq<Byte>, list: seq<nat>, idx: nat)
  {
    && idx < |list|
    && (forall j | idx <= j < |list| :: StartsWithMagic(Drop(data, list[j])))
    && (forall j | idx <= j < |list| - 1 :: list[j + 1] == list[j] + BlobLength(data, list[j]))
  }

  /** One step of the walk over a blob sitting where the list expects it. */
  lemma {:induction false} ChainStep(data: seq<Byte>, list: seq<nat>, idx: nat)
    requires idx < |list| && StartsWithMagic(Drop(data, list[idx]))
    ensures var next := list[idx] + BlobLength(data, list[idx]);
            ChainFrom(data, list, list[idx], idx)
            == if next >= |data| then Ok(true) else ChainFrom(data, list, next, idx + 1)
  {
  }

  /** Completeness: blobs laid end to end at the listed addresses, followed
      by nothing but 0xFF padding, form a chain the check accepts. */
  lemma {:induction false} ChainAcceptsConsecutive(data: seq<Byte>, list: seq<nat>, idx: nat)
    requires Consecutive(data, list, idx)
    requires var last := list[|list| - 1];
             forall k | last + BlobLength(data, last) <= k < |data| :: data[k] == Padding
    ensures ChainFrom(data, list, list[idx], idx) == Ok(true)
    decreases |list| - idx
  {
    var addr := list[idx];
    var next := addr + BlobLength(data, addr);
    ChainStep(data, list, idx);
    if next < |data| {
      assert ChainFrom(data, list, addr, idx) == ChainFrom(data, list, next, idx + 1);
      if idx + 1 < |list| {
        assert list[idx + 1] == next;
        ChainAcceptsConsecutive(data, list, idx + 1);
      } else {
        assert data[next] == Padding;
        ChainPadding(data, list, next, idx + 1);
      }
    }
  }
}
