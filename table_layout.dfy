/** What `build_table` lays out and what `parse_bitmap_table` reads back from
    it: slot k of the table holds the distance from the slot to bitmap k,
    every other slot the sentinel FF FF FF FF, and decoding the table in
    front of a bitmap recovers every key with its address. */
module TableLayout {
  import opened Errors
  import opened Bytes
  import opened SortedKeys
  import opened OffsetTable

  /** Every key is at least 1 and its address lies within 2^32 bytes from its own slot on. */
  predicate Fits(addrs: map<nat, nat>)
  {
    forall k | k in addrs :: 1 <= k && SlotAddr(k) <= addrs[k] < SlotAddr(k) + 0x1_0000_0000
  }

  /** The four bytes slot `j` is meant to hold: the packed distance to bitmap
      `j`, or the sentinel when there is no bitmap `j`. */
  function SlotBytes(addrs: map<nat, nat>, j: nat): (r: seq<Byte>)
    ensures |r| == 4
  {
    if j in addrs && SlotAddr(j) <= addrs[j] < SlotAddr(j) + 0x1_0000_0000
    then PackU32(addrs[j] - SlotAddr(j))
    else Fill(0xFF, 4)
  }

  /** Table-relative slot `j` of `t` holds the bytes `v`. */
  predicate SlotHolds(t: seq<Byte>, j: nat, v: seq<Byte>)
  {
    4 * j + 4 <= |t| && t[4 * j..4 * j + 4] == v
  }

  /** The number of slots `build_table` writes, slot 0 included. */
  function TableSlots(addrs: map<nat, nat>): (n: nat)
    ensures n >= 1
  {
    var ks := Sorted(addrs);
    if |ks| == 0 then 1 else ks[|ks| - 1] + 1
  }

  /** The slot count is one more than the largest key (just slot 0 for no keys). */
  lemma TableSlotsIsMaxKey(addrs: map<nat, nat>)
    ensures |addrs| == 0 ==> TableSlots(addrs) == 1
    ensures |addrs| > 0 ==> TableSlots(addrs) == MaxKey(addrs) + 1
  {
    var ks := Sorted(addrs);
    SortedFacts(addrs);
    if |addrs| > 0 {
      var top := MaxKey(addrs);
      assert top in ks;
      var q :| 0 <= q < |ks| && ks[q] == top;
      assert ks[|ks| - 1] in ks;
      assert ks[q] <= ks[|ks| - 1];
    }
  }

  /** Every key has its own slot. */
  lemma KeyBelowTableSlots(addrs: map<nat, nat>, k: nat)
    requires k in addrs
    ensures k < TableSlots(addrs)
  {
    TableSlotsIsMaxKey(addrs);
  }

  lemma SliceOfMiddle(a: seq<Byte>, b: seq<Byte>, c: seq<Byte>, lo: nat, hi: nat)
    requires |a| <= lo <= hi <= |a| + |b|
    ensures (a + b + c)[lo..hi] == b[lo - |a|..hi - |a|]
  {
    assert forall i | lo <= i < hi :: (a + b + c)[i] == b[i - |a|];
  }

  /** The intended contents of slots `slot` .. `end - 1`, one after the other. */
  function LayoutFrom(addrs: map<nat, nat>, slot: nat, end: nat): (r: seq<Byte>)
    requires slot <= end
    decreases end - slot
    ensures |r| == 4 * (end - slot)
  {
    if slot >= end then [] else SlotBytes(addrs, slot) + LayoutFrom(addrs, slot + 1, end)
  }

  /** In a layout, slot `j` holds its intended contents. */
  lemma {:induction false} LayoutSlot(addrs: map<nat, nat>, acc: seq<Byte>, slot: nat, end: nat, j: nat)
    requires |acc| == 4 * slot && slot <= j < end
    decreases end - slot
    ensures SlotHolds(acc + LayoutFrom(addrs, slot, end), j, SlotBytes(addrs, j))
  {
    var sb := SlotBytes(addrs, slot);
    var rest := LayoutFrom(addrs, slot + 1, end);
    assert LayoutFrom(addrs, slot, end) == sb + rest;
    AppendAssoc(acc, sb, rest);
    if j == slot {
      SliceOfMiddle(acc, sb, rest, 4 * j, 4 * j + 4);
      assert sb[0..4] == sb;
    } else {
      LayoutSlot(addrs, acc + sb, slot + 1, end, j);
    }
  }

  /** A run of gaps in front of slot `k` lays out as sentinel bytes. */
  lemma {:induction false} GapLayout(addrs: map<nat, nat>, slot: nat, k: nat, end: nat)
    requires slot <= k <= end
    requires forall j | slot <= j < k :: j !in addrs
    decreases k - slot
    ensures LayoutFrom(addrs, slot, end) == Fill(0xFF, 4 * (k - slot)) + LayoutFrom(addrs, k, end)
  {
    if slot < k {
      GapLayout(addrs, slot + 1, k, end);
      GapHead(addrs, slot, end);
      FillSplit(0xFF, 4, 4 * (k - slot - 1));
      assert 4 + 4 * (k - slot - 1) == 4 * (k - slot);
      Regroup(Fill(0xFF, 4), Fill(0xFF, 4 * (k - slot - 1)), LayoutFrom(addrs, k, end), Fill(0xFF, 4 * (k - slot)));
    } else {
      assert Fill(0xFF, 0) == [];
      assert [] + LayoutFrom(addrs, k, end) == LayoutFrom(addrs, k, end);
    }
  }

  /** A slot without a key lays out as sentinel bytes in front of the rest. */
  lemma GapHead(addrs: map<nat, nat>, slot: nat, end: nat)
    requires slot < end && slot !in addrs
    ensures LayoutFrom(addrs, slot, end) == Fill(0xFF, 4) + LayoutFrom(addrs, slot + 1, end)
  {
  }

  lemma Regroup<T>(x: seq<T>, y: seq<T>, z: seq<T>, xy: seq<T>)
    requires xy == x + y
    ensures x + (y + z) == xy + z
  {
  }

  /** No key lies strictly between two consecutive keys of `ks`, nor before the first. */
  ghost predicate NoKeyBetween(ks: seq<nat>, addrs: map<nat, nat>)
  {
    forall p, j | InGap(ks, p, j) :: j !in addrs
  }

  /** `j` lies below `ks[p]` and above the key before it, if any. */
  ghost predicate InGap(ks: seq<nat>, p: nat, j: nat)
  {
    p < |ks| && j < ks[p] && (p == 0 || ks[p - 1] < j)
  }

  /** The keys of a map in ascending order leave no key out. */
  lemma SortedNoKeyBetween(addrs: map<nat, nat>)
    ensures NoKeyBetween(Sorted(addrs), addrs)
  {
    var ks := Sorted(addrs);
    SortedFacts(addrs);
    forall p: nat, j: nat | InGap(ks, p, j)
      ensures j !in addrs
    {
      forall q | 0 <= q < |ks|
        ensures ks[q] != j
      {
        if p < q {
          assert ks[p] < ks[q];
        } else if q < p - 1 {
          assert ks[q] < ks[p - 1];
        }
      }
    }
  }

  /** The gaps before key `k` and the slot of `k` are the first slots of the layout from `slot`. */
  lemma StepLayout(acc: seq<Byte>, addrs: map<nat, nat>, slot: nat, k: nat, end: nat, d: U32)
    requires slot <= k < end
    requires forall j | slot <= j < k :: j !in addrs
    requires SlotBytes(addrs, k) == PackU32(d)
    ensures acc + Fill(0xFF, 4 * (k - slot)) + PackU32(d) + LayoutFrom(addrs, k + 1, end)
            == acc + LayoutFrom(addrs, slot, end)
  {
    var gap := Fill(0xFF, 4 * (k - slot));
    var rest := LayoutFrom(addrs, k + 1, end);
    GapLayout(addrs, slot, k, end);
    assert LayoutFrom(addrs, k, end) == PackU32(d) + rest;
    AppendAssoc(acc, gap, PackU32(d) + rest);
    AppendAssoc(acc + gap, PackU32(d), rest);
  }

  lemma AppendAssoc<T>(a: seq<T>, b: seq<T>, c: seq<T>)
    ensures a + (b + c) == (a + b) + c
  {
  }

  /** One step of `TableAcc` when the next key is at or beyond the cursor
      and its distance fits. */
  lemma TableAccUnfold(acc: seq<Byte>, ks: seq<nat>, pos: nat, addrs: map<nat, nat>, slot: nat)
    requires pos < |ks| && Addressed(ks, addrs) && Fits(addrs) && ks[pos] >= slot
    ensures var k := ks[pos];
            TableAcc(acc, ks, pos, addrs, slot)
            == TableAcc(acc + Fill(0xFF, 4 * (k - slot)) + PackU32(addrs[k] - SlotAddr(k)), ks, pos + 1, addrs, k + 1)
  {
  }

  /** The slot after the last one `TableAcc` writes. */
  function EndSlot(ks: seq<nat>, pos: nat, slot: nat): nat
  {
    if pos < |ks| then ks[|ks| - 1] + 1 else slot
  }

  /** What `TableAcc` has written after placing the key at `pos`. */
  function Written(acc: seq<Byte>, ks: seq<nat>, pos: nat, addrs: map<nat, nat>, slot: nat): seq<Byte>
    requires pos < |ks| && Addressed(ks, addrs) && ks[pos] >= slot
    requires 0 <= addrs[ks[pos]] - SlotAddr(ks[pos]) < 0x1_0000_0000
  {
    var k := ks[pos];
    acc + Fill(0xFF, 4 * (k - slot)) + PackU32(addrs[k] - SlotAddr(k))
  }

  /** The step of `TableAccIsLayout` from the key after `pos` back to `pos`. */
  lemma CloseStep(acc: seq<Byte>, ks: seq<nat>, pos: nat, addrs: map<nat, nat>, slot: nat)
    requires pos < |ks| && Addressed(ks, addrs) && Fits(addrs) && StrictlyAscending(ks)
    requires NoKeyBetween(ks, addrs)
    requires 0 < pos ==> ks[pos - 1] < slot
    requires ks[pos] >= slot
    requires TableAcc(Written(acc, ks, pos, addrs, slot), ks, pos + 1, addrs, ks[pos] + 1)
             == Ok(Written(acc, ks, pos, addrs, slot) + LayoutFrom(addrs, ks[pos] + 1, EndSlot(ks, pos, slot)))
    ensures TableAcc(acc, ks, pos, addrs, slot) == Ok(acc + LayoutFrom(addrs, slot, EndSlot(ks, pos, slot)))
  {
    var k := ks[pos];
    var d := addrs[k] - SlotAddr(k);
    var end := EndSlot(ks, pos, slot);
    var w := Written(acc, ks, pos, addrs, slot);
    assert w == acc + Fill(0xFF, 4 * (k - slot)) + PackU32(d);
    TableAccUnfold(acc, ks, pos, addrs, slot);
    assert TableAcc(acc, ks, pos, addrs, slot) == Ok(w + LayoutFrom(addrs, k + 1, end));
    GapBeforeKey(ks, addrs, pos, slot);
    StepLayout(acc, addrs, slot, k, end, d);
  }

  /** The slots from the cursor up to the next key hold no key. */
  lemma GapBeforeKey(ks: seq<nat>, addrs: map<nat, nat>, pos: nat, slot: nat)
    requires pos < |ks| && NoKeyBetween(ks, addrs)
    requires 0 < pos ==> ks[pos - 1] < slot
    ensures forall j | slot <= j < ks[pos] :: j !in addrs
  {
    forall j | slot <= j < ks[pos]
      ensures j !in addrs
    {
      assert InGap(ks, pos, j);
    }
  }

  /** With fitting distances and the keys still to come at or beyond the
      cursor, `TableAcc` appends exactly the intended layout of every slot
      from the cursor up to and including the slot of the last key. */
  lemma {:induction false} TableAccIsLayout(acc: seq<Byte>, ks: seq<nat>, pos: nat, addrs: map<nat, nat>, slot: nat)
    requires pos <= |ks| && Addressed(ks, addrs) && StrictlyAscending(ks) && Fits(addrs)
    requires NoKeyBetween(ks, addrs)
    requires 0 < pos <= |ks| ==> ks[pos - 1] < slot
    requires pos < |ks| ==> ks[pos] >= slot
    decreases |ks| - pos
    ensures TableAcc(acc, ks, pos, addrs, slot) == Ok(acc + LayoutFrom(addrs, slot, EndSlot(ks, pos, slot)))
  {
    if pos < |ks| {
      if pos + 1 < |ks| {
        assert ks[pos] < ks[pos + 1];
      }
      TableAccIsLayout(Written(acc, ks, pos, addrs, slot), ks, pos + 1, addrs, ks[pos] + 1);
      CloseStep(acc, ks, pos, addrs, slot);
    } else {
      assert acc + [] == acc;
    }
  }

  /** `build_table` for keys of at least 1 whose distances fit: it succeeds,
      writes 4 in slot 0, has one slot per index up to the largest key, and
      slot `j` holds the distance from its own address to bitmap `j`, or
      FF FF FF FF when there is no bitmap `j`. */
  lemma BuildTableLayout(addrs: map<nat, nat>)
    requires Fits(addrs)
    ensures BuildTable(addrs).Ok?
    ensures var t := BuildTable(addrs).value;
            && |t| == 4 * TableSlots(addrs)
            && t[..4] == PackU32(EntryWidth)
            && forall j | 1 <= j < TableSlots(addrs) :: SlotHolds(t, j, SlotBytes(addrs, j))
  {
    var ks := Sorted(addrs);
    SortedFacts(addrs);
    SortedAddressed(addrs);
    SortedNoKeyBetween(addrs);
    TableAccIsLayout(PackU32(EntryWidth), ks, 0, addrs, 1);
    var end := TableSlots(addrs);
    assert EndSlot(ks, 0, 1) == end;
    forall j | 1 <= j < end
      ensures SlotHolds(PackU32(EntryWidth) + LayoutFrom(addrs, 1, end), j, SlotBytes(addrs, j))
    {
      LayoutSlot(addrs, PackU32(EntryWidth), 1, end, j);
    }
  }

  /** A slot value looks like the start of a bitmap exactly when its low 16 bits are 0x4D42. */
  lemma MagicDistance(d: U32)
    ensures PackU32(d)[0] == ASCII_B && PackU32(d)[1] == ASCII_M <==> d % 0x1_0000 == 0x4D42
  {
    PackU32Bytes(d);
    var lo, q := d % 0x100, d / 0x100;
    var mid, hi := q % 0x100, q / 0x100;
    assert d == (lo + 0x100 * mid) + 0x1_0000 * hi;
    LowHalf(lo + 0x100 * mid, hi);
    DivMod256(lo, mid);
    DivMod256(0x42, 0x4D);
  }

  /** The low 16 bits of `r + 2^16 * h`, for `r` below 2^16. */
  lemma LowHalf(r: nat, h: nat)
    requires r < 0x1_0000
    ensures (r + 0x1_0000 * h) % 0x1_0000 == r
  {
  }

  /** No key's distance looks like "BM" when packed. */
  predicate NoMagic(addrs: map<nat, nat>)
  {
    forall k | k in addrs :: (addrs[k] - SlotAddr(k)) % 0x1_0000 != 0x4D42
  }

  /** No key's distance collides with the sentinel. */
  predicate NoSentinel(addrs: map<nat, nat>)
  {
    forall k | k in addrs :: addrs[k] - SlotAddr(k) != Sentinel
  }

  /** What decoding slot `j` gives back: the address of bitmap `j`, unless
      there is none or its distance is exactly the sentinel. */
  function ReadBack(addrs: map<nat, nat>, j: nat): Option<nat>
  {
    if j in addrs && addrs[j] - SlotAddr(j) != Sentinel then Some(addrs[j]) else None
  }

  /** The slot at `j`, holding its intended bytes, decodes to what
      `ReadBack` gives for `j`, and does not look like a bitmap. */
  lemma DecodeBuiltSlot(addrs: map<nat, nat>, data: seq<Byte>, j: nat)
    requires Fits(addrs) && (j in addrs ==> (addrs[j] - SlotAddr(j)) % 0x1_0000 != 0x4D42)
    requires |data| >= SlotAddr(j) + 4 && data[SlotAddr(j)..SlotAddr(j) + 4] == SlotBytes(addrs, j)
    ensures !IsBitmapAt(data, SlotAddr(j))
    ensures DecodeSlot(data, j) == Entry(j, ReadBack(addrs, j))
  {
    var raw := data[SlotAddr(j)..SlotAddr(j) + 4];
    assert data[SlotAddr(j)] == raw[0] && data[SlotAddr(j) + 1] == raw[1];
    SentinelBytes();
    if j in addrs {
      var d := addrs[j] - SlotAddr(j);
      PackU32RoundTrip(d, raw);
      MagicDistance(d);
    }
  }

  /** The generator yields one entry per slot from `idx` up to the slot `n`
      that starts with "BM". */
  lemma {:induction false} SlotsFromCount(data: seq<Byte>, idx: nat, n: nat)
    requires idx <= n && SlotAddr(n) + 4 <= |data| && IsBitmapAt(data, SlotAddr(n))
    requires forall j | idx <= j < n :: !IsBitmapAt(data, SlotAddr(j))
    decreases n - idx
    ensures SlotsFrom(data, idx).Ok? && |SlotsFrom(data, idx).value| == n - idx
  {
    if idx < n {
      SlotsFromCount(data, idx + 1, n);
    }
  }

  /** Every slot before `n` holding its intended bytes decodes as intended. */
  lemma DecodeBuiltSlots(data: seq<Byte>, addrs: map<nat, nat>, n: nat)
    requires Fits(addrs)
    requires forall j | 1 <= j < n :: j in addrs ==> (addrs[j] - SlotAddr(j)) % 0x1_0000 != 0x4D42
    requires SlotAddr(n) <= |data|
    requires forall j | 1 <= j < n :: data[SlotAddr(j)..SlotAddr(j) + 4] == SlotBytes(addrs, j)
    ensures forall j | 1 <= j < n ::
              !IsBitmapAt(data, SlotAddr(j)) && DecodeSlot(data, j) == Entry(j, ReadBack(addrs, j))
  {
    forall j | 1 <= j < n
      ensures !IsBitmapAt(data, SlotAddr(j)) && DecodeSlot(data, j) == Entry(j, ReadBack(addrs, j))
    {
      DecodeBuiltSlot(addrs, data, j);
    }
  }

  /** Data whose slot 0 holds 4, whose slots 1 .. n-1 hold their intended
      bytes and whose slot `n` starts with "BM" decodes to one entry per
      slot before `n`. */
  lemma ParseLaidOut(data: seq<Byte>, addrs: map<nat, nat>, n: nat)
    requires Fits(addrs) && n >= 1
    requires forall j | 1 <= j < n :: j in addrs ==> (addrs[j] - SlotAddr(j)) % 0x1_0000 != 0x4D42
    requires SlotAddr(n) + 4 <= |data| && IsBitmapAt(data, SlotAddr(n))
    requires LittleEndian(data[TableStart..TableStart + 4]) == EntryWidth
    requires forall j | 1 <= j < n :: data[SlotAddr(j)..SlotAddr(j) + 4] == SlotBytes(addrs, j)
    ensures var r := ParseTable(data);
            && r.Ok? && |r.value| == n - 1
            && forall i | 0 <= i < |r.value| :: r.value[i] == Entry(i + 1, ReadBack(addrs, i + 1))
  {
    DecodeBuiltSlots(data, addrs, n);
    DecodedSlots(data, addrs, n);
  }

  /** Slots 1 .. n-1 each decoding to their read-back entry, followed by a
      slot starting with "BM", decode together to exactly those entries. */
  lemma DecodedSlots(data: seq<Byte>, addrs: map<nat, nat>, n: nat)
    requires n >= 1 && SlotAddr(n) + 4 <= |data| && IsBitmapAt(data, SlotAddr(n))
    requires forall j | 1 <= j < n ::
               !IsBitmapAt(data, SlotAddr(j)) && DecodeSlot(data, j) == Entry(j, ReadBack(addrs, j))
    ensures var r := SlotsFrom(data, 1);
            && r.Ok? && |r.value| == n - 1
            && forall i | 0 <= i < |r.value| :: r.value[i] == Entry(i + 1, ReadBack(addrs, i + 1))
  {
    SlotsFromCount(data, 1, n);
    var r := SlotsFrom(data, 1);
    forall i | 0 <= i < |r.value|
      ensures r.value[i] == Entry(i + 1, ReadBack(addrs, i + 1))
    {
      SlotsFromAt(data, 1, i);
    }
  }

  /** The built table placed after a 128-byte header: slot 0 holds 4, every
      slot up to the last key holds its intended bytes, and what follows the
      table starts right after its last slot. */
  lemma PlacedTable(addrs: map<nat, nat>, header: seq<Byte>, tail: seq<Byte>)
    requires Fits(addrs) && |header| == TableStart
    ensures BuildTable(addrs).Ok?
    ensures var data := header + BuildTable(addrs).value + tail; var n := TableSlots(addrs);
            && |data| == SlotAddr(n) + |tail|
            && LittleEndian(data[TableStart..TableStart + 4]) == EntryWidth
            && (forall j | 1 <= j < n :: data[SlotAddr(j)..SlotAddr(j) + 4] == SlotBytes(addrs, j))
            && (forall i | 0 <= i < |tail| :: data[SlotAddr(n) + i] == tail[i])
  {
    BuildTableLayout(addrs);
    var t := BuildTable(addrs).value;
    var data := header + t + tail;
    SliceOfMiddle(header, t, tail, TableStart, TableStart + 4);
    PackU32RoundTrip(EntryWidth, data[TableStart..TableStart + 4]);
    forall j | 1 <= j < TableSlots(addrs)
      ensures data[SlotAddr(j)..SlotAddr(j) + 4] == SlotBytes(addrs, j)
    {
      assert SlotHolds(t, j, SlotBytes(addrs, j));
      SliceOfMiddle(header, t, tail, SlotAddr(j), SlotAddr(j) + 4);
    }
  }

  /** A table built from fitting addresses, none of whose distances looks
      like "BM", placed after a 128-byte header and followed directly by a
      bitmap, decodes to exactly one entry per slot: each index with what
      `ReadBack` gives for it. */
  lemma ParseBuiltTable(addrs: map<nat, nat>, header: seq<Byte>, tail: seq<Byte>)
    requires Fits(addrs) && NoMagic(addrs)
    requires |header| == TableStart && |tail| >= 4 && tail[0] == ASCII_B && tail[1] == ASCII_M
    ensures BuildTable(addrs).Ok?
    ensures var r := ParseTable(header + BuildTable(addrs).value + tail);
            && r.Ok? && |r.value| == TableSlots(addrs) - 1
            && forall i | 0 <= i < |r.value| :: r.value[i] == Entry(i + 1, ReadBack(addrs, i + 1))
  {
    PlacedTable(addrs, header, tail);
    var data := header + BuildTable(addrs).value + tail;
    var n := TableSlots(addrs);
    assert data[SlotAddr(n)] == tail[0] && data[SlotAddr(n) + 1] == tail[1];
    ParseLaidOut(data, addrs, n);
  }

  /** Round trip: with no distance colliding with the sentinel either, every
      key comes back with its address, every gap with none, and nothing else. */
  lemma TableRoundTrip(addrs: map<nat, nat>, header: seq<Byte>, tail: seq<Byte>)
    requires Fits(addrs) && NoMagic(addrs) && NoSentinel(addrs)
    requires |header| == TableStart && |tail| >= 4 && tail[0] == ASCII_B && tail[1] == ASCII_M
    ensures BuildTable(addrs).Ok?
    ensures var r := ParseTable(header + BuildTable(addrs).value + tail);
            && r.Ok?
            && (forall i | 0 <= i < |r.value| :: r.value[i] == Entry(i + 1, Lookup(addrs, i + 1)))
            && (forall k | k in addrs :: 1 <= k <= |r.value|)
            && (|addrs| > 0 ==> |r.value| == MaxKey(addrs))
  {
    ParseBuiltTable(addrs, header, tail);
    TableSlotsIsMaxKey(addrs);
  }

  /** Quirk: a key whose distance is exactly 0xFFFFFFFF is written, but its
      slot reads back as empty. */
  lemma SentinelDistanceReadsEmpty(addrs: map<nat, nat>, header: seq<Byte>, tail: seq<Byte>, k: nat)
    requires Fits(addrs) && NoMagic(addrs)
    requires |header| == TableStart && |tail| >= 4 && tail[0] == ASCII_B && tail[1] == ASCII_M
    requires k in addrs && addrs[k] - SlotAddr(k) == Sentinel
    ensures BuildTable(addrs).Ok?
    ensures var r := ParseTable(header + BuildTable(addrs).value + tail);
            r.Ok? && 1 <= k <= |r.value| && r.value[k - 1] == Entry(k, None)
  {
    ParseBuiltTable(addrs, header, tail);
    TableSlotsIsMaxKey(addrs);
  }

  /** Quirk: a key whose distance has 0x4D42 as its low 16 bits is packed as
      "BM..", and decoding stops at its slot as if the table ended there:
      only the slots before it come back. */
  lemma MagicDistanceEndsTable(addrs: map<nat, nat>, header: seq<Byte>, tail: seq<Byte>, k: nat)
    requires Fits(addrs) && |header| == TableStart
    requires k in addrs && (addrs[k] - SlotAddr(k)) % 0x1_0000 == 0x4D42
    requires forall j | j in addrs && j < k :: (addrs[j] - SlotAddr(j)) % 0x1_0000 != 0x4D42
    ensures BuildTable(addrs).Ok?
    ensures var r := ParseTable(header + BuildTable(addrs).value + tail);
            && r.Ok? && |r.value| == k - 1
            && forall i | 0 <= i < |r.value| :: r.value[i] == Entry(i + 1, ReadBack(addrs, i + 1))
  {
    PlacedTable(addrs, header, tail);
    KeyBelowTableSlots(addrs, k);
    var data := header + BuildTable(addrs).value + tail;
    MagicSlot(data, addrs, k);
    assert forall j | 1 <= j < k :: data[SlotAddr(j)..SlotAddr(j) + 4] == SlotBytes(addrs, j);
    ParseLaidOut(data, addrs, k);
  }

  /** A slot holding the packed distance of a key whose low 16 bits are
      0x4D42 starts with "BM". */
  lemma MagicSlot(data: seq<Byte>, addrs: map<nat, nat>, k: nat)
    requires Fits(addrs) && k in addrs && (addrs[k] - SlotAddr(k)) % 0x1_0000 == 0x4D42
    requires SlotAddr(k) + 4 <= |data| && data[SlotAddr(k)..SlotAddr(k) + 4] == SlotBytes(addrs, k)
    ensures IsBitmapAt(data, SlotAddr(k))
  {
    var raw := data[SlotAddr(k)..SlotAddr(k) + 4];
    assert raw == PackU32(addrs[k] - SlotAddr(k));
    MagicDistance(addrs[k] - SlotAddr(k));
    assert data[SlotAddr(k)] == raw[0] && data[SlotAddr(k) + 1] == raw[1];
  }

  /** A table that packs has every distance in range, as long as every key
      has its own slot (key 0 would share slot 1). */
  lemma {:induction false} TableAccFits(acc: seq<Byte>, ks: seq<nat>, pos: nat, addrs: map<nat, nat>, slot: nat)
    requires pos <= |ks| && Addressed(ks, addrs) && StrictlyAscending(ks)
    requires pos < |ks| ==> slot <= ks[pos]
    requires TableAcc(acc, ks, pos, addrs, slot).Ok?
    ensures forall j | pos <= j < |ks| :: SlotAddr(ks[j]) <= addrs[ks[j]] < SlotAddr(ks[j]) + 0x1_0000_0000
    decreases |ks| - pos
  {
    if pos < |ks| {
      var k := ks[pos];
      var d := addrs[k] - SlotAddr(k);
      assert Reach(k, slot) == k;
      assert 0 <= d < 0x1_0000_0000;
      var next := acc + Fill(0xFF, 4 * (k - slot)) + PackU32(d);
      if pos + 1 < |ks| {
        assert ks[pos] < ks[pos + 1];
      }
      TableAccFits(next, ks, pos + 1, addrs, k + 1);
    }
  }

  /** `struct.pack("<I", ...)` refuses exactly the distances that are
      negative or 2^32 and above: with every key at least 1, `build_table`
      succeeds exactly when every address lies within 2^32 bytes from its
      slot on. */
  lemma BuildTableSucceeds(addrs: map<nat, nat>)
    requires forall k | k in addrs :: k >= 1
    ensures BuildTable(addrs).Ok? <==> Fits(addrs)
  {
    if Fits(addrs) {
      BuildTableLayout(addrs);
    }
    if BuildTable(addrs).Ok? {
      var ks := Sorted(addrs);
      SortedFacts(addrs);
      SortedAddressed(addrs);
      if |ks| > 0 {
        assert ks[0] in addrs;
      }
      TableAccFits(PackU32(EntryWidth), ks, 0, addrs, 1);
      forall k | k in addrs
        ensures 1 <= k && SlotAddr(k) <= addrs[k] < SlotAddr(k) + 0x1_0000_0000
      {
        assert k in ks;
        var j :| 0 <= j < |ks| && ks[j] == k;
      }
    }
  }
}
