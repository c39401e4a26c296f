/** The self-terminating table of relative offsets at 0x80: slot 0 holds the
    entry width 4, slot i (i >= 1) holds either 0xFFFFFFFF (no bitmap i) or
    the distance from the slot's own address to bitmap i. Decoding stops at the
    first slot whose first two raw bytes are "BM". */
module OffsetTable {
  import opened Errors
  import opened Bytes
  import opened SortedKeys

  const TableStart: nat := 0x80
  const EntryWidth: nat := 4
  const Sentinel: nat := 0xFFFF_FFFF

  /** Absolute address of table slot `idx`. */
  function SlotAddr(idx: nat): nat
  {
    TableStart + 4 * idx
  }

  /** The cursor arithmetic of `build_table`: `(offset - 0x80) // 4` recovers the slot. */
  lemma SlotOfAddr(slot: nat)
    ensures SlotAddr(slot) >= TableStart && (SlotAddr(slot) - TableStart) % 4 == 0
    ensures (SlotAddr(slot) - TableStart) / 4 == slot
  {
  }

  /** One decoded slot: its index and the absolute address it designates, if any. */
  datatype Entry = Entry(index: nat, addr: Option<nat>)

  function Lookup(m: map<nat, nat>, k: nat): Option<nat>
  {
    if k in m then Some(m[k]) else None
  }

  /** Prefixes a successful result; a failure passes through. */
  function Prepend<T>(prefix: seq<T>, r: Result<seq<T>>): Result<seq<T>>
  {
    match r
    case Ok(rest) => Ok(prefix + rest)
    case Err(e) => Err(e)
  }

  // ---------------------------------------------------------------- encoding

  /** All keys have an address. */
  predicate Addressed(ks: seq<nat>, addrs: map<nat, nat>)
  {
    forall j | 0 <= j < |ks| :: ks[j] in addrs
  }

  /** The slot the cursor reaches for a key: the key's own slot, or the
      cursor's slot when the key lies behind it. */
  function Reach(k: nat, slot: nat): nat
  {
    if k > slot then k else slot
  }

  /** `build_table` from the key at `pos` on, with `acc` written so far and
      the cursor at slot `slot`: gap slots of FF FF FF FF up to the key, then
      the packed distance from that slot to the key's address. */
  function TableAcc(acc: seq<Byte>, ks: seq<nat>, pos: nat, addrs: map<nat, nat>, slot: nat): Result<seq<Byte>>
    requires pos <= |ks| && Addressed(ks, addrs)
    decreases |ks| - pos
  {
    if pos == |ks| then Ok(acc)
    else
      var s := Reach(ks[pos], slot);
      var d := addrs[ks[pos]] - SlotAddr(s);
      if d < 0 || d >= 0x1_0000_0000 then Err(OffsetOutOfRange)
      else TableAcc(acc + Fill(0xFF, 4 * (s - slot)) + PackU32(d), ks, pos + 1, addrs, s + 1)
  }

  /** What is written is never taken back, and the only failure is a distance
      that does not fit. */
  lemma {:induction false} TableAccKeeps(acc: seq<Byte>, ks: seq<nat>, pos: nat, addrs: map<nat, nat>, slot: nat)
    requires pos <= |ks| && Addressed(ks, addrs)
    decreases |ks| - pos
    ensures var r := TableAcc(acc, ks, pos, addrs, slot);
            && (r.Ok? ==> |r.value| >= |acc| && r.value[..|acc|] == acc)
            && (r.Err? ==> r.error == OffsetOutOfRange)
  {
    if pos < |ks| {
      var s := Reach(ks[pos], slot);
      var d := addrs[ks[pos]] - SlotAddr(s);
      if 0 <= d < 0x1_0000_0000 {
        var next := acc + Fill(0xFF, 4 * (s - slot)) + PackU32(d);
        TableAccKeeps(next, ks, pos + 1, addrs, s + 1);
        var r := TableAcc(next, ks, pos + 1, addrs, s + 1);
        if r.Ok? {
          assert r.value[..|acc|] == next[..|acc|];
        }
      }
    }
  }

  /** `build_table(table)` with `table[k]["addr"]` given as `addrs[k]`: the
      width slot 4, then one slot per key in ascending order. A distance that
      does not fit an unsigned 32-bit slot makes `struct.pack` fail. */
  function BuildTable(addrs: map<nat, nat>): (r: Result<seq<Byte>>)
    ensures r.Ok? ==> |r.value| >= 4 && r.value[..4] == PackU32(EntryWidth)
    ensures r.Err? ==> r.error == OffsetOutOfRange
  {
    var ks := Sorted(addrs);
    SortedAddressed(addrs);
    TableAccKeeps(PackU32(EntryWidth), ks, 0, addrs, 1);
    TableAcc(PackU32(EntryWidth), ks, 0, addrs, 1)
  }

  lemma PrependTwice<T>(a: seq<T>, b: seq<T>, r: Result<seq<T>>)
    ensures Prepend(a, Prepend(b, r)) == Prepend(a + b, r)
  {
    if r.Ok? {
      assert a + (b + r.value) == (a + b) + r.value;
    }
  }

  lemma FillSplit(b: Byte, n: nat, m: nat)
    ensures Fill(b, n + m) == Fill(b, n) + Fill(b, m)
  {
    assert forall i | 0 <= i < n + m :: Fill(b, n + m)[i] == (Fill(b, n) + Fill(b, m))[i];
  }

  /** The inner `while` of `build_table`: sentinel slots are appended while
      the cursor `offset`, standing at slot `slot`, is before the slot of key `k`. */
  method PadGaps(tableB: seq<Byte>, k: nat, offset: nat, ghost slot: nat) returns (padded: seq<Byte>, next: nat)
    requires offset == SlotAddr(slot)
    ensures padded == tableB + Fill(0xFF, 4 * (Reach(k, slot) - slot))
    ensures next == SlotAddr(Reach(k, slot))
  {
    padded, next := tableB, offset;
    ghost var cur := slot;
    SlotOfAddr(cur);
    while k - (next - TableStart) / 4 > 0
      invariant next == SlotAddr(cur) && (next - TableStart) / 4 == cur
      invariant slot <= cur <= Reach(k, slot)
      invariant padded == tableB + Fill(0xFF, 4 * (cur - slot))
      decreases k as int - cur
    {
      FillSplit(0xFF, 4 * (cur - slot), 4);
      padded := padded + Fill(0xFF, 4);
      next := next + 4;
      cur := cur + 1;
      SlotOfAddr(cur);
    }
  }

  /** `build_table` as written: a loop over the sorted keys that pads gaps
      with sentinel slots, then packs the distance from the cursor to the
      key's address. */
  method BuildTableLoop(addrs: map<nat, nat>) returns (r: Result<seq<Byte>>)
    ensures r == BuildTable(addrs)
  {
    var tableB := PackU32(EntryWidth);
    var offset := TableStart + 4;
    ghost var slot := 1;
    var keys := Sorted(addrs);
    SortedAddressed(addrs);
    ghost var goal := TableAcc(tableB, keys, 0, addrs, 1);
    for i := 0 to |keys|
      invariant offset == SlotAddr(slot)
      invariant TableAcc(tableB, keys, i, addrs, slot) == goal
    {
      var k := keys[i];
      tableB, offset := PadGaps(tableB, k, offset, slot);
      slot := Reach(k, slot);
      var d: int := addrs[k] - offset;
      if d < 0 || d >= 0x1_0000_0000 {
        return Err(OffsetOutOfRange);
      }
      tableB := tableB + PackU32(d);
      offset := offset + 4;
      slot := slot + 1;
    }
    return Ok(tableB);
  }

  lemma SortedAddressed(addrs: map<nat, nat>)
    ensures Addressed(Sorted(addrs), addrs)
  {
    SortedFacts(addrs);
  }

  // ---------------------------------------------------------------- decoding

  /** Python `data[a:a + 2] == b"BM"`. */
  predicate IsBitmapAt(data: seq<Byte>, a: nat)
  {
    a + 2 <= |data| && data[a] == ASCII_B && data[a + 1] == ASCII_M
  }

  /** What the generator yields for the complete slot `idx`. */
  function DecodeSlot(data: seq<Byte>, idx: nat): (e: Entry)
    requires SlotAddr(idx) + 4 <= |data|
  {
    var a := SlotAddr(idx);
    var v := LittleEndian(data[a..a + 4]);
    if v == Sentinel then Entry(idx, None) else Entry(idx, Some(a + v))
  }

  /** A slot is empty exactly when its raw bytes are FF FF FF FF, whatever its
      address; otherwise it designates its own address plus its value. */
  lemma DecodeSlotMeaning(data: seq<Byte>, idx: nat)
    requires SlotAddr(idx) + 4 <= |data|
    ensures var e := DecodeSlot(data, idx); var raw := data[SlotAddr(idx)..SlotAddr(idx) + 4];
            && e.index == idx
            && (e.addr.None? <==> raw == Fill(0xFF, 4))
            && (e.addr.Some? ==> e.addr.value == SlotAddr(idx) + LittleEndian(raw))
  {
    var raw := data[SlotAddr(idx)..SlotAddr(idx) + 4];
    SentinelBytes();
    PackU32RoundTrip(0, raw);
  }

  /** The entries the generator yields from slot `idx` on: it stops silently
      when the data runs out on a slot boundary or when the slot starts with
      "BM"; a slot cut short by the end of the data cannot be unpacked. */
  function SlotsFrom(data: seq<Byte>, idx: nat): (r: Result<seq<Entry>>)
    decreases |data| - SlotAddr(idx)
    ensures r.Err? ==> r.error == TruncatedSlot
  {
    var a := SlotAddr(idx);
    if a >= |data| then Ok([])
    else if a + 4 > |data| then Err(TruncatedSlot)
    else if IsBitmapAt(data, a) then Ok([])
    else Prepend([DecodeSlot(data, idx)], SlotsFrom(data, idx + 1))
  }

  /** Entry `e` is what the complete, non-"BM" slot `idx` decodes to. */
  predicate DecodedAt(data: seq<Byte>, idx: nat, e: Entry)
  {
    SlotAddr(idx) + 4 <= |data| && !IsBitmapAt(data, SlotAddr(idx)) && e == DecodeSlot(data, idx)
  }

  /** Where decoding stopped: the data ends there or holds a complete slot starting with "BM". */
  predicate StopsAt(data: seq<Byte>, idx: nat)
  {
    SlotAddr(idx) >= |data| || (SlotAddr(idx) + 4 <= |data| && IsBitmapAt(data, SlotAddr(idx)))
  }

  /** Entry `i` of the entries decoded from slot `idx` on is slot `idx + i`
      decoded on its own, and that slot does not start with "BM". */
  lemma {:induction false} SlotsFromAt(data: seq<Byte>, idx: nat, i: nat)
    decreases i
    ensures var r := SlotsFrom(data, idx);
            r.Ok? && i < |r.value| ==> DecodedAt(data, idx + i, r.value[i])
  {
    var a := SlotAddr(idx);
    if i > 0 && a < |data| && a + 4 <= |data| && !IsBitmapAt(data, a) {
      SlotsFromAt(data, idx + 1, i - 1);
      assert idx + i == (idx + 1) + (i - 1);
    }
  }

  /** Right after the decoded entries the data ends or holds a complete slot starting with "BM". */
  lemma {:induction false} SlotsFromStops(data: seq<Byte>, idx: nat)
    decreases |data| - SlotAddr(idx)
    ensures var r := SlotsFrom(data, idx);
            r.Ok? ==> StopsAt(data, idx + |r.value|)
  {
    var a := SlotAddr(idx);
    if a < |data| && a + 4 <= |data| && !IsBitmapAt(data, a) {
      SlotsFromStops(data, idx + 1);
      var rest := SlotsFrom(data, idx + 1);
      if rest.Ok? {
        assert SlotsFrom(data, idx) == Ok([DecodeSlot(data, idx)] + rest.value);
        assert idx + 1 + |rest.value| == idx + |SlotsFrom(data, idx).value|;
      }
    }
  }

  /** The decoded entries are the consecutive slots from `idx` on, none of
      them starting with "BM", each decoded on its own; right after them the
      data either ends or holds a complete slot starting with "BM". */
  lemma SlotsFromMeaning(data: seq<Byte>, idx: nat)
    ensures var r := SlotsFrom(data, idx);
            r.Ok? ==> (forall i | 0 <= i < |r.value| :: DecodedAt(data, idx + i, r.value[i]))
                      && StopsAt(data, idx + |r.value|)
  {
    forall i: nat {
      SlotsFromAt(data, idx, i);
    }
    SlotsFromStops(data, idx);
  }

  /** `parse_bitmap_table(data)`, all of it consumed (as `list(...)` does):
      slot 0 must exist and hold 4, then the entries from index 1 on. */
  function ParseTable(data: seq<Byte>): (r: Result<seq<Entry>>)
    ensures |data| <= TableStart ==> r == Err(TableMissing)
    ensures |data| >= TableStart + 4 && LittleEndian(data[TableStart..TableStart + 4]) != EntryWidth
            ==> r == Err(TableWidthMismatch)
    ensures r.Ok? ==> |data| >= TableStart + 4 && LittleEndian(data[TableStart..TableStart + 4]) == EntryWidth
    ensures r.Ok? ==> forall i | 0 <= i < |r.value| :: r.value[i].index == i + 1
  {
    if |data| <= TableStart then Err(TableMissing)
    else if |data| < TableStart + 4 then Err(TruncatedSlot)
    else if LittleEndian(data[TableStart..TableStart + 4]) != EntryWidth then Err(TableWidthMismatch)
    else
      SlotsFromMeaning(data, 1);
      SlotsFrom(data, 1)
  }

  /** The table is refused only for a missing table, a cut slot or a wrong width. */
  lemma ParseTableErrors(data: seq<Byte>)
    ensures var r := ParseTable(data);
            r.Err? ==> r.error == TableMissing || r.error == TruncatedSlot || r.error == TableWidthMismatch
  {
  }

  /** `parse_bitmap_table` as written: walk the slots, stop at "BM". */
  method ParseBitmapTable(data: seq<Byte>) returns (r: Result<seq<Entry>>)
    ensures r == ParseTable(data)
  {
    if |data| <= TableStart {
      return Err(TableMissing);
    }
    if |data| < TableStart + 4 {
      return Err(TruncatedSlot);
    }
    var byteLength := LittleEndian(data[TableStart..TableStart + 4]);
    if byteLength != EntryWidth {
      return Err(TableWidthMismatch);
    }
    var entries: seq<Entry> := [];
    var idx := 1;
    ghost var goal := SlotsFrom(data, 1);
    assert ParseTable(data) == goal;
    PrependEmpty(goal);
    while SlotAddr(idx) < |data|
      invariant Prepend(entries, SlotsFrom(data, idx)) == goal
      decreases |data| - SlotAddr(idx)
    {
      var tAddr := idx * 4 + TableStart;
      if tAddr + 4 > |data| {
        return Err(TruncatedSlot);
      }
      var bOffset := LittleEndian(data[tAddr..tAddr + 4]);
      if data[tAddr] == ASCII_B && data[tAddr + 1] == ASCII_M {
        assert entries + [] == entries;
        return Ok(entries);
      }
      var e := if bOffset != Sentinel then Entry(idx, Some(tAddr + bOffset)) else Entry(idx, None);
      assert e == DecodeSlot(data, idx);
      PrependTwice(entries, [e], SlotsFrom(data, idx + 1));
      entries := entries + [e];
      idx := idx + 1;
    }
    assert entries + [] == entries;
    return Ok(entries);
  }

  lemma PrependEmpty<T>(r: Result<seq<T>>)
    ensures Prepend([], r) == r
  {
    if r.Ok? {
      assert [] + r.value == r.value;
    }
  }
}
