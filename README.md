# Brother PD3 colour-table container, modelled in Dafny

This project models the container codec of `brother-pd3-modifier`, a tool that
takes apart and rebuilds the PD3 "colour table" files of Brother devices. A
container is laid out in this order:

- a fixed 128-byte header (`BD3Header`: magic, device byte, type, reserved
  bytes, a 16-bit checksum, the body size, a table name, a version name);
- at 0x80, a self-terminating table of 32-bit little-endian slots. Slot 0 holds
  4. Slot `i` holds the distance from the slot to bitmap `i`, or FF FF FF FF
  when there is no bitmap `i`. The table ends where the next slot starts with
  "BM";
- a chain of "BM" bitmap blobs, each declaring its own length in bytes 2..6;
- 0xFF padding;
- the version number in decimal as the last bytes.

The model covers these operations:

- decoding and re-encoding the header and its derived views;
- the checksum;
- the table encoder (`build_table`) and decoder (`parse_bitmap_table`);
- the chain walk (`check_bitmap_chain`, `_read_bmp_filesize`,
  `find_next_block`);
- the ordered fail-fast checks of `verify_header`, `verify_body` and
  `verify_file`;
- the byte work of the two commands that extract a container into parts
  (`cmd_extract`) and combine parts into a container (`cmd_combine`).

Python exceptions become `Err`/`Fail` values of one `Error` type (errors.dfy).
Python's unbounded integers stay unbounded. `struct.pack` range errors, the
`bytes`-versus-`int` device comparison, the prefix-only regular expression and
the unpadded version string are all written out.

The source's loops are methods, each proved equal to a specification function:

- `build_table`;
- `parse_bitmap_table`;
- `check_bitmap_chain`;
- `find_next_block`;
- `read_null_str`;
- the address loop of `cmd_combine`;
- the table loop of `cmd_extract`.

The properties are lemmas about those functions. The largest of them,
`RoundTrip.RebuiltFileVerifies`, joins the two sides. It states the conditions
under which `verify_file` accepts a file that `cmd_combine` writes:

- every bitmap has a sized table entry;
- the table is as long as the largest bitmap index;
- every bitmap declares its own length;
- the distances fit and avoid "BM" and the sentinel;
- there is room for the content;
- the version has three digits.

Under the same conditions `RoundTrip.RebuiltExtracts` shows that the model of
`cmd_extract` takes such a file apart into the loaded header (with the new
checksum), a table of the same length and the bitmaps, each under its own
index. Then `RoundTrip.ExtractThenCombine` shows that `cmd_combine` on those
parts writes the same bytes again. In the program both hold only when PIL
opens every bitmap (see "Left out").

Files (one module each):

| file | module | covers |
|---|---|---|
| errors.dfy | `Errors` | error kinds, `Option`, `Result`, `Outcome` |
| bytes.dfy | `Bytes` | byte strings, Python slicing, little-endian packing, sums, decimal text |
| keys.dfy | `SortedKeys` | `sorted(dict)` over natural-number keys |
| header.dfy | `HeaderCodec` | `BD3Header`, `read_null_str` |
| checksum.dfy | `Checksum` | `calc_checksum` |
| offset_table.dfy | `OffsetTable` | `build_table`, `parse_bitmap_table` |
| table_layout.dfy | `TableLayout` | what the encoder lays out and the round trip through the decoder |
| chain.dfy | `BitmapChain` | `_read_bmp_filesize`, `find_next_block`, `check_bitmap_chain` |
| verify.dfy | `FileCheck` | `verify_header`, `verify_body`, `verify_file` |
| rebuild.dfy | `Rebuild` | the assembly part of `cmd_combine` |
| extract.dfy | `Extract` | the table and blob slicing of `cmd_extract` |
| roundtrip.dfy | `RoundTrip` | a file written by `cmd_combine` passes `verify_file`, extracts into its parts, and combines back into the same bytes |

`analyze_lib.py` and `libs/analyze_lib.py` are identical; the citations below
use `analyze_lib.py`.

Where the code and the format's documentation disagree, this model follows the
code. The six reserved bytes after the type field sit at offset 0x08, as the
struct format `<3sc4s6sHI12s32s32s32s` places them, though the field is named
`_x14_res0`. The model reads them at 0x08.

## Model

| member | source | states |
|---|---|---|
| HeaderCodec.FromBytes | analyze_lib.py:30-36 | input shorter than 128 bytes is refused with "Insufficient size" and nothing else is |
| HeaderCodec.ToBytes | analyze_lib.py:38-39 | packing a header gives exactly 128 bytes |
| HeaderCodec.ToBytesRoundTrip | analyze_lib.py:29-39 | unpacking a packed header gives back the same record, reserved fields included |
| HeaderCodec.HeaderRoundTrip | analyze_lib.py:29-39 | for input of at least 128 bytes, `to_bytes(from_bytes(d)) == d[0:128]` |
| HeaderCodec.NullStr | analyze_lib.py:88-92 | the bytes before the first 0x00; the empty string when the field has no 0x00 at all |
| HeaderCodec.ReadNullStr | analyze_lib.py:88-92 | the index loop returns exactly `NullStr` |
| HeaderCodec.DecodeAscii | analyze_lib.py:45-51 | `.decode("ascii")` succeeds exactly when every byte is below 0x80, keeping the bytes; otherwise it fails |
| HeaderCodec.TableName | analyze_lib.py:49-51 | the table name is the field up to its first 0x00; it fails with a non-ASCII error exactly when one of those bytes is 0x80 or above |
| HeaderCodec.VersionName | analyze_lib.py:45-47 | the version name is the field up to its first 0x00; it fails with a non-ASCII error exactly when one of those bytes is 0x80 or above |
| HeaderCodec.Version | analyze_lib.py:41-43 | a version exists only when the version name decodes and is long enough to slice |
| HeaderCodec.FileSize | analyze_lib.py:53-55 | the announced file size is the stored size plus 0x80, so at least 128 |
| HeaderCodec.VersionOfName | analyze_lib.py:41-47 | a version name that decodes, has at least five characters and digits at 1..4 yields the value of those four digits, whatever follows its 0x00 |
| HeaderCodec.HeaderFieldOffsets | analyze_lib.py:16-47 | the checksum is read little-endian at 0x0E and the size at 0x10; when the version name decodes and its 0x00 comes after 0x44, the version is the value of the digits at 0x41..0x44 |
| Bytes.Fill | modify_color.py:150 | `b"\xff" * n` has `n` bytes, all 0xFF, and none for a negative `n` |
| Bytes.Drop | analyze_lib.py:143 | `data[n:]` is the suffix from `n`, empty past the end |
| Bytes.LittleEndian | analyze_lib.py:77 | `int.from_bytes(s, "little", signed=False)` of `n` bytes is below 256^n |
| Bytes.PackU32 | analyze_lib.py:59 | `struct.pack("<I", v)` is four bytes |
| Bytes.Slice | modify_color.py:97 | `data[lo:hi]` is the exact slice within bounds, the suffix from `lo` when `hi` is past the end, empty when `hi <= lo`, and never longer than the data |
| Bytes.PackU32Bytes | analyze_lib.py:67 | `struct.pack("<I", v)` writes the four bytes of `v`, least significant first |
| Bytes.PackU16RoundTrip | analyze_lib.py:29-39 | the `H` field unpacks to what was packed, and packs back to the same two bytes |
| Bytes.PackU32RoundTrip | analyze_lib.py:29-39 | the `I` field unpacks to what was packed, and packs back to the same four bytes |
| Bytes.SentinelBytes | analyze_lib.py:127-131 | the empty-slot sentinel 0xFFFFFFFF is the bytes FF FF FF FF |
| Bytes.SumAppend | analyze_lib.py:100-101 | the byte sum of a concatenation is the sum of the parts' sums |
| Bytes.IndexOf | analyze_lib.py:88-92 | the first position holding the byte, or none when no position holds it |
| Bytes.IndexOfOther | analyze_lib.py:94-98 | the first position not holding the byte, or none when every position holds it |
| Bytes.ParseDecimal | analyze_lib.py:191 | `int()` of the text succeeds exactly on a non-empty string of digits |
| Bytes.DecimalString | modify_color.py:149 | `str(n)` is a non-empty digit string |
| Bytes.DecimalRoundTrip | modify_color.py:149-150 | parsing `str(n)` gives back `n` |
| Bytes.DecimalLength | modify_color.py:149 | `str(n)` has exactly three characters for 100..999 and at most two below 100 |
| Checksum.ChecksumSkipsHeader | modify_color.py:155-156 | behind a 128-byte header, the checksum from 0x80 equals the checksum of the body from 0 |
| Checksum.ChecksumConcat | analyze_lib.py:100-101 | the checksum of a concatenation is the 16-bit truncated sum of the parts' checksums |
| Checksum.CalcChecksum | analyze_lib.py:100-101 | the sum of the bytes from `offset` on, truncated to 16 bits; 0 when `offset` is at or past the end |
| SortedKeys.SortedFacts | analyze_lib.py:62 | `sorted(d)` lists every key once, strictly ascending, and nothing else |
| SortedKeys.Sorted | analyze_lib.py:62 | `sorted(d)` is empty exactly when the dictionary is |
| SortedKeys.MaxKey | analyze_lib.py:62-70 | the largest key is a key and no key exceeds it |
| SortedKeys.AscendingUnique | analyze_lib.py:62 | two strictly ascending lists of the same keys are equal |
| SortedKeys.SortedSameKeys | modify_color.py:134-143 | dictionaries with the same keys sort alike, whatever their values |
| OffsetTable.SlotOfAddr | analyze_lib.py:63 | `(offset - 0x80) // 4` recovers the slot from its address |
| OffsetTable.TableAccKeeps | analyze_lib.py:57-70 | bytes once appended are kept, and the only failure is a distance that does not pack |
| OffsetTable.BuildTable | analyze_lib.py:57-70 | a built table starts with LE 4; the only failure is an out-of-range distance |
| OffsetTable.PadGaps | analyze_lib.py:63-65 | the inner `while` appends one FF FF FF FF per skipped slot and moves the cursor to the key's slot |
| OffsetTable.BuildTableLoop | analyze_lib.py:57-70 | the loop returns exactly `BuildTable` |
| OffsetTable.DecodeSlotMeaning | analyze_lib.py:114-131 | a slot decodes to none exactly when its raw bytes are FF FF FF FF, and otherwise to its address plus its value |
| OffsetTable.SlotsFromMeaning | analyze_lib.py:121-131 | the entries are the consecutive slots, none starting with "BM", each decoded on its own; after them the data ends or a slot starts with "BM" |
| OffsetTable.ParseTable | analyze_lib.py:103-131 | no table gives a missing-table failure, slot 0 other than 4 gives a width failure, and entries are numbered 1, 2, ... |
| OffsetTable.ParseTableErrors | analyze_lib.py:114-121 | the only failures are a missing table, a cut slot and a wrong width |
| OffsetTable.ParseBitmapTable | analyze_lib.py:103-131 | the generator walk returns exactly `ParseTable` |
| TableLayout.TableSlotsIsMaxKey | analyze_lib.py:57-70 | the table has one slot more than the largest key, or only slot 0 without keys |
| TableLayout.TableAccIsLayout | analyze_lib.py:62-68 | from any cursor, the loop appends exactly the intended slots up to the last key |
| TableLayout.BuildTableLayout | analyze_lib.py:57-70 | for keys of at least 1 whose distances fit, the table is LE 4 plus one slot per index up to the largest key: the packed distance for a key, FF FF FF FF for a gap |
| TableLayout.BuildTableSucceeds | analyze_lib.py:67 | for keys of at least 1, `build_table` succeeds exactly when every distance lies in [0, 2^32) |
| TableLayout.MagicDistance | analyze_lib.py:121-125 | a packed distance starts with "BM" exactly when its low 16 bits are 0x4D42 |
| TableLayout.DecodeBuiltSlot | analyze_lib.py:121-131 | a slot holding its intended bytes is not "BM" and decodes to its key's address or to none |
| TableLayout.ParseLaidOut | analyze_lib.py:103-131 | intended slots followed by a "BM" slot decode to one entry per slot |
| TableLayout.PlacedTable | analyze_lib.py:57-70 | behind a 128-byte header, slot 0 holds 4 and every slot holds its intended bytes |
| TableLayout.ParseBuiltTable | analyze_lib.py:103-131 | a built table followed by "BM" decodes to one entry per slot, each read back as built |
| TableLayout.TableRoundTrip | analyze_lib.py:103-131 | round trip: each key comes back with its address, each gap with none, every key is within the decoded range, and the table decodes to as many entries as the largest key |
| TableLayout.SentinelDistanceReadsEmpty | analyze_lib.py:127-131 | a key whose distance is exactly 0xFFFFFFFF is written but reads back as empty |
| TableLayout.MagicDistanceEndsTable | analyze_lib.py:121-125 | a distance whose low 16 bits are 0x4D42 ends the decoded table before its key |
| BitmapChain.ReadBmpFilesize | analyze_lib.py:72-78 | refuses exactly the data not starting with "BM"; otherwise it is the unsigned LE value of `data[2:6]`, however few of those bytes exist, and below 2^32 |
| BitmapChain.FindNextBlock | analyze_lib.py:94-98 | the loop returns the first byte other than 0xFF, or none when all are 0xFF, empty input included |
| BitmapChain.ChainFrom | analyze_lib.py:133-163 | the walk fails only with a list index error or a location mismatch |
| BitmapChain.CheckBitmapChain | analyze_lib.py:133-163 | the `while True` loop returns exactly `ChainFrom` from the start address |
| BitmapChain.ChainAtEnd | analyze_lib.py:161-163 | a cursor at or past the end is accepted |
| BitmapChain.ChainPadding | analyze_lib.py:143-153 | where no blob starts, the walk answers whether every remaining byte is 0xFF |
| BitmapChain.ChainLocationMismatch | analyze_lib.py:155-156 | a blob at another address than the list's next one raises a location mismatch |
| BitmapChain.ChainVisitsList | analyze_lib.py:155-159 | an accepting walk that meets a blob consumed the list entry at that address |
| BitmapChain.ChainStep | analyze_lib.py:143-163 | one iteration steps over the blob by its declared length, or accepts past the end |
| BitmapChain.ChainAcceptsConsecutive | analyze_lib.py:133-163 | blobs laid end to end at the listed addresses, then only 0xFF, are accepted |
| FileCheck.UpperRunEnd | analyze_lib.py:11 | the run of capitals from `i` ends at the first non-capital |
| FileCheck.DeviceEquals | analyze_lib.py:169 | `header.x03_device == device` holds exactly when the device is the same single byte; an `int` device never equals the byte field |
| FileCheck.VersionPattern | analyze_lib.py:187 | a name `V\d{4}[A-Z]+_[A-Z]+` matches has at least 8 bytes, a `V` first and four digits after it |
| FileCheck.MatchVersion | analyze_lib.py:187 | a name the one-pass matcher accepts has a `V`, four digits, a run of capitals and then an underscore |
| FileCheck.Trailer | analyze_lib.py:191 | the model's reading of `int(data[-3:])` succeeds exactly when the last three bytes are digits, and is then below 1000 |
| FileCheck.MatchVersionIsPattern | analyze_lib.py:187-188 | the greedy one-pass matcher accepts exactly the names `V\d{4}[A-Z]+_[A-Z]+` matches |
| FileCheck.VersionPatternPrefix | analyze_lib.py:187 | `re.match` anchors only at the start: a matching name still matches with anything appended |
| FileCheck.PatternGivesVersion | analyze_lib.py:41-47 | a matching version name always yields the value of its four digits |
| FileCheck.VerifyHeader | analyze_lib.py:165-194 | short input fails first; a passing header implies a full header (which error each later check gives, and in what order, is `FileCheck.VerifyHeaderOrder`) |
| FileCheck.VerifyHeaderOrder | analyze_lib.py:165-194 | the checks run in order and the first one that fails decides the error: magic, type, checksum, size, table name (non-ASCII before mismatch), version pattern (non-ASCII before mismatch), a trailer that is no number, a trailer of another version |
| FileCheck.VerifyHeaderPasses | analyze_lib.py:165-194 | the header passes exactly when type, checksum, size, table name, version pattern and trailer are all as required |
| FileCheck.DeviceIntSkipsMagic | analyze_lib.py:169-170 | with the device given as an int, the magic check never fires |
| FileCheck.ColorTypeRejected | analyze_lib.py:172-173 | a type of 30 00 01 03 is refused with a type mismatch |
| FileCheck.WideVersionRejected | analyze_lib.py:191-192 | a version of 1000 or more never matches the three-byte trailer |
| FileCheck.PresentMembers | analyze_lib.py:198 | the address list holds exactly the addresses of entries that have one |
| FileCheck.WithoutTrailer | analyze_lib.py:201 | `data[:-3]` is three bytes shorter, or empty |
| FileCheck.VerifyBody | analyze_lib.py:197-204 | a table failure is passed on; a pass means a table with at least one address; failures are table, list-index, location or broken-chain errors |
| FileCheck.VerifyBodyChain | analyze_lib.py:197-204 | once the table parses: no named blob gives an index error; otherwise the body passes exactly when the chain walk from the first blob over `data[:-3]` returns True, fails with "Couldn't verify body" exactly when it returns False, and passes on the walk's own error |
| FileCheck.VerifyFile | analyze_lib.py:207-210 | a header failure is the result, before the body is looked at; after a passing header the result is the body's; passes exactly when both pass; never fails with a magic mismatch |
| FileCheck.VerifyFilePasses | analyze_lib.py:165-210 | a file passes exactly when its header fields are as required and its body checks out |
| FileCheck.ColorFileRejected | analyze_lib.py:207-210 | a colour-table file never passes `verify_file` |
| Rebuild.AssignAddresses | modify_color.py:131-141 | the loop gives each bitmap, in ascending index order, the base address plus the lengths of the earlier bitmaps, and concatenates them |
| Rebuild.BodyPrefix | modify_color.py:141 | the body only grows: earlier bodies are prefixes of later ones |
| Rebuild.BlobInBody | modify_color.py:139-141 | each bitmap is copied whole into the body right after the earlier ones |
| Rebuild.AddrsOfFacts | modify_color.py:134-140 | exactly the listed bitmaps get an address, each the base plus the body length before it |
| Rebuild.AssembleHeader | modify_color.py:155-158 | the written header reads back as the loaded one with only its checksum replaced, by the value verification recomputes |
| Rebuild.Payload | modify_color.py:145-153 | header and payload together have the announced size when the content fits, and otherwise exactly the length of the header, table, body and version text |
| Rebuild.Assemble | modify_color.py:152-158 | the header is followed by the payload, and the header written is the loaded one whose checksum is that of the written file from 0x80 |
| Rebuild.AssembleLength | modify_color.py:145-153 | the file has the announced size when the content fits, and is longer otherwise |
| Rebuild.AssembleParts | modify_color.py:145-153 | the table follows the header, the body follows the table, 0xFF fills up to the version text, which ends the file |
| Rebuild.AssembleSizeCheck | modify_color.py:145-158 | the size check passes on the result exactly when the content fits the announced size |
| Rebuild.TrailerOfThreeDigits | modify_color.py:149-150 | a three-digit version is read back from the last three bytes |
| Rebuild.ShortVersionUnreadable | modify_color.py:149-150 | a version below 100 leaves an 0xFF byte in the trailer, which is no number |
| Rebuild.CombineAddrs | modify_color.py:128-141 | exactly the bitmaps get addresses |
| Rebuild.CombineBody | modify_color.py:131-141 | every bitmap is listed, and the body is all of them concatenated in ascending index order |
| Rebuild.Combine | modify_color.py:123-158 | a missing sized table entry fails with the key error, and only then; other failures are range or version errors |
| Rebuild.StitchFile | modify_color.py:145-158 | the tail returns exactly `Assemble` |
| Rebuild.CombineFiles | modify_color.py:123-158 | the whole assembly returns exactly `Combine` |
| Rebuild.FirstAddressMatchesTable | modify_color.py:128-143 | the first bitmap's address is where it lands exactly when the largest bitmap index equals `len(table)` |
| Rebuild.IndexBeyondTableFails | modify_color.py:128-143 | bitmap indices all beyond `len(table) + 1` make a distance negative, and packing fails |
| Extract.CutBlob | modify_color.py:92-97 | fails exactly when no "BM" is at the address; otherwise the blob is the declared length from there |
| Extract.BlobsOf | modify_color.py:87-97 | the only failure is a missing "BM" |
| Extract.BlobsOfSucceeds | modify_color.py:87-97 | the blobs are cut exactly when every present address holds "BM"; then there is one blob per address |
| Extract.CutOut | modify_color.py:92-97 | reading the length and slicing return exactly `CutBlob` |
| Extract.Walked | modify_color.py:85-97 | the only failure is a missing "BM"; on success the header is kept, the table map holds the decoded entries, `num` counts the blobs and `bmp_idx` is the last index |
| Extract.Extraction | modify_color.py:74-97 | a file that fails `verify_file` fails with that error; apart from PIL's own decoding failures, which are not modelled, a verified file fails only with "Not a BMP image"; success implies a verified file whose header is the one reported |
| Extract.PassingFileParses | analyze_lib.py:165-210 | a file passing `verify_file` has a readable header and a decodable table |
| Extract.PresentKeys | modify_color.py:87-91 | one index per entry that has an address |
| Extract.BlobAt | modify_color.py:87-97 | the `j`-th blob is cut at the `j`-th present address and carries that entry's index |
| Extract.WalkTable | modify_color.py:85-97 | the loop returns exactly `Walked`: the table map, the blobs and both counters |
| Extract.CmdExtract | modify_color.py:75-97 | extraction returns exactly `Extraction`: verification first, then the header, then the table walk |
| Extract.TableOfRecords | modify_color.py:87-88 | with indices 1, 2, ..., the table map holds exactly those indices, each with its address or none |
| Extract.BlobsAreSlices | modify_color.py:90-97 | blob `j` is `data[addr:addr + length]` at the `j`-th present address, with "BM" there, and is saved under that entry's index |
| Extract.ExtractionReports | modify_color.py:81-102 | a successful extraction reports the header as read, every decoded index with its address, one blob per address under that address's index, `num` counting them and `bmp_idx` the number of slots |
| Extract.ExtractionFails | modify_color.py:87-92 | after verification, and apart from PIL's own decoding failures, extraction fails exactly when some present address lacks "BM" |
| RoundTrip.BlobAtAddr | analyze_lib.py:72-78 | a bitmap whose bytes 2..6 hold its own length, copied to an address, is read back there with "BM" and exactly that length |
| RoundTrip.BlobsChain | analyze_lib.py:133-163 | bitmaps each placed where the one before ends, then 0xFF to the end, make the chain walk return True |
| RoundTrip.ListConsecutive | analyze_lib.py:133-163 | bitmaps each placed where the one before ends start with "BM" at every listed address, each listed address following the blob before it |
| RoundTrip.PlacedBlobs | modify_color.py:139-141 | every bitmap of the body copied to its base is found whole at its address |
| RoundTrip.ListSteps | modify_color.py:139-140 | each address is the one before plus the length of the bitmap before it, and the last bitmap ends where the body does |
| RoundTrip.BodyChains | analyze_lib.py:133-163 | the combined body copied to its base, then 0xFF to the end, is accepted by the chain walk over the bitmaps' addresses |
| RoundTrip.PresentFrom | analyze_lib.py:103-131 | a table decoded with each index's address or none lists, in ascending index order, the addresses of exactly the indices that have one |
| RoundTrip.PresentIsAddrList | analyze_lib.py:103-131 | decoding the rebuilt table lists the bitmaps' addresses, and their indices, in ascending index order |
| RoundTrip.PresentKeysOfAddrs | analyze_lib.py:103-131 | entries numbered from 1 holding an address exactly for the keys of a map list those keys in ascending order as the indices that have one |
| RoundTrip.PresentKeysAreSorted | modify_color.py:87-91 | decoding the rebuilt table, the indices that have an address are the bitmap indices in ascending order |
| RoundTrip.AddressesAreOffsets | modify_color.py:130-141 | each bitmap's address is the first one's plus the lengths of the bitmaps before it |
| RoundTrip.PlacedBlob | modify_color.py:139-141 | each bitmap of the body copied to its base sits, whole, at the base plus the lengths of the bitmaps before it |
| RoundTrip.BodyHead | modify_color.py:134-141 | with at least one bitmap, the body starts with the smallest-index bitmap's "BM" |
| RoundTrip.RebuiltIsAssembled | modify_color.py:127-158 | under those conditions the rebuild succeeds, with a version of three digits, and writes the assembly of the built table and the body |
| RoundTrip.RebuiltTable | modify_color.py:127-143 | when the largest bitmap index is `len(table)`, the built table is `(len(table) + 1) * 4` bytes, as the address computation assumed |
| RoundTrip.AssembledLayout | modify_color.py:145-158 | with room for a three-digit version, the file has the announced size, table and body in place and 0xFF up to the trailer |
| RoundTrip.LaidOutList | analyze_lib.py:103-131 | a file holding the built table and the body in place decodes to the bitmaps' addresses, each where the bitmaps before it end |
| RoundTrip.LaidOutChain | analyze_lib.py:133-163 | the body in place with 0xFF up to the trailer passes the chain walk over `data[:-3]` |
| RoundTrip.LaidOutBodyPasses | analyze_lib.py:197-204 | such a file passes `verify_body` |
| RoundTrip.LaidOutEntries | analyze_lib.py:103-131 | a file holding the built table decodes to one entry per index up to the largest bitmap index, each with its address or none |
| RoundTrip.CutsAreBitmaps | modify_color.py:90-97 | at each listed address the file starts with "BM", and the cut of the declared length is that bitmap |
| RoundTrip.LaidOutCuts | modify_color.py:87-97 | such a file decodes to the bitmaps' addresses, each holding a bitmap whose cut is that bitmap |
| RoundTrip.LaidOutKeys | modify_color.py:87-91 | such a file's indices with an address are the bitmap indices in ascending order |
| RoundTrip.CutBlobsAreFiles | modify_color.py:90-97 | blobs cut at the listed addresses under the listed indices are the bitmaps, index and bytes |
| RoundTrip.ExtractedParts | modify_color.py:81-97 | a verified file whose table lists an address exactly for given indices extracts the header as read, that table, and one blob per index holding its bitmap |
| RoundTrip.LaidOutExtracts | modify_color.py:74-97 | a verified file laid out by the rebuild extracts its header, one table entry per index up to the largest bitmap index with the rebuild's address or none, and the bitmaps in index order |
| RoundTrip.RebuiltHeaderAccepted | modify_color.py:145-158 | the written header passes `verify_header`: same type and names, a recomputed checksum, the announced size and the version as trailer |
| RoundTrip.RebuiltBodyPasses | modify_color.py:127-158 | the table and body written by the rebuild pass `verify_body` |
| RoundTrip.RebuiltFileVerifies | modify_color.py:127-158 | given sizes for every bitmap, a table as long as the largest index, self-sized bitmaps, distances that fit and avoid "BM" and the sentinel, room for the content and a three-digit version, the written file passes `verify_file` |
| RoundTrip.RebuiltExtracts | modify_color.py:74-158 | when PIL opens every bitmap, `cmd_extract` on a file `cmd_combine` wrote succeeds: the loaded header with the new checksum, a table of the same length with each index's address or none, and every bitmap in index order under its own index, byte for byte |
| RoundTrip.SavedSizes | modify_color.py:87-94 | the saved table has the decoded indices, with a size exactly where a bitmap was |
| RoundTrip.SavedSizesCount | modify_color.py:87-88 | one saved entry per decoded index, so `len(table)` is kept |
| RoundTrip.SavedFiles | modify_color.py:115-125 | the bitmaps found in the folder are keyed by exactly the saved indices, a later file of one index replacing an earlier one |
| RoundTrip.SavedFilesAt | modify_color.py:96-125 | with distinct indices, each blob is found under its own index |
| RoundTrip.SavedFilesAreFiles | modify_color.py:96-125 | saving the extracted blobs and reading them back gives the bitmaps the rebuild started from |
| RoundTrip.AssembleIgnoresChecksum | modify_color.py:155-158 | the assembled file does not depend on the checksum the header held |
| RoundTrip.CombineIgnoresChecksum | modify_color.py:127-158 | headers that differ only in the checksum, and tables of one length that give every bitmap a size, yield the same file |
| RoundTrip.ExtractThenCombine | modify_color.py:74-158 | the round trip closes: combining what extraction saves from a rebuilt file writes the same bytes again |

## Left out

- Image decoding with PIL (`read_bmp`, the pixel size and compression it
  reports, and the size entries it writes into the table) is a foreign library.
  Extraction keeps only the declared length and the bytes. PIL's own refusal
  of a blob that starts with "BM" but does not decode (`Image.open` raising,
  say on an unsupported DIB header) is not modelled either. So
  `Extract.Extraction`, `Extract.ExtractionFails`, `RoundTrip.RebuiltExtracts`
  and `RoundTrip.ExtractThenCombine` hold in the program only when PIL opens
  every blob.
- File and folder I/O is outside the model: `_open_pd3` reading the file, the
  folder checks, globbing, and writing the blob files and `header.json`.
  Argument parsing and `__main__` are left out too. Combination takes the
  bitmaps as a map from index to bytes.
- JSON and base64 serialisation of the metadata is left out. Combination takes
  the header record and, for the saved table, only whether each index has a
  size entry. In `RoundTrip.ExtractThenCombine` the saved header and table are
  taken to read back exactly as written, and a blob file named after its index
  to be found again under that index.
- The filename regular expression and the dimension-mismatch warning in
  `cmd_combine` are left out. They never change the bytes, except for the key
  error on a missing entry, which is modelled.
- All `print` output is left out, including the "max size exceeded" warning,
  which never stops the rebuild (modelled as `Rebuild.AssembleLength`).
- `cmd_list` only prints the decoded table with image details from PIL; it
  is not part of this model.
- `analyse_color.py` only parses arguments, reads a file and calls
  `verify_file`; it is not part of this model beyond `FileCheck.VerifyFile`.
- Bytes.ParseDecimal: accepts digit strings only, for the trailer
  (`FileCheck.Trailer`) and for `HeaderCodec.Version` alike. Python's
  `int()` also accepts surrounding whitespace, a leading sign and underscores between
  digits, so trailers such as `b" 12"`, `b"+12"` or `b"1_2"` that Python reads
  as 12 are refused here with "not a number". A file ending in one of them and
  announcing version 12 passes `verify_header` in Python and fails in the
  model.
- HeaderCodec.Version: reads `int(version_name[1:5])` with
  `Bytes.ParseDecimal`. A loaded header whose name starts with `V+012` or
  `V 12 ` has version 12 in Python, and one starting with `V1_23` has 123, as
  `cmd_combine` reads them; in the model these names give no version.
- FileCheck.Trailer: reads the trailer with `Bytes.ParseDecimal`, so it
  refuses the same whitespace, sign and underscore trailers (`b" 12"`,
  `b"+12"`, `b"1_2"`) that Python's `int(data[-3:])` accepts.
- HeaderCodec.ToBytes: the fields are fixed-width, so `struct.pack` padding or
  truncating a wrongly sized field from hand-edited metadata is not modelled.
- Rebuild.Combine: the bitmaps come as a map, so duplicate indices among the
  globbed files (the later one wins in `file_list`) and the glob order are not
  modelled.
- FileCheck.VersionPattern: the regular expression engine is not modelled. The
  one pattern in use is a predicate, and a one-pass matcher is proved
  equivalent to it.
- OffsetTable.ParseTable: the generator is consumed whole, as `list(...)` in
  `verify_body` does. Its laziness, and the prints at the end of the table,
  are not modelled.
