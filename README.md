# trascustomlevel DRM builder and TIGER splicer, modelled in Dafny

This project models the part of the custom-level tool chain that packs user
sections into the game's archive format. Its two sources are
`build-drm.py` and the `read_settings` reader in `build_common.py`.

`build-drm.py` runs in these steps:

1. **Manifest.** It reads a manifest of sections, one per line:
   - a type (only `dtp` is known);
   - a decimal id;
   - a source file;
   - optional flags `primary` and `no_reloc`.

   Several lines may be marked `primary`. The primary index is then the last such line, and the script notes the repetition only with a message.
2. **DRM file.** It writes the DRM file:
   - a 32-byte header: version 0x16, five zero words, the section count and the primary index;
   - one 20-byte SectionInfo per section: the size without the relocation table, the type byte 7, three zero bytes, `reloc_size << 8`, the id and the mask 0xffffffff;
   - one 16-byte SectionExtraInfo per section: `id | 7 << 25`, the archive offset or-ed with the DLC index `69 << 4`, the container length, and the running decompressed offset.
3. **CDRM containers.** It wraps every section's file in a CDRM container:
   - a 16-byte header and one block header declaring the block stored uncompressed;
   - the payload itself;
   - for every section but the last, padding to 16 bytes, a `NEXT` marker and the distance from the marker to the next 0x800 boundary.

   The containers get 0x800-aligned archive offsets. The first lies at least 0x800 bytes past the end of the original archive, and each next one starts at the first boundary at or past the previous one's end.
4. **TIGER archive.** It writes a new TIGER archive from the original:
   - it keeps the first 0x0c bytes;
   - it writes the record count plus one;
   - it keeps the dlcIndex and configName fields (0x10 to 0x34);
   - it writes the record table with the DRM's record (hash 0x5C668E56) inserted in hash order;
   - it copies the rest of the original from just past the new, longer table;
   - after zero padding up to each placement, it appends every container and then the DRM file itself.

Every `struct.pack` of a value out of the u32 range, and every short
`struct.unpack`, stops the script with an exception. These cases are modelled as `StructError`. The
fatal `build_error` checks of `stream_copy` and `pad_to` are modelled as `BuildError`
with the reason. A consequence the model makes explicit is that a manifest with no
`primary` line makes the builder fail: the primary index stays -1, and
`write_u32` cannot pack it.

`read_settings` reads `settings.txt` line by line:

- it strips each line;
- it skips empty lines and lines starting with `;`;
- it rejects a line without a space;
- it stores the text before the first space as the key and the rest as the value.

A later line for the same key wins.

The modules follow the program's structure:

| module | contents |
|---|---|
| Bytes, Bits | u8/u32 values, little-endian words, and Python's `&`, `\|` and `~` on non-negative integers |
| Errors | the ways a build stops |
| Streams | the output stream (`io.BytesIO` or a file opened for writing) and the input stream (a file opened for reading), as classes; `stream_copy` and `pad_to` as methods |
| Offsets, Cdrm | `next_valid_offset`, `get_reloc_size`, `make_cdrm` |
| Text, Settings | `str.strip`, `str.split` and `int()` as the scripts use them; `read_settings` |
| Manifest | the manifest loop |
| Drm, DrmLayout | the DRM builder and the layout of what it writes |
| Records, Tiger, SpliceLayout | the record table, the splicer, and the layout of the archive it writes |
| Pipeline | the whole script once its inputs are read |

The inputs are parameters of the model:

- the manifest's lines;
- a map from file names to their contents;
- the original archive's bytes;
- the lines of `settings.txt`.

## Model

| member | source | states |
|---|---|---|
| Bytes.U32Le | build-drm.py:20 | `struct.pack('<I', x)`: the four little-endian bytes of x |
| Bytes.ReadU32Le | build-drm.py:21 | `struct.unpack('<I', ...)` of the four bytes at a position |
| Bytes.U32RoundTrip | build-drm.py:20-21 | read_u32 of the four bytes write_u32 produces gives back the value |
| Bytes.U32Injective | build-drm.py:20 | two u32 values with the same four-byte encoding are equal |
| Bytes.ReadU32Within | build-drm.py:20-21 | a word written anywhere in a byte string is read back at its position |
| Bits.MaskLow | build-drm.py:39 | `x & ~(a - 1)` for a power of two a, bit by bit |
| Bits.BitOr | build-drm.py:141 | `x \| y` on non-negative integers, bit by bit |
| Bits.MaskLowIsRoundDown | build-drm.py:39 | `x & ~(a - 1)` for a power of two a is x rounded down to a multiple of a |
| Bits.OrDisjoint | build-drm.py:55 | `x \| y` is x + y when y lies below a and x is a multiple of a |
| Bits.OrBelow | build-drm.py:134 | or-ing two values below a power of two stays below it |
| Bits.OrKeepsLowBits | build-drm.py:141 | or-ing in a multiple of a keeps x's low bits modulo a |
| Streams.Writer.WriteU8 | build-drm.py:18 | the stream grows by exactly the one byte |
| Streams.Writer.WriteU32 | build-drm.py:20 | the stream grows by exactly the value's little-endian encoding |
| Streams.Writer.Write | build-drm.py:161 | the stream grows by exactly the given bytes |
| Streams.ReadAt | build-drm.py:161 | f.read(n) gives at most n bytes: exactly the n at the cursor when they exist, otherwise all that remain |
| Streams.Reader.Seek | build-drm.py:186 | the cursor moves to the given position, the contents unchanged |
| Streams.Reader.Read | build-drm.py:161 | returns ReadAt at the old cursor and advances the cursor by what it returned |
| Streams.Reader.ReadU32 | build-drm.py:21 | with four bytes left, the little-endian word at the cursor and a cursor 4 further; otherwise StructError |
| Streams.CopyCheck | build-drm.py:155-160 | passes exactly when both cursors are at start and start < end |
| Streams.StreamCopy | build-drm.py:154-161 | fails as CopyCheck says in its order of checks; on success, appends the source bytes from start to end and moves the source cursor past them |
| Streams.PadTo | build-drm.py:163-167 | succeeds exactly when the cursor is strictly before target, and then appends zeros up to target; otherwise fails with PadBackward and writes nothing |
| Streams.PadUpTo | build-drm.py:163-167 | the corrected pad: succeeds exactly when the cursor is at or before target, with the same effect |
| Offsets.NextValidOffset | build-drm.py:38-39 | the result is a multiple of align, at least offset and less than offset + align, and is offset itself when offset is aligned |
| Offsets.NextValidOffsetIsMask | build-drm.py:38-39 | the arithmetic rounding equals the bitwise `(offset + align - 1) & ~(align - 1)` |
| Offsets.RoundUpFacts | build-drm.py:39 | the bitwise form is aligned and lies in [offset, offset + align) |
| Offsets.NextValidOffsetIsLeast | build-drm.py:38-39 | no multiple of align lies between offset and its rounding: the rounding is the least aligned value at or above offset |
| Offsets.NextValidOffsetShift | build-drm.py:66 | rounding an aligned base plus k is the base plus k rounded |
| Offsets.RelocSize | build-drm.py:28-35 | get_reloc_size: the table size from the five counts read at the payload's start, at least 0x14 |
| Offsets.RelocTableSize | build-drm.py:35 | the relocation table is at least its 0x14-byte header |
| Offsets.RelocHeader | build-drm.py:30-34 | the five counts take 20 bytes |
| Offsets.RelocSizeOfHeader | build-drm.py:28-35 | get_reloc_size of a payload starting with a header gives 0x14 + 8 per internal, external and 16-bit-id relocation + 4 per id and pointer relocation |
| Cdrm.BlockWord | build-drm.py:55 | `len << 8 \| 1` holds the length above the type byte 1 |
| Cdrm.CdrmHeader | build-drm.py:50-59 | the header is 32 bytes |
| Cdrm.NextBoundary | build-drm.py:144 | the first 0x800 boundary at or past pos, within 0x800 of it |
| Cdrm.Round16 | build-drm.py:147 | n rounded up to 16, within 16 of n, n itself when aligned |
| Cdrm.MarkerPos | build-drm.py:63-64 | the marker sits on a 16-byte boundary, at most 15 bytes past the payload's end |
| Cdrm.NextDistance | build-drm.py:66-68 | the stored distance is at least 8 and less than 8 + 0x800 |
| Cdrm.CdrmImage | build-drm.py:46-70 | the container's length is CdrmLen of the payload length |
| Cdrm.CdrmLen | build-drm.py:46-70 | a container is its payload plus the 32-byte header and less than 24 bytes more |
| Cdrm.WriteHeader | build-drm.py:50-59 | appends exactly the eight header words |
| Cdrm.PadToSixteen | build-drm.py:63-64 | the zero-writing loop pads the buffer to the next multiple of 16 |
| Cdrm.MakeCdrm | build-drm.py:46-70 | the stream-built container equals CdrmImage |
| Cdrm.CdrmHeaderFields | build-drm.py:50-61 | the words read back are: magic 'CDRM', version 0, one block, no padding, `len << 8 \| 1`, len, 0, 0; the payload follows verbatim at 32 |
| Cdrm.HeaderWords | build-drm.py:50-59 | the same words, read in the header alone |
| Cdrm.CdrmRoundTrip | build-drm.py:46-70 | decoding the container as a loader does (magic, one uncompressed block, size) gives back the payload |
| Cdrm.CdrmTrailer | build-drm.py:62-68 | a non-final container has: zero padding to the 16-byte marker position, the 'NEXT' marker, and a distance from that position to the 0x800 boundary at or past the container's end |
| Cdrm.CdrmFinalLength | build-drm.py:62 | the last container has no trailer and ends with its payload |
| Cdrm.NextStart | build-drm.py:144 | the next container starts within 0x800 after this one ends, and strictly after it when this one has a trailer |
| Cdrm.TrailedLengthOffBoundary | build-drm.py:63-68 | a container with a trailer is 8 past a 16-byte boundary, so never a multiple of 0x800 |
| Text.IsSpace | build-drm.py:88 | `str.isspace` for one character, the whitespace `str.split` and `str.strip` remove |
| Text.LeadingSpaces | build_common.py:7 | the count of leading whitespace characters, and the character after them is not whitespace |
| Text.TrailingSpaces | build_common.py:7 | the same at the end of the string |
| Text.Strip | build_common.py:7 | the result is the middle of the line, neither end whitespace, and only whitespace removed on either side |
| Text.StripPadded | build_common.py:7 | stripping whitespace-padded text with no whitespace ends gives the text back |
| Text.TokenLength | build-drm.py:88 | the length of the first run of non-whitespace characters |
| Text.Split | build-drm.py:88 | every token is non-empty and contains no whitespace |
| Text.SplitJoin | build-drm.py:88 | splitting tokens joined by single spaces gives back the tokens |
| Text.SplitSkipsSpace | build-drm.py:88 | leading whitespace does not change the split |
| Text.SplitRuns | build-drm.py:88 | every string is the tokens Split returns with whitespace gaps around and between them, each inner gap non-empty |
| Text.GapsSeparate | build-drm.py:88 | the gaps around the tokens are whitespace only, one more than the tokens, and every gap between two tokens is non-empty |
| Text.GapsInterleave | build-drm.py:88 | the gaps and tokens, taken alternately, make up the whole string |
| Text.SplitUnique | build-drm.py:88 | any tokens set apart by such gaps are exactly what Split returns: the maximal non-whitespace runs in order |
| Text.SplitSkipsGap | build-drm.py:88 | leading whitespace of any kind does not change the split |
| Text.ParseInt | build-drm.py:90 | `int()` of a token: an optional sign and decimal digits give the integer, anything else no value |
| Text.Decimal | build-drm.py:90 | the decimal form of n is all digits |
| Text.DecimalValue | build-drm.py:90 | the digits of Decimal(n) have value n |
| Text.ParseDecimal | build-drm.py:90 | int() of a decimal form, with a minus sign for negatives, gives back the integer |
| Settings.SettingsOf | build_common.py:3-17 | read_settings: each line classified, then applied to the map in order |
| Settings.Settle | build_common.py:6-17 | the loop's effect: the first invalid line stops it, entry lines set their keys in order |
| Settings.FindSpace | build_common.py:12 | str.find(" "): the first space's index, or -1 exactly when there is no space |
| Settings.Classify | build_common.py:7-14 | a line is skipped exactly when stripped it is empty or starts with ';'; otherwise it is invalid with no space, or splits at its first space into a non-empty key and a value |
| Settings.Apply | build_common.py:10-15 | an invalid line fails with its stripped text; a skipped line keeps the map; an entry sets its key and keeps every other key |
| Settings.ErrorSticks | build_common.py:11 | once a line fails, the lines after it change nothing |
| Settings.ReadSettings | build_common.py:3-17 | the loop returns SettingsOf the lines |
| Settings.SettingsOk | build_common.py:3-17 | reading succeeds exactly when no line is invalid |
| Settings.SettingsFirstError | build_common.py:10-11 | a failure reports the first invalid line |
| Settings.SettingsKeys | build_common.py:15 | the keys read are exactly the keys of the entry lines |
| Settings.SettingsLastWins | build_common.py:15 | a key's value comes from the last line that sets it |
| Settings.SettingLineRoundTrip | build_common.py:7-15 | a "key value" line with any surrounding whitespace reads back as that key and value |
| Settings.SplitAtFirstSpace | build_common.py:12-14 | key, space, value splits back into the key and the value |
| Manifest.Extension | build-drm.py:41-44 | a section type has an extension exactly when it is "dtp" |
| Manifest.ParseLine | build-drm.py:88-95 | accepts exactly the lines with three tokens and an integer id, and builds the section from them; otherwise MissingField or BadInteger, in Python's order of indexing |
| Manifest.CheckLine | build-drm.py:88-97 | a parsed line passes exactly when its type is "dtp" and its file exists, and otherwise reports which of the two failed |
| Manifest.PrimaryStep | build-drm.py:99-102 | each primary line becomes the primary index, and a second primary line is recorded |
| Manifest.ReadManifest | build-drm.py:86-102 | succeeds exactly when every line passes, and then gives: one section per line, the last primary line's index, and whether two lines were primary; otherwise it stops at the first failing line |
| Manifest.IdTokenRoundTrip | build-drm.py:90 | an id token parses back to the id |
| Manifest.FlagsRead | build-drm.py:92-94 | the flag tokens contain "primary" and "no_reloc" exactly when the section has them |
| Manifest.ManifestLineRoundTrip | build-drm.py:88-97 | a section's manifest line parses back to the section when its file exists |
| Drm.InputsOf | build-drm.py:120-143 | the builder sees the catalog's sections and the contents of each section's file |
| Drm.SectionInfo | build-drm.py:121-132 | a section's record: size without the relocation table, `reloc_size << 8`, the id, and the type byte for "dtp" |
| Drm.UniqueId | build-drm.py:134 | `id \| 7 << 25` |
| Drm.PackedOffset | build-drm.py:141 | `cur_offset \| k_dlc_index` |
| Drm.ExtraInfo | build-drm.py:135-146 | the four SectionExtraInfo words: unique id, packed offset, container length, decompressed offset |
| Drm.InfoRecord | build-drm.py:123-132 | a SectionInfo is 20 bytes for "dtp" and 19 without the type byte |
| Drm.FirstOffset | build-drm.py:107 | the first offset is 0x800-aligned and 0x800 to under 0x1000 past the original's end |
| Drm.OffsetAfter | build-drm.py:139-144 | cur_offset after k sections is 0x800-aligned |
| Drm.DecompressedAfter | build-drm.py:146-147 | the decompressed offset is a multiple of 16 |
| Drm.DrmHeader | build-drm.py:111-118 | the DRM header is 32 bytes |
| Drm.ContainerLenFits | build-drm.py:145 | a container of a packable payload has a length that fits a u32 |
| Drm.ExtraOf | build-drm.py:133-147 | a SectionExtraInfo is 16 bytes |
| Drm.ExtraTable | build-drm.py:133-147 | the SectionExtraInfo table is 16 bytes per section |
| Drm.Placements | build-drm.py:139-143 | one placement per section |
| Drm.DrmOf | build-drm.py:110-147 | what the builder produces from its inputs: the DRM file (header, SectionInfo table, SectionExtraInfo table), every section's placement, and the DRM's own offset |
| Drm.BuildDrm | build-drm.py:110-147 | succeeds exactly when every value fits its field, with StructError otherwise; then it produces DrmOf its inputs |
| Drm.WriteDrmHeader | build-drm.py:110-118 | appends exactly the header |
| Drm.WriteSectionInfos | build-drm.py:120-132 | succeeds exactly when every section's SectionInfo packs, and then appends the whole table |
| Drm.InfoStep | build-drm.py:120-132 | the table of i + 1 sections is that of i plus section i's record |
| Drm.WriteSectionInfo | build-drm.py:121-132 | succeeds exactly when the record packs, and then appends it |
| Drm.WriteInfoRecord | build-drm.py:123-132 | appends exactly the record |
| Drm.WriteExtraInfos | build-drm.py:133-147 | succeeds exactly when every SectionExtraInfo packs; then appends the table and returns every section's placement and the offset past the last container |
| Drm.ExtraLoopStart | build-drm.py:107-108 | the loop state before the first section: no placements, the first offset, decompressed offset 0 |
| Drm.ExtraIteration | build-drm.py:133-147 | one iteration either advances the loop state by one section or shows the table cannot pack |
| Drm.ExtrasGrow | build-drm.py:133-147 | packability grows one section at a time |
| Drm.ExtraStep | build-drm.py:133-147 | table, placements and decompressed offset after i + 1 sections are those after i plus section i's share |
| Drm.PlacementsStep | build-drm.py:139-143 | the placements of i + 1 sections are those of i plus section i's |
| Drm.OffsetStep | build-drm.py:144 | the next offset is the boundary at or past the end of this container |
| Drm.WriteExtraInfo | build-drm.py:134-147 | for one section: packs exactly when its fields fit, and then gives its placement, the next offset and its record |
| Drm.ExtraFacts | build-drm.py:139-146 | the container made in the loop is the section's placement, and its length advances cur_offset |
| Drm.WriteExtraRecord | build-drm.py:135-146 | appends exactly the four words |
| DrmLayout.PlacementsAligned | build-drm.py:144 | every placement is 0x800-aligned and at least 0x800 past the original's end |
| DrmLayout.NextPlacement | build-drm.py:144 | the next placement is within 0x800 after this container's end, and strictly after it when this one has a trailer |
| DrmLayout.PlacementsDisjoint | build-drm.py:139-144 | a container ends at or before every later placement |
| DrmLayout.PlacementsIncrease | build-drm.py:139-144 | placements strictly increase |
| DrmLayout.TargetPastContainers | build-drm.py:190 | the DRM's offset lies at or past the end of every container |
| DrmLayout.NextPointerLands | build-drm.py:65-68 | a container's 'NEXT' distance, added to its marker's archive position, gives the next section's placement |
| DrmLayout.PackedOffsetSplits | build-drm.py:141 | `offset \| k_dlc_index` for an aligned offset is offset + 0x450; its low 11 bits hold the index, and masking them off gives the offset back |
| DrmLayout.UniqueIdAdds | build-drm.py:134 | `id \| 7 << 25` adds 7 << 25 to an id below 1 << 25 |
| DrmLayout.DecompressedExample | build-drm.py:146-147 | files of 17 and 32 bytes get decompressed offsets 0 and 32, and 64 after both: 17 rounds up to 32 |
| DrmLayout.Round16IsLeast | build-drm.py:147 | Round16 is the least multiple of 16 at or above n |
| DrmLayout.InfoRecordFields | build-drm.py:123-132 | the words of a "dtp" SectionInfo read back as: size, type 7, three zeros, packed, id, 0xffffffff |
| DrmLayout.InfoTableLayout | build-drm.py:120-132 | with every section "dtp", the table holds 20 bytes per section, section i's record at 20 * i |
| DrmLayout.ExtraTableLayout | build-drm.py:133-147 | section i's SectionExtraInfo sits at 16 * i in its table |
| DrmLayout.DrmHeaderFields | build-drm.py:111-118 | the header's words read back: 0x16, five zeros, numSections, primarySection |
| DrmLayout.ExtraRecordFields | build-drm.py:135-146 | the SectionExtraInfo's words read back: unique id, packed offset, container length, decompressed offset |
| DrmLayout.DrmFileLayout | build-drm.py:110-147 | the DRM file is 32 + 36 bytes per section and holds version, count and primary index |
| DrmLayout.SectionInfoInDrm | build-drm.py:120-132 | section i's SectionInfo sits at 32 + 20 * i in the DRM file |
| DrmLayout.ExtraInfoInDrm | build-drm.py:133-147 | section i's SectionExtraInfo sits at 32 + 20 * count + 16 * i in the DRM file |
| DrmLayout.PackableIdsFit | build-drm.py:131 | every id of a packable build fits a u32 |
| Records.RecordAt | build-drm.py:172-176 | the four words read at p form a record whose fields fit |
| Records.RecordsAt | build-drm.py:169-177 | n consecutive records, each field fitting a u32 |
| Records.RecordBytes | build-drm.py:196-199 | a record is 16 bytes |
| Records.EncodeRecords | build-drm.py:195-199 | the table is 16 bytes per record |
| Records.ReadRecords | build-drm.py:169-177 | succeeds exactly when the count is 0 or the whole table lies in the file, and then returns the records there; otherwise StructError |
| Records.RecordRead | build-drm.py:172-199 | a record written anywhere reads back as itself |
| Records.RecordEmbedded | build-drm.py:172-199 | a record reads back from any bytes that hold its four words at that position |
| Records.RecordsEmbedded | build-drm.py:169-199 | a table reads back, record by record and in order, from any bytes that hold its encoding at that position |
| Records.RecordsRoundTrip | build-drm.py:169-199 | a table written anywhere reads back as itself |
| Records.InsertRecord | build-drm.py:179-181 | insert_record: the record appended, then the table sorted by hash; one record longer |
| Records.InsertByHash | build-drm.py:181 | one insertion step adds one record |
| Records.SortByHash | build-drm.py:181 | sorting keeps the length |
| Records.InsertKeepsSorted | build-drm.py:181 | inserting into a table sorted by hash keeps it sorted |
| Records.InsertPermutes | build-drm.py:181 | insertion adds exactly the one record |
| Records.SortSortsAndPermutes | build-drm.py:181 | the sort gives a table sorted by hash with the same records |
| Records.WithHashAppend | build-drm.py:181 | the records with a hash split over a concatenation |
| Records.WithHashAbove | build-drm.py:181 | a table whose hashes all exceed h has none with h |
| Records.InsertStable | build-drm.py:181 | an inserted record goes after the records with its hash |
| Records.SortStable | build-drm.py:181 | the sort keeps the order of records with equal hashes, as list.sort does |
| Records.InsertAtEnd | build-drm.py:181 | a record with the largest hash is appended |
| Records.SortOfSorted | build-drm.py:181 | a sorted table is left as it is |
| Records.InsertIntoSorted | build-drm.py:179-181 | on a sorted table, insert_record is one insertion step |
| Records.InsertPosition | build-drm.py:179-181 | into a sorted table, the record lands right after every hash at or below its own and before every larger one |
| Records.FitsPermuted | build-drm.py:181 | a permutation of packable records is packable |
| Records.InsertRecordFits | build-drm.py:191-199 | the new table packs exactly when the added record does |
| Records.InsertRecordSpec | build-drm.py:179-181 | insert_record's result is sorted and has exactly the old records plus the new one; records with each hash keep their order, the new one after those with its hash |
| Tiger.DrmRecord | build-drm.py:191 | the DRM's record: hash 0x5C668E56, mask 0xffffffff, the DRM's size, its offset or-ed with the DLC index |
| Tiger.Rewritten | build-drm.py:184-202 | the archive up to the original's length: a short header or table is StructError, then the steps of RewriteFrom |
| Tiger.RewriteFrom | build-drm.py:192-202 | in the script's order: StructError when count + 1 or a record does not pack, DestCursorMismatch when the original is shorter than 0x34, EmptyRange when the tail to copy is empty; otherwise the new header, table and tail |
| Tiger.PlaceAll | build-drm.py:203-205 | the section loop: PadBackward as soon as a placement is not strictly past the cursor, else zeros and the container |
| Tiger.AppendDrmAsWritten | build-drm.py:206-208 | the final pad as written: PadBackward when the cursor is at or past the DRM's offset, else zeros and the DRM |
| Tiger.AppendDrm | build-drm.py:206-208 | the final pad corrected: PadBackward only when the cursor is past the DRM's offset |
| Tiger.SpliceImageAsWritten | build-drm.py:183-208 | the new archive as the script writes it: rewrite, section loop, final pad as written |
| Tiger.SpliceImage | build-drm.py:183-208 | the new archive with the final pad corrected |
| Tiger.TableOf | build-drm.py:187-189 | the original's table has `record_count` packable records |
| Tiger.WriteRecord | build-drm.py:196-199 | appends exactly the record's four words |
| Tiger.WriteRecords | build-drm.py:195-199 | succeeds exactly when every record packs, and then appends the table |
| Tiger.ReadTable | build-drm.py:186-189 | succeeds exactly when the count and the whole table can be read, and then returns the original's table; otherwise StructError |
| Tiger.RewriteRest | build-drm.py:192-202 | writes exactly RewriteFrom, in the script's order of checks |
| Tiger.RewriteArchive | build-drm.py:184-202 | writes exactly Rewritten, the archive up to the original's length |
| Tiger.PlaceSections | build-drm.py:203-205 | the section loop succeeds and fails as PlaceAll does, and writes its result |
| Tiger.Splice | build-drm.py:183-208 | the method writes exactly SpliceImage, the splice with its final pad corrected |
| Tiger.AscendingTail | build-drm.py:203-205 | the ascending-placement condition passes on from one container to the rest |
| Tiger.PlaceAllOk | build-drm.py:203-205 | the section loop gets through exactly when each placement lies strictly past the previous container's end |
| Tiger.PlaceAllLayout | build-drm.py:203-205 | after the loop, each container sits at its placement with zeros from the previous end up to it |
| Tiger.FirstPlaced | build-drm.py:204-205 | one pad and write puts the container at its offset after zeros |
| Tiger.RewrittenOk | build-drm.py:185-202 | the rewrite succeeds exactly when: the header is long enough, count + 1 fits, the DRM's record packs, and the tail to copy is non-empty |
| Tiger.RewrittenLayout | build-drm.py:185-202 | the rewritten image has the original's length and first 0x0c bytes, count + 1 at 0x0c, the original's config fields, the inserted table, and the original's tail from just past the new table |
| Tiger.RewrittenSize | build-drm.py:185-202 | the rewritten image is as long as the original |
| Tiger.FromLayout | build-drm.py:192-202 | the layout of RewriteFrom's image for any sorted table |
| SpliceLayout.PlacementsIndex | build-drm.py:139-143 | placement i is section i's offset and container |
| SpliceLayout.GapMatches | build-drm.py:203-205 | the gap before container i starts where the previous container, or the original, ends |
| SpliceLayout.BuildAscends | build-drm.py:139-144 | the builder's placements pass the splicer's pad checks, and the DRM offset lies at or past the last container's end |
| SpliceLayout.AppendLayout | build-drm.py:206-208 | the DRM sits at its offset after zeros, the archive so far kept as a prefix |
| SpliceLayout.PrefixCarries | build-drm.py:205-208 | what lies in a prefix lies in the whole archive |
| SpliceLayout.SplicePieces | build-drm.py:183-208 | the new archive holds: the rewritten image as a prefix, each container at its placement with zeros before it, and the DRM at its offset with zeros before it |
| SpliceLayout.PieceAt | build-drm.py:203-205 | container i lies in the new archive at its placement, after zeros |
| SpliceLayout.FinalPad | build-drm.py:206-207 | the final pad: with the cursor at or before the DRM offset it succeeds; strictly before, the script agrees; exactly at it, the script fails with PadBackward |
| SpliceLayout.SpliceOk | build-drm.py:183-208 | for the builder's output, the splice succeeds exactly when the rewrite of the original does, and lists those conditions |
| SpliceLayout.SpliceEnds | build-drm.py:206-208 | the archive ends with the DRM file at the builder's DRM offset, after zeros from the last container's end |
| SpliceLayout.ContainerInSplice | build-drm.py:139-205 | section i's CDRM container lies in the new archive at the offset its SectionExtraInfo records, after zeros |
| SpliceLayout.LastEndAligned | build-drm.py:143-144 | the last container ends on an 0x800 boundary exactly when 32 + its payload length is a multiple of 0x800, and then the DRM offset is that end |
| SpliceLayout.ExactFitRejected | build-drm.py:163-207 | when the last payload is 0x800·k − 32 bytes, the script as written stops with PadBackward while the corrected splice succeeds |
| SpliceLayout.OtherwiseAgree | build-drm.py:163-207 | in every other case the script and the corrected splice give the same result |
| SpliceLayout.DrmPastEnd | build-drm.py:144 | unless the last container ends on a boundary, the DRM offset lies strictly past its end |
| SpliceLayout.PadsAgree | build-drm.py:163-207 | with the cursor strictly before the DRM offset, both final pads agree |
| Pipeline.Assembled | build-drm.py:110-208 | the corrected script's result: the builder's StructError, or the corrected splice of its output |
| Pipeline.AssembledAsWritten | build-drm.py:110-208 | the script's result as written: the builder's StructError, or the as-written splice of its output |
| Pipeline.EndsOnBoundary | build-drm.py:143-144 | the last container ends on an 0x800 boundary: 32 + the last payload's length is a multiple of 0x800 |
| Pipeline.AssembledAsWrittenOk | build-drm.py:163-208 | the script as written gets through exactly when the corrected one does and the last container does not end on an 0x800 boundary; it then writes the same archive |
| Pipeline.CatalogHasFiles | build-drm.py:96-97 | every section the manifest loop accepted names an existing file |
| Pipeline.BuildArchive | build-drm.py:110-208 | the builder followed by the corrected splicer produces Assembled |
| Pipeline.AssembledOk | build-drm.py:110-208 | the script with its final pad corrected gets through exactly when the builder's values fit and the rewrite conditions hold; then the archive holds the DRM file at its offset |

## Left out

- File system I/O is not modelled: opening, `os.path.getsize`, `shutil.copyfile` into `customlevel_bin/`, and the two hard-coded archive paths. Files are a map from names to contents. A file's size is its content length. Each copy is a check that the file exists.
- `print` messages and `sys.exit` are not modelled. A `build_error` or an exception is an error result.
- The DRM file is written to disk and then read back by the splicer. That round trip is modelled as the same bytes passing from builder to splicer.
- On failure the script can leave partial output files behind. The model gives only an error.
- The output-name choice from `sys.argv` (build-drm.py:72-79) is not modelled: it is command-line handling.
- The `Section` dataclass's `cdrm` and `offset` fields are updated in place inside the SectionExtraInfo loop. They are modelled as a list of `Placement` values that the loop returns.
- `int()` is modelled on an optional sign followed by ASCII decimal digits. Python's `int()` also accepts underscores between digits and non-ASCII decimal digits; the model counts such tokens as bad integers.
- `get_extension` for an unknown type prints and returns `None`; the following string concatenation then raises. The model reports this as `UnknownSectionType`.
- `build_common.py` calls `build_error` without defining it, so an invalid settings line raises `NameError` and ends the program. The model reports this as `InvalidSettingsLine` with the stripped line.
- `records.sort` is Python's stable sort. It is modelled by a stable insertion sort, with the properties listed above. Only the sorted, stable result matters, not the algorithm.
- Python's `&`, `|` and `~` are modelled on non-negative integers only. The values the scripts combine are never negative.
- Pipeline.AssembledOk, Pipeline.BuildArchive, Tiger.Splice: these state the script with its final `pad_to` corrected. The script as written also stops with PadBackward when the last container ends on an 0x800 boundary; Pipeline.AssembledAsWrittenOk and SpliceLayout.ExactFitRejected state that case.
- Drm.Placements: its own contract states only the length. What it holds is stated by SpliceLayout.PlacementsIndex and Drm.PlacementsStep.

## Findings

| source | as written | input that shows it | evidently intended | confidence | as-written member | corrected member |
|---|---|---|---|---|---|---|
| build-drm.py:163-167, 207 | `pad_to` is fatal when `f.tell() >= target`, including `tell == target`. So the final `pad_to(f, target_offset)` fails whenever the last container ends exactly on an 0x800 boundary: `target_offset` is then that very end. | Any build whose last section's payload is 0x7E0 bytes (0x800·k − 32 in general): its container has no trailer and is 32 + 0x7E0 = 0x800 bytes long. | A cursor already at the target needs no padding, so the DRM is written there. | not executed | SpliceLayout.ExactFitRejected | SpliceLayout.SpliceOk |

The as-written half is `Tiger.SpliceImageAsWritten`, built on `Streams.PadTo`'s
strict check. `SpliceLayout.ExactFitRejected` shows it failing on every such
input. The corrected half is `Tiger.SpliceImage`, whose final step uses
`Streams.PadUpTo`. `Tiger.Splice` implements it, and `Pipeline.BuildArchive` uses it.
`SpliceLayout.SpliceOk` and `SpliceLayout.SpliceEnds` prove it succeeds exactly under the rewrite
conditions and places the DRM at its record's offset. The section pads keep the
strict check: `SpliceLayout.BuildAscends` proves they never meet the equal case.
`SpliceLayout.OtherwiseAgree` proves both halves agree on every other input.
For the whole script, `Pipeline.AssembledAsWrittenOk` states when the script as
written gets through: exactly when the corrected one does and the last container
does not end on an 0x800 boundary.

The splice also drops 16 bytes of the original: the 16 that follow the old record table. The copy of the
original's tail restarts at `0x34 + 16 * (count + 1)`, just past the new table,
so it skips the 16 bytes the added record displaced. `Tiger.RewrittenLayout` states this
layout. It follows from the code's design and is not listed as a finding.
