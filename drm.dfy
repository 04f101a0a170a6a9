/** The DRM builder (build-drm.py, after the manifest loop): the DRM file is a
    header, one SectionInfo per section and one SectionExtraInfo per section;
    alongside it every section is wrapped in a CDRM container and given an
    offset in the archive, one 0x800-aligned slot after the other, past the
    end of the original archive. */
module Drm {
  import opened Bytes
  import opened Bits
  import opened Offsets
  import opened Errors
  import opened Streams
  import opened Cdrm
  import opened Manifest

  const DrmVersion: u32 := 0x16
  const DtpTypeCode: u8 := 7
  const SpecMaskAll: u32 := 0xFFFF_FFFF
  /** k_dlc_index = 69 << 4, or-ed into every archive offset. */
  const DlcIndex: nat := 0x450
  /** 7 << 25, or-ed into every section id to form its unique id. */
  const DtpIdBits: nat := 0x0E00_0000
  const DrmHeaderSize: nat := 32
  const SectionInfoSize: nat := 20
  const ExtraInfoSize: nat := 16

  /** What the builder reads: the sections in manifest order, the contents
      of each one's file, the primary index and the original archive's
      size. */
  datatype Inputs = Inputs(sections: seq<Section>, contents: seq<seq<u8>>, primary: int, origSize: nat) {
    predicate Wf() {
      |contents| == |sections|
    }

    function Count(): nat {
      |sections|
    }
  }

  predicate HasFiles(cat: Catalog, files: map<string, seq<u8>>) {
    forall i :: 0 <= i < |cat.sections| ==> cat.sections[i].file in files
  }

  function InputsOf(cat: Catalog, files: map<string, seq<u8>>, origSize: nat): (b: Inputs)
    requires HasFiles(cat, files)
    ensures b.Wf() && b.sections == cat.sections && b.primary == cat.primary && b.origSize == origSize
    ensures forall i :: 0 <= i < |cat.sections| ==> b.contents[i] == files[cat.sections[i].file]
  {
    Inputs(cat.sections, seq(|cat.sections|, i requires 0 <= i < |cat.sections| => files[cat.sections[i].file]),
           cat.primary, origSize)
  }

  /** get_reloc_size reads five words, so a relocated section's file must
      hold at least 20 bytes. */
  predicate RelocReadable(s: Section, c: seq<u8>) {
    s.noReloc || |c| >= 20
  }

  /** reloc_size: 0 for a no_reloc section, else get_reloc_size. */
  function RelocOf(s: Section, c: seq<u8>): nat
    requires RelocReadable(s, c)
  {
    if s.noReloc then 0 else RelocSize(c)
  }

  /** Every value of the section's SectionInfo fits its field. */
  predicate InfoPackable(s: Section, c: seq<u8>) {
    RelocReadable(s, c) && IsU32(|c| - RelocOf(s, c)) && IsU32(RelocOf(s, c) * 0x100) && IsU32(s.id)
  }

  /** SectionInfo for section s with file contents c. */
  function SectionInfo(s: Section, c: seq<u8>): (r: seq<u8>)
    requires InfoPackable(s, c)
  {
    InfoRecord(|c| - RelocOf(s, c), s.typ == "dtp", RelocOf(s, c) * 0x100, s.id)
  }

  /** SectionInfo's bytes: size without the relocation table, the type byte
      (written only for "dtp"), three flag bytes, reloc_size << 8, the id and
      the specMask. */
  function InfoRecord(size: u32, dtp: bool, packed: u32, id: u32): (r: seq<u8>)
    ensures |r| == if dtp then SectionInfoSize else SectionInfoSize - 1
  {
    InfoHead(size, dtp) + [0, 0, 0] + U32Le(packed) + U32Le(id) + U32Le(SpecMaskAll)
  }

  function InfoHead(size: u32, dtp: bool): (r: seq<u8>) {
    if dtp then U32Le(size) + [DtpTypeCode] else U32Le(size)
  }

  /** `id | 7 << 25` */
  function UniqueId(id: u32): (u: u32) {
    WidePowersOfTwo();
    assert DtpIdBits < U32End;
    OrBelow(id, DtpIdBits, U32End);
    BitOr(id, DtpIdBits)
  }

  /** `offset | k_dlc_index` */
  function PackedOffset(offset: nat): nat {
    BitOr(offset, DlcIndex)
  }

  /** SectionExtraInfo: unique id, packed archive offset, container length,
      decompressed offset. */
  function ExtraInfo(id: u32, packedOffset: u32, containerLen: u32, decompressed: u32): (r: seq<u8>) {
    U32Le(UniqueId(id)) + U32Le(packedOffset) + U32Le(containerLen) + U32Le(decompressed)
  }

  /** The first archive offset: the original size plus 0x800, rounded up to
      0x800. */
  function FirstOffset(origSize: nat): (r: nat)
    ensures r % ContainerAlign == 0 && origSize + ContainerAlign <= r < origSize + 2 * ContainerAlign
  {
    NextBoundary(origSize + ContainerAlign)
  }

  /** make_cdrm's dont_write_next: section i is the last one. */
  predicate IsLast(b: Inputs, i: nat) {
    i == b.Count() - 1
  }

  /** The length of section i's container; only the last one has no trailer. */
  function ContainerLen(b: Inputs, i: nat): nat
    requires b.Wf() && i < b.Count()
  {
    CdrmLen(|b.contents[i]|, IsLast(b, i))
  }

  /** cur_offset once k containers are placed: each one starts at the first
      0x800 boundary at or past the previous one's end. */
  function OffsetAfter(b: Inputs, k: nat): (r: nat)
    requires b.Wf() && k <= b.Count()
    ensures r % ContainerAlign == 0
  {
    if k == 0 then FirstOffset(b.origSize)
    else NextBoundary(OffsetAfter(b, k - 1) + ContainerLen(b, k - 1))
  }

  /** cur_decompressed_offset once k sections are counted: the sum of their
      file sizes, each rounded up to 16. */
  function DecompressedAfter(b: Inputs, k: nat): (r: nat)
    requires b.Wf() && k <= b.Count()
    ensures r % 16 == 0
  {
    if k == 0 then 0
    else
      var prev := DecompressedAfter(b, k - 1);
      var step := Round16(|b.contents[k - 1]|);
      SumOfMultiples(prev, step, 16);
      prev + step
  }

  /** Every value of section i's SectionExtraInfo fits its field, and its
      payload fits make_cdrm's size word. */
  predicate ExtraPackable(b: Inputs, i: nat)
    requires b.Wf() && i < b.Count()
  {
    IsU32(PackedOffset(OffsetAfter(b, i))) && |b.contents[i]| < MaxPayload && IsU32(DecompressedAfter(b, i))
  }

  /** Every one of the first k payloads is small enough for make_cdrm. */
  predicate PayloadsFit(b: Inputs, k: nat)
    requires b.Wf() && k <= b.Count()
  {
    forall i :: 0 <= i < k ==> |b.contents[i]| < MaxPayload
  }

  /** The SectionExtraInfo values of the first k sections fit (which
      includes that their payloads fit, spelled out for Placements). */
  predicate ExtrasPackable(b: Inputs, k: nat)
    requires b.Wf() && k <= b.Count()
  {
    PayloadsFit(b, k) && forall i :: 0 <= i < k ==> ExtraPackable(b, i)
  }

  /** Every section id fits a u32 (SectionInfo has already packed it). */
  predicate IdsFit(b: Inputs)
    requires b.Wf()
  {
    forall i :: 0 <= i < b.Count() ==> IsU32(b.sections[i].id)
  }

  /** Nothing the builder writes is out of range for struct.pack. */
  predicate Packable(b: Inputs)
    requires b.Wf()
  {
    && IsU32(b.Count()) && IsU32(b.primary)
    && (forall i :: 0 <= i < b.Count() ==> InfoPackable(b.sections[i], b.contents[i]))
    && ExtrasPackable(b, b.Count())
  }

  /** DRMHeader: version 0x16, five zero words, numSections, primarySection. */
  function DrmHeader(n: u32, primary: u32): (r: seq<u8>)
    ensures |r| == DrmHeaderSize
  {
    U32Le(DrmVersion) + U32Le(0) + U32Le(0) + U32Le(0) + U32Le(0) + U32Le(0) + U32Le(n) + U32Le(primary)
  }

  /** The SectionInfo records of the first k sections. */
  function InfoTable(b: Inputs, k: nat): seq<u8>
    requires b.Wf() && k <= b.Count()
    requires forall i :: 0 <= i < k ==> InfoPackable(b.sections[i], b.contents[i])
  {
    if k == 0 then []
    else InfoTable(b, k - 1) + SectionInfo(b.sections[k - 1], b.contents[k - 1])
  }

  lemma {:induction false} ContainerLenFits(b: Inputs, i: nat)
    requires b.Wf() && i < b.Count() && |b.contents[i]| < MaxPayload
    ensures IsU32(ContainerLen(b, i))
  {
  }

  /** Section i's SectionExtraInfo. */
  function ExtraOf(b: Inputs, i: nat): (r: seq<u8>)
    requires b.Wf() && i < b.Count() && IsU32(b.sections[i].id) && ExtraPackable(b, i)
    ensures |r| == ExtraInfoSize
  {
    ContainerLenFits(b, i);
    ExtraInfo(b.sections[i].id, PackedOffset(OffsetAfter(b, i)), ContainerLen(b, i), DecompressedAfter(b, i))
  }

  /** The SectionExtraInfo records of the first k sections. */
  function ExtraTable(b: Inputs, k: nat): (r: seq<u8>)
    requires b.Wf() && k <= b.Count()
    requires IdsFit(b) && ExtrasPackable(b, k)
    ensures |r| == ExtraInfoSize * k
  {
    if k == 0 then []
    else
      assert IsU32(b.sections[k - 1].id) && ExtraPackable(b, k - 1);
      ExtraTable(b, k - 1) + ExtraOf(b, k - 1)
  }

  /** Where a section's container goes in the archive (Section.offset) and
      the container itself (Section.cdrm). */
  datatype Placement = Placement(offset: nat, cdrm: seq<u8>)

  /** What the builder hands to the splicer: the DRM file, each section's
      placement, and the offset the DRM itself goes to. */
  datatype DrmBuild = DrmBuild(drm: seq<u8>, placements: seq<Placement>, target: nat)

  function PlacementOf(b: Inputs, i: nat): Placement
    requires b.Wf() && i < b.Count() && |b.contents[i]| < MaxPayload
  {
    Placement(OffsetAfter(b, i), CdrmImage(b.contents[i], IsLast(b, i)))
  }

  /** The placements of the first k sections, in section order. */
  function Placements(b: Inputs, k: nat): (r: seq<Placement>)
    requires b.Wf() && k <= b.Count() && PayloadsFit(b, k)
    ensures |r| == k
  {
    seq(k, i requires 0 <= i < k && |b.contents[i]| < MaxPayload => PlacementOf(b, i))
  }

  /** The whole result of the builder. */
  function DrmOf(b: Inputs): DrmBuild
    requires b.Wf() && Packable(b)
  {
    DrmBuild(DrmHeader(b.Count(), b.primary) + InfoTable(b, b.Count()) + ExtraTable(b, b.Count()),
             Placements(b, b.Count()), OffsetAfter(b, b.Count()))
  }

  /** The builder: header, SectionInfo loop, SectionExtraInfo loop (which
      also makes each container and advances the two offsets). It fails,
      with struct's error, exactly when some value does not fit its field;
      otherwise it produces DrmOf. */
  method BuildDrm(cat: Catalog, files: map<string, seq<u8>>, origSize: nat) returns (r: Result<DrmBuild>)
    requires HasFiles(cat, files)
    ensures r.Ok? <==> Packable(InputsOf(cat, files, origSize))
    ensures r.Err? ==> r.error == StructError
    ensures r.Ok? ==> r.value == DrmOf(InputsOf(cat, files, origSize))
  {
    var b := InputsOf(cat, files, origSize);
    if !IsU32(b.Count()) || !IsU32(b.primary) {
      return Err(StructError);
    }
    var f := new Writer();
    WriteDrmHeader(f, b.Count(), b.primary);
    EmptyConcat(DrmHeader(b.Count(), b.primary));
    var ok := WriteSectionInfos(f, b);
    if !ok {
      return Err(StructError);
    }
    var placements, target;
    ok, placements, target := WriteExtraInfos(f, b);
    if !ok {
      return Err(StructError);
    }
    assert Packable(b);
    r := Ok(DrmBuild(f.data, placements, target));
  }

  method WriteDrmHeader(f: Writer, n: u32, primary: u32)
    modifies f
    ensures f.data == old(f.data) + DrmHeader(n, primary)
  {
    ghost var s := f.data;
    f.WriteU32(DrmVersion);
    f.WriteU32(0);
    Assoc(s, U32Le(DrmVersion), U32Le(0));
    f.WriteU32(0);
    Assoc(s, U32Le(DrmVersion) + U32Le(0), U32Le(0));
    f.WriteU32(0);
    Assoc(s, U32Le(DrmVersion) + U32Le(0) + U32Le(0), U32Le(0));
    ghost var w := U32Le(DrmVersion) + U32Le(0) + U32Le(0) + U32Le(0);
    f.WriteU32(0);
    Assoc(s, w, U32Le(0));
    f.WriteU32(0);
    Assoc(s, w + U32Le(0), U32Le(0));
    f.WriteU32(n);
    Assoc(s, w + U32Le(0) + U32Le(0), U32Le(n));
    f.WriteU32(primary);
    Assoc(s, w + U32Le(0) + U32Le(0) + U32Le(n), U32Le(primary));
  }

  /** The SectionInfo loop. */
  method WriteSectionInfos(f: Writer, b: Inputs) returns (ok: bool)
    requires b.Wf()
    modifies f
    ensures ok <==> forall i :: 0 <= i < b.Count() ==> InfoPackable(b.sections[i], b.contents[i])
    ensures ok ==> f.data == old(f.data) + InfoTable(b, b.Count())
  {
    ghost var start := f.data;
    for i := 0 to b.Count()
      invariant forall j :: 0 <= j < i ==> InfoPackable(b.sections[j], b.contents[j])
      invariant f.data == start + InfoTable(b, i)
    {
      ghost var before := f.data;
      ok := WriteSectionInfo(f, b.sections[i], b.contents[i]);
      if !ok {
        return;
      }
      InfoStep(b, i);
      Assoc(start, InfoTable(b, i), SectionInfo(b.sections[i], b.contents[i]));
    }
    ok := true;
  }

  lemma {:induction false} InfoStep(b: Inputs, i: nat)
    requires b.Wf() && i < b.Count()
    requires forall j :: 0 <= j <= i ==> InfoPackable(b.sections[j], b.contents[j])
    ensures InfoTable(b, i + 1) == InfoTable(b, i) + SectionInfo(b.sections[i], b.contents[i])
  {
  }

  /** One iteration of the SectionInfo loop. It fails before writing
      anything when some value does not fit its field (in the source the
      failing write_u32 raises after the earlier fields are written; what a
      failed build leaves in the file is not modelled). */
  method WriteSectionInfo(f: Writer, s: Section, content: seq<u8>) returns (ok: bool)
    modifies f
    ensures ok <==> InfoPackable(s, content)
    ensures ok ==> f.data == old(f.data) + SectionInfo(s, content)
  {
    if !s.noReloc && |content| < 20 {
      return false;
    }
    var relocSize := if s.noReloc then 0 else RelocSize(content);
    var size := |content| - relocSize;
    var packed := relocSize * 0x100;
    if !IsU32(size) || !IsU32(packed) || !IsU32(s.id) {
      return false;
    }
    WriteInfoRecord(f, size, s.typ == "dtp", packed, s.id);
    ok := true;
  }

  /** The writes of one SectionInfo. */
  method WriteInfoRecord(f: Writer, size: u32, dtp: bool, packed: u32, id: u32)
    modifies f
    ensures f.data == old(f.data) + InfoRecord(size, dtp, packed, id)
  {
    ghost var start := f.data;
    f.WriteU32(size);
    if dtp {
      f.WriteU8(DtpTypeCode);
      Assoc(start, U32Le(size), [DtpTypeCode]);
    }
    ghost var w := InfoHead(size, dtp);
    f.WriteU8(0);
    f.WriteU8(0);
    f.WriteU8(0);
    Assoc(start, w, [0]);
    Assoc(start, w + [0], [0]);
    Assoc(start, w + [0] + [0], [0]);
    assert w + [0] + [0] + [0] == w + [0, 0, 0];
    w := w + [0, 0, 0];
    f.WriteU32(packed);
    Assoc(start, w, U32Le(packed));
    w := w + U32Le(packed);
    f.WriteU32(id);
    Assoc(start, w, U32Le(id));
    w := w + U32Le(id);
    f.WriteU32(SpecMaskAll);
    Assoc(start, w, U32Le(SpecMaskAll));
  }

  /** The SectionExtraInfo loop: it yields each section's placement and the
      offset past the last container. */
  method WriteExtraInfos(f: Writer, b: Inputs) returns (ok: bool, placements: seq<Placement>, target: nat)
    requires b.Wf() && IdsFit(b)
    modifies f
    ensures ok <==> ExtrasPackable(b, b.Count())
    ensures ok ==> f.data == old(f.data) + ExtraTable(b, b.Count())
    ensures ok ==> placements == Placements(b, b.Count()) && target == OffsetAfter(b, b.Count())
  {
    var curOffset := FirstOffset(b.origSize);
    var curDecompressed := 0;
    placements := [];
    ghost var start := f.data;
    ExtraLoopStart(b, start);
    for i := 0 to b.Count()
      invariant ExtraLoopState(b, i, start, f.data, placements, curOffset, curDecompressed)
    {
      ok, placements, curOffset, curDecompressed := ExtraIteration(f, b, i, start, placements, curOffset, curDecompressed);
      if !ok {
        return false, placements, curOffset;
      }
    }
    ok, target := true, curOffset;
  }

  /** The SectionExtraInfo loop's state after i iterations: the first i
      sections fit, the running offsets, the placements and the bytes
      written are those of PlacementOf, OffsetAfter, DecompressedAfter and
      ExtraTable. */
  ghost predicate ExtraLoopState(b: Inputs, i: nat, start: seq<u8>, data: seq<u8>, placements: seq<Placement>,
                                 curOffset: nat, curDecompressed: nat)
  {
    && b.Wf() && IdsFit(b) && i <= b.Count() && ExtrasPackable(b, i)
    && curOffset == OffsetAfter(b, i) && curDecompressed == DecompressedAfter(b, i)
    && placements == Placements(b, i) && data == start + ExtraTable(b, i)
  }

  lemma {:induction false} ExtraLoopStart(b: Inputs, start: seq<u8>)
    requires b.Wf() && IdsFit(b)
    ensures ExtraLoopState(b, 0, start, start, [], FirstOffset(b.origSize), 0)
  {
    assert start + [] == start;
  }

  /** Iteration i of the SectionExtraInfo loop, with the loop's state: the
      placements so far, the two running offsets and the bytes written. */
  method ExtraIteration(f: Writer, b: Inputs, i: nat, ghost start: seq<u8>, placements: seq<Placement>,
                        curOffset: nat, curDecompressed: nat)
    returns (ok: bool, placements': seq<Placement>, curOffset': nat, curDecompressed': nat)
    requires i < b.Count() && ExtraLoopState(b, i, start, f.data, placements, curOffset, curDecompressed)
    modifies f
    ensures ok ==> ExtraLoopState(b, i + 1, start, f.data, placements', curOffset', curDecompressed')
    ensures !ok ==> !ExtrasPackable(b, b.Count())
  {
    var p, nextOffset;
    ok, p, nextOffset := WriteExtraInfo(f, b, i, curOffset, curDecompressed);
    placements', curOffset', curDecompressed' := placements, curOffset, curDecompressed;
    if ok {
      ExtrasGrow(b, i);
      ExtraStep(b, i);
      Assoc(start, ExtraTable(b, i), ExtraOf(b, i));
      placements' := placements + [p];
      curOffset' := nextOffset;
      curDecompressed' := curDecompressed + Round16(|b.contents[i]|);
    }
  }

  /** The first i + 1 sections fit once the first i and section i do. */
  lemma {:induction false} ExtrasGrow(b: Inputs, i: nat)
    requires b.Wf() && i < b.Count() && ExtrasPackable(b, i) && ExtraPackable(b, i)
    ensures ExtrasPackable(b, i + 1)
  {
    forall j | 0 <= j <= i ensures ExtraPackable(b, j) && |b.contents[j]| < MaxPayload {
      if j < i {
        assert ExtraPackable(b, j);
      }
    }
  }

  /** What iteration i of the SectionExtraInfo loop adds, stated against the
      inputs. */
  lemma {:induction false} ExtraStep(b: Inputs, i: nat)
    requires b.Wf() && i < b.Count()
    requires IdsFit(b) && ExtrasPackable(b, i + 1)
    ensures ExtraTable(b, i + 1) == ExtraTable(b, i) + ExtraOf(b, i)
    ensures Placements(b, i + 1) == Placements(b, i) + [PlacementOf(b, i)]
    ensures DecompressedAfter(b, i + 1) == DecompressedAfter(b, i) + Round16(|b.contents[i]|)
  {
    assert ExtraPackable(b, i);
    PlacementsStep(b, i);
  }

  /** One more placement. */
  lemma {:induction false} PlacementsStep(b: Inputs, i: nat)
    requires b.Wf() && i < b.Count() && PayloadsFit(b, i + 1)
    ensures PayloadsFit(b, i) && |b.contents[i]| < MaxPayload
    ensures Placements(b, i + 1) == Placements(b, i) + [PlacementOf(b, i)]
  {
    var p, q := Placements(b, i + 1), Placements(b, i) + [PlacementOf(b, i)];
    forall j | 0 <= j <= i ensures p[j] == q[j] {
    }
    assert p == q;
  }

  lemma {:induction false} OffsetStep(b: Inputs, i: nat)
    requires b.Wf() && i < b.Count()
    ensures OffsetAfter(b, i + 1) == NextBoundary(OffsetAfter(b, i) + ContainerLen(b, i))
  {
  }

  /** One iteration of the SectionExtraInfo loop: it writes the unique id
      and the packed offset, makes the container, writes its length and the
      decompressed offset, and yields the container's placement and the
      next offset. As for SectionInfo, a value that does not fit fails the
      iteration before anything is written. */
  method WriteExtraInfo(f: Writer, b: Inputs, i: nat, curOffset: nat, curDecompressed: nat)
    returns (ok: bool, p: Placement, nextOffset: nat)
    requires b.Wf() && i < b.Count() && IsU32(b.sections[i].id)
    requires curOffset == OffsetAfter(b, i) && curDecompressed == DecompressedAfter(b, i)
    modifies f
    ensures ok <==> ExtraPackable(b, i)
    ensures ok ==> p == PlacementOf(b, i)
    ensures ok ==> nextOffset == OffsetAfter(b, i + 1)
    ensures ok ==> f.data == old(f.data) + ExtraOf(b, i)
  {
    var id, content, last := b.sections[i].id, b.contents[i], IsLast(b, i);
    var packedOffset := PackedOffset(curOffset);
    if !IsU32(packedOffset) || |content| >= MaxPayload || !IsU32(curDecompressed) {
      return false, Placement(curOffset, []), curOffset;
    }
    var cdrm := MakeCdrm(content, last);
    ExtraFacts(b, i, cdrm);
    p := Placement(curOffset, cdrm);
    nextOffset := NextBoundary(curOffset + |cdrm|);
    WriteExtraRecord(f, id, packedOffset, |cdrm|, curDecompressed);
    ok := true;
  }

  /** What the values computed in iteration i are, once its container is
      made. */
  lemma {:induction false} ExtraFacts(b: Inputs, i: nat, cdrm: seq<u8>)
    requires b.Wf() && i < b.Count() && IsU32(b.sections[i].id) && ExtraPackable(b, i)
    requires cdrm == CdrmImage(b.contents[i], IsLast(b, i))
    ensures Placement(OffsetAfter(b, i), cdrm) == PlacementOf(b, i)
    ensures IsU32(|cdrm|) && |cdrm| == ContainerLen(b, i)
    ensures NextBoundary(OffsetAfter(b, i) + |cdrm|) == OffsetAfter(b, i + 1)
    ensures ExtraInfo(b.sections[i].id, PackedOffset(OffsetAfter(b, i)), |cdrm|, DecompressedAfter(b, i)) == ExtraOf(b, i)
  {
    ContainerLenFits(b, i);
    OffsetStep(b, i);
  }

  /** The writes of one SectionExtraInfo. */
  method WriteExtraRecord(f: Writer, id: u32, packedOffset: u32, containerLen: u32, decompressed: u32)
    modifies f
    ensures f.data == old(f.data) + ExtraInfo(id, packedOffset, containerLen, decompressed)
  {
    ghost var start := f.data;
    f.WriteU32(UniqueId(id));
    f.WriteU32(packedOffset);
    Assoc(start, U32Le(UniqueId(id)), U32Le(packedOffset));
    ghost var w := U32Le(UniqueId(id)) + U32Le(packedOffset);
    f.WriteU32(containerLen);
    Assoc(start, w, U32Le(containerLen));
    f.WriteU32(decompressed);
    Assoc(start, w + U32Le(containerLen), U32Le(decompressed));
  }
}
