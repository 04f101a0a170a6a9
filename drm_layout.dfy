/** What the DRM builder's output looks like: where each container goes in
    the archive, how the 'NEXT' pointers chain the containers, the packed
    offsets and unique ids, the decompressed offsets, and where each field
    of the DRM file lies. */
module DrmLayout {
  import opened Bytes
  import opened Bits
  import opened Offsets
  import opened Cdrm
  import opened Drm

  /** Where section i's container ends in the archive. */
  function EndOf(b: Inputs, i: nat): (e: nat)
    requires b.Wf() && i < b.Count()
  {
    OffsetAfter(b, i) + ContainerLen(b, i)
  }

  /** The first container goes to an 0x800 boundary at least 0x800 past the
      original archive's end, and every container starts on an 0x800
      boundary. */
  lemma {:induction false} PlacementsAligned(b: Inputs, i: nat)
    requires b.Wf() && i <= b.Count()
    ensures OffsetAfter(b, i) % ContainerAlign == 0
    ensures OffsetAfter(b, i) >= b.origSize + ContainerAlign
    decreases i
  {
    if i > 0 {
      PlacementsAligned(b, i - 1);
    }
  }

  /** Each container starts at the first boundary at or past the end of the
      one before it; a container with a trailer never ends on a boundary, so
      the next one starts strictly after it. */
  lemma {:induction false} NextPlacement(b: Inputs, i: nat)
    requires b.Wf() && i < b.Count()
    ensures EndOf(b, i) <= OffsetAfter(b, i + 1) < EndOf(b, i) + ContainerAlign
    ensures !IsLast(b, i) ==> EndOf(b, i) < OffsetAfter(b, i + 1)
  {
    OffsetStep(b, i);
    NextStart(OffsetAfter(b, i), |b.contents[i]|, IsLast(b, i), OffsetAfter(b, i + 1));
  }

  /** Containers never overlap: every one placed later starts past the end
      of every one placed earlier. */
  lemma {:induction false} PlacementsDisjoint(b: Inputs, i: nat, j: nat)
    requires b.Wf() && i < j <= b.Count()
    ensures EndOf(b, i) <= OffsetAfter(b, j)
    decreases j
  {
    NextPlacement(b, i);
    if j > i + 1 {
      PlacementsDisjoint(b, i, j - 1);
      NextPlacement(b, j - 1);
    }
  }

  /** Section offsets strictly increase. */
  lemma {:induction false} PlacementsIncrease(b: Inputs, i: nat, j: nat)
    requires b.Wf() && i < j <= b.Count()
    ensures OffsetAfter(b, i) < OffsetAfter(b, j)
  {
    PlacementsDisjoint(b, i, j);
    assert ContainerLen(b, i) >= HeaderSize;
  }

  /** The DRM goes past the last container: target_offset is the boundary
      the last container's length leads to. */
  lemma {:induction false} TargetPastContainers(b: Inputs)
    requires b.Wf()
    ensures b.Count() == 0 ==> OffsetAfter(b, 0) == FirstOffset(b.origSize)
    ensures b.Count() > 0 ==> forall i :: 0 <= i < b.Count() ==> EndOf(b, i) <= OffsetAfter(b, b.Count())
  {
    forall i | 0 <= i < b.Count() ensures EndOf(b, i) <= OffsetAfter(b, b.Count()) {
      PlacementsDisjoint(b, i, b.Count());
    }
  }

  /** The 'NEXT' marker of a container that is not the last one, read as an
      archive position, points at the next section's placement. */
  lemma {:induction false} NextPointerLands(b: Inputs, i: nat)
    requires b.Wf() && i < b.Count() && !IsLast(b, i) && |b.contents[i]| < MaxPayload
    ensures var c := CdrmImage(b.contents[i], false); var m := MarkerPos(|b.contents[i]|);
      && ReadU32Le(c, m) == NextMarker
      && OffsetAfter(b, i) + m + ReadU32Le(c, m + 4) == OffsetAfter(b, i + 1)
  {
    var c := CdrmImage(b.contents[i], false);
    CdrmTrailer(b.contents[i]);
    PowersOfTwo();
    PlacementsAligned(b, i);
    NextValidOffsetShift(OffsetAfter(b, i), |c|, ContainerAlign);
  }

  /** `offset | k_dlc_index` for an aligned offset: the index sits in the
      low eleven bits the alignment leaves clear, so `packed & ~0x7FF` gives
      the offset back and `packed & 0x7FF` is the index. */
  lemma {:induction false} PackedOffsetSplits(offset: nat)
    requires offset % ContainerAlign == 0
    ensures PackedOffset(offset) == offset + DlcIndex
    ensures PackedOffset(offset) % ContainerAlign == DlcIndex
    ensures MaskLow(PackedOffset(offset), ContainerAlign) == offset
  {
    PowersOfTwo();
    OrDisjoint(offset, DlcIndex, ContainerAlign);
    DivModUnique(offset + DlcIndex, ContainerAlign, offset / ContainerAlign, DlcIndex);
    MaskLowIsRoundDown(offset + DlcIndex, ContainerAlign);
  }

  /** `id | 7 << 25` adds the three type bits to an id below 2^25. */
  lemma {:induction false} UniqueIdAdds(id: u32)
    requires id < 0x200_0000
    ensures UniqueId(id) == id + DtpIdBits
  {
    WidePowersOfTwo();
    OrCommutes(id, DtpIdBits);
    OrDisjoint(DtpIdBits, id, 0x200_0000);
  }

  /** The running decompressed offset is the sum so far of the file sizes,
      each rounded up to 16: files of 17 and 32 bytes start at 0 and 32. */
  lemma {:induction false} DecompressedExample(b: Inputs)
    requires b.Wf() && b.Count() == 2 && |b.contents[0]| == 17 && |b.contents[1]| == 32
    ensures DecompressedAfter(b, 0) == 0 && DecompressedAfter(b, 1) == 32 && DecompressedAfter(b, 2) == 64
  {
    assert Round16(17) == 32 by {
      assert 32 % 16 == 0;
      Round16IsLeast(17, 32);
    }
  }

  /** Round16 is the least multiple of 16 at or past n. */
  lemma {:induction false} Round16IsLeast(n: nat, m: nat)
    requires m % 16 == 0 && n <= m < n + 16
    ensures Round16(n) == m
  {
    var r := Round16(n);
    if r < m {
      MultiplesApart(r, m, 16);
    } else if m < r {
      MultiplesApart(m, r, 16);
    }
  }

  /** Every section is of type "dtp", as every section the manifest loop
      accepts is. */
  predicate AllDtp(b: Inputs) {
    forall i :: 0 <= i < |b.sections| ==> b.sections[i].typ == "dtp"
  }

  /** The SectionInfo fields as they lie in a "dtp" record: size, type byte
      7, three zero bytes, reloc_size << 8, id, specMask 0xffffffff. */
  lemma {:induction false} InfoRecordFields(size: u32, packed: u32, id: u32)
    ensures var r := InfoRecord(size, true, packed, id);
      && ReadU32Le(r, 0) == size && r[4] == DtpTypeCode && r[5] == 0 && r[6] == 0 && r[7] == 0
      && ReadU32Le(r, 8) == packed && ReadU32Le(r, 12) == id && ReadU32Le(r, 16) == SpecMaskAll
  {
    var r := InfoRecord(size, true, packed, id);
    ReadU32Within([], size, r[4..]);
    assert r == [] + U32Le(size) + r[4..];
    ReadU32Within(r[..8], packed, r[12..]);
    assert r == r[..8] + U32Le(packed) + r[12..];
    ReadU32Within(r[..12], id, r[16..]);
    assert r == r[..12] + U32Le(id) + r[16..];
    ReadU32Within(r[..16], SpecMaskAll, []);
    assert r == r[..16] + U32Le(SpecMaskAll) + [];
  }

  /** With every section of type "dtp", the SectionInfo table holds 20
      bytes per section, section i's record starting at 20 * i. */
  lemma {:induction false} InfoTableLayout(b: Inputs, k: nat, i: nat)
    requires b.Wf() && k <= b.Count() && AllDtp(b)
    requires forall j :: 0 <= j < k ==> InfoPackable(b.sections[j], b.contents[j])
    ensures |InfoTable(b, k)| == SectionInfoSize * k
    ensures i < k ==> Embeds(InfoTable(b, k), SectionInfoSize * i, SectionInfo(b.sections[i], b.contents[i]))
    decreases k
  {
    if k > 0 {
      InfoTableLayout(b, k - 1, i);
      var t := InfoTable(b, k - 1);
      var r := SectionInfo(b.sections[k - 1], b.contents[k - 1]);
      EmbedsConcat(t, r);
      if i < k - 1 {
        EmbedsTrans(t + r, 0, t, SectionInfoSize * i, SectionInfo(b.sections[i], b.contents[i]));
      }
    }
  }

  /** The SectionExtraInfo table holds 16 bytes per section, section i's
      record starting at 16 * i. */
  lemma {:induction false} ExtraTableLayout(b: Inputs, k: nat, i: nat)
    requires b.Wf() && k <= b.Count() && IdsFit(b) && ExtrasPackable(b, k) && i < k
    ensures Embeds(ExtraTable(b, k), ExtraInfoSize * i, ExtraOf(b, i))
    decreases k
  {
    var t := ExtraTable(b, k - 1);
    assert ExtraPackable(b, k - 1);
    var r := ExtraOf(b, k - 1);
    EmbedsConcat(t, r);
    if i < k - 1 {
      ExtraTableLayout(b, k - 1, i);
      EmbedsTrans(t + r, 0, t, ExtraInfoSize * i, ExtraOf(b, i));
    }
  }

  /** DRMHeader's fields: version 0x16, five zero words, numSections,
      primarySection. */
  lemma {:induction false} DrmHeaderFields(n: u32, primary: u32)
    ensures var h := DrmHeader(n, primary);
      && ReadU32Le(h, 0) == DrmVersion && ReadU32Le(h, 4) == 0 && ReadU32Le(h, 8) == 0
      && ReadU32Le(h, 12) == 0 && ReadU32Le(h, 16) == 0 && ReadU32Le(h, 20) == 0
      && ReadU32Le(h, 24) == n && ReadU32Le(h, 28) == primary
  {
    var h := DrmHeader(n, primary);
    U32RoundTrip(DrmVersion);
    U32RoundTrip(0);
    U32RoundTrip(n);
    U32RoundTrip(primary);
  }

  /** SectionExtraInfo's fields: unique id, packed offset, container length,
      decompressed offset. */
  lemma {:induction false} ExtraRecordFields(id: u32, packedOffset: u32, containerLen: u32, decompressed: u32)
    ensures var r := ExtraInfo(id, packedOffset, containerLen, decompressed);
      && ReadU32Le(r, 0) == UniqueId(id) && ReadU32Le(r, 4) == packedOffset
      && ReadU32Le(r, 8) == containerLen && ReadU32Le(r, 12) == decompressed
  {
    var r := ExtraInfo(id, packedOffset, containerLen, decompressed);
    ReadEncodedU32(r, 0, UniqueId(id));
    ReadEncodedU32(r, 4, packedOffset);
    ReadEncodedU32(r, 8, containerLen);
    ReadEncodedU32(r, 12, decompressed);
  }

  /** The DRM file: the 32-byte header, then 20 bytes of SectionInfo and 16
      bytes of SectionExtraInfo per section. The header holds the section
      count and the primary index. */
  lemma {:induction false} DrmFileLayout(b: Inputs)
    requires b.Wf() && Packable(b) && AllDtp(b)
    ensures var d := DrmOf(b).drm;
      && |d| == DrmHeaderSize + (SectionInfoSize + ExtraInfoSize) * b.Count()
      && ReadU32Le(d, 0) == DrmVersion
      && ReadU32Le(d, 24) == b.Count() && ReadU32Le(d, 28) == b.primary
  {
    InfoTableLayout(b, b.Count(), 0);
    DrmBytes(b.Count(), b.primary, InfoTable(b, b.Count()), ExtraTable(b, b.Count()));
  }

  /** The header's words, read in the whole file. */
  lemma {:induction false} DrmBytes(n: u32, primary: u32, t: seq<u8>, x: seq<u8>)
    ensures var d := DrmHeader(n, primary) + t + x;
      && ReadU32Le(d, 0) == DrmVersion && ReadU32Le(d, 24) == n && ReadU32Le(d, 28) == primary
  {
    var h := DrmHeader(n, primary);
    var d := h + t + x;
    DrmHeaderFields(n, primary);
    Assoc(h, t, x);
    EmbedsConcat(h, t + x);
    ReadEmbedded(d, 0, h, 0);
    ReadEmbedded(d, 0, h, 24);
    ReadEmbedded(d, 0, h, 28);
  }

  /** Section i's SectionInfo lies in the DRM file at 32 + 20 * i. */
  lemma {:induction false} SectionInfoInDrm(b: Inputs, i: nat)
    requires b.Wf() && Packable(b) && AllDtp(b) && i < b.Count()
    ensures InfoPackable(b.sections[i], b.contents[i])
    ensures Embeds(DrmOf(b).drm, DrmHeaderSize + SectionInfoSize * i,
                   SectionInfo(b.sections[i], b.contents[i]))
  {
    assert InfoPackable(b.sections[i], b.contents[i]);
    var h, t := DrmHeader(b.Count(), b.primary), InfoTable(b, b.Count());
    InfoTableLayout(b, b.Count(), i);
    PackableIdsFit(b);
    InTable(h, t, ExtraTable(b, b.Count()), SectionInfoSize * i, SectionInfo(b.sections[i], b.contents[i]));
  }

  /** Section i's SectionExtraInfo lies in the DRM file after the
      SectionInfo table, at 32 + 20 * n + 16 * i. */
  lemma {:induction false} ExtraInfoInDrm(b: Inputs, i: nat)
    requires b.Wf() && Packable(b) && AllDtp(b) && i < b.Count()
    ensures IdsFit(b) && ExtraPackable(b, i)
    ensures Embeds(DrmOf(b).drm, DrmHeaderSize + SectionInfoSize * b.Count() + ExtraInfoSize * i,
                   ExtraOf(b, i))
  {
    PackableIdsFit(b);
    assert ExtraPackable(b, i);
    var h, t := DrmHeader(b.Count(), b.primary), InfoTable(b, b.Count());
    InfoTableLayout(b, b.Count(), 0);
    ExtraTableLayout(b, b.Count(), i);
    InLastTable(h, t, ExtraTable(b, b.Count()), ExtraInfoSize * i, ExtraOf(b, i));
  }

  /** A record embedded in the middle part of a file. */
  lemma {:induction false} InTable(h: seq<u8>, t: seq<u8>, x: seq<u8>, off: nat, r: seq<u8>)
    requires Embeds(t, off, r)
    ensures Embeds(h + t + x, |h| + off, r)
  {
    EmbedsConcat(h + t, x);
    EmbedsConcat(h, t);
    EmbedsTrans(h + t + x, 0, h + t, |h|, t);
    EmbedsTrans(h + t + x, |h|, t, off, r);
  }

  /** A record embedded in the last part of a file. */
  lemma {:induction false} InLastTable(h: seq<u8>, t: seq<u8>, x: seq<u8>, off: nat, r: seq<u8>)
    requires Embeds(x, off, r)
    ensures Embeds(h + t + x, |h| + |t| + off, r)
  {
    EmbedsConcat(h + t, x);
    EmbedsTrans(h + t + x, |h + t|, x, off, r);
  }

  lemma {:induction false} PackableIdsFit(b: Inputs)
    requires b.Wf() && Packable(b)
    ensures IdsFit(b)
  {
    forall j | 0 <= j < b.Count() ensures IsU32(b.sections[j].id) {
      assert InfoPackable(b.sections[j], b.contents[j]);
    }
  }
}
