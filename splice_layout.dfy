/** The builder's output meets the splicer: the placements it computes lie
    past the rewritten archive and ascend, so every pad_to of the section
    loop succeeds, and the archive that results holds each container and
    the DRM file where the records and the SectionExtraInfo entries say.
    Also the one build the final pad_to wrongly refuses. */
module SpliceLayout {
  import opened Bytes
  import opened Bits
  import opened Errors
  import opened Cdrm
  import opened Drm
  import opened DrmLayout
  import opened Records
  import opened Tiger

  /** Placement i of the builder's list is section i's container at its
      offset. */
  lemma PlacementsIndex(b: Inputs, k: nat, i: nat)
    requires b.Wf() && k <= b.Count() && PayloadsFit(b, k) && i < k
    ensures |b.contents[i]| < MaxPayload && Placements(b, k)[i] == PlacementOf(b, i)
    ensures Placements(b, k)[i].offset == OffsetAfter(b, i)
    ensures |Placements(b, k)[i].cdrm| == ContainerLen(b, i)
  {
  }

  /** Where the zero padding before container i, or before the DRM when
      i is the section count, starts. */
  function GapBefore(b: Inputs, i: nat): nat
    requires b.Wf() && i <= b.Count()
  {
    if i == 0 then b.origSize else EndOf(b, i - 1)
  }

  /** The padding before placement i of the builder's list starts where
      GapBefore says. */
  lemma {:induction false} GapMatches(b: Inputs, i: nat)
    requires b.Wf() && PayloadsFit(b, b.Count()) && i < b.Count()
    ensures |b.contents[i]| < MaxPayload && Placements(b, b.Count())[i] == PlacementOf(b, i)
    ensures GapStart(b.origSize, Placements(b, b.Count()), i) == GapBefore(b, i)
  {
    PlacementsIndex(b, b.Count(), i);
    if i > 0 {
      PlacementsIndex(b, b.Count(), i - 1);
    }
  }

  /** The builder's placements ascend from the original archive's end, and
      the DRM's offset lies at or past the end of the last container. */
  lemma {:induction false} BuildAscends(b: Inputs)
    requires b.Wf() && PayloadsFit(b, b.Count())
    ensures Ascending(b.origSize, Placements(b, b.Count()))
    ensures EndAfter(b.origSize, Placements(b, b.Count())) == GapBefore(b, b.Count())
    ensures GapBefore(b, b.Count()) <= OffsetAfter(b, b.Count())
  {
    var n := b.Count();
    var ps := Placements(b, n);
    forall i | 0 <= i < n ensures GapStart(b.origSize, ps, i) < ps[i].offset {
      GapMatches(b, i);
      if i > 0 {
        NextPlacement(b, i - 1);
      }
    }
    if n > 0 {
      PlacementsIndex(b, n, n - 1);
      assert EndAfter(b.origSize, ps) == EndOf(b, n - 1);
      NextPlacement(b, n - 1);
    }
  }

  /** The corrected final pad's output: what came before, zeros up to
      target, then the DRM. */
  lemma {:induction false} AppendLayout(acc: seq<u8>, target: nat, drm: seq<u8>, out: seq<u8>)
    requires AppendDrm(acc, target, drm) == Ok(out)
    ensures acc <= out && |out| == target + |drm|
    ensures ZeroSpan(out, |acc|, target) && Embeds(out, target, drm)
  {
    var z := Zeros(target - |acc|);
    assert out == acc + z + drm;
    forall j | |acc| <= j < target ensures out[j] == 0 {
      assert out[j] == z[j - |acc|];
    }
    forall j | 0 <= j < |drm| ensures out[target + j] == drm[j] {
      assert out[target + j] == (acc + z + drm)[|acc + z| + j];
    }
    assert out[..|acc|] == acc;
  }

  /** Facts about a prefix hold of whatever extends it. */
  lemma {:induction false} PrefixCarries(d: seq<u8>, out: seq<u8>, at: nat, c: seq<u8>, from: nat, to: nat)
    requires d <= out
    ensures Embeds(d, at, c) ==> Embeds(out, at, c)
    ensures ZeroSpan(d, from, to) ==> ZeroSpan(out, from, to)
  {
    if Embeds(d, at, c) {
      forall j | 0 <= j < |c| ensures out[at + j] == c[j] {
        assert out[at + j] == d[at + j];
      }
    }
    if ZeroSpan(d, from, to) {
      forall j | from <= j < to ensures out[j] == 0 {
        assert out[j] == d[j];
      }
    }
  }

  /** Any splice that gets through: the rewritten image is kept, each
      container lies at its placement with zeros before it, and the DRM
      lies at its target with zeros before it. */
  lemma {:induction false} SplicePieces(orig: seq<u8>, build: DrmBuild, out: seq<u8>)
    requires SpliceImage(orig, build) == Ok(out)
    ensures Rewritten(orig, |build.drm|, build.target).Ok?
    ensures var img := Rewritten(orig, |build.drm|, build.target).value; var ps := build.placements;
      && img <= out && Ascending(|img|, ps)
      && (forall i :: 0 <= i < |ps| ==> Embeds(out, ps[i].offset, ps[i].cdrm))
      && (forall i :: 0 <= i < |ps| ==> ZeroSpan(out, GapStart(|img|, ps, i), ps[i].offset))
      && ZeroSpan(out, EndAfter(|img|, ps), build.target)
      && |out| == build.target + |build.drm| && Embeds(out, build.target, build.drm)
  {
    var img := Rewritten(orig, |build.drm|, build.target).value;
    var ps := build.placements;
    PlaceAllOk(img, ps);
    PlaceAllLayout(img, ps);
    var placed := PlaceAll(img, ps).value;
    AppendLayout(placed, build.target, build.drm, out);
    forall i | 0 <= i < |ps|
      ensures Embeds(out, ps[i].offset, ps[i].cdrm) && ZeroSpan(out, GapStart(|img|, ps, i), ps[i].offset)
    {
      PrefixCarries(placed, out, ps[i].offset, ps[i].cdrm, GapStart(|img|, ps, i), ps[i].offset);
    }
  }

  /** Placement i's container and the zeros before it, in any splice that
      gets through. */
  lemma {:induction false} PieceAt(orig: seq<u8>, build: DrmBuild, out: seq<u8>, i: nat)
    requires SpliceImage(orig, build) == Ok(out) && i < |build.placements|
    ensures Rewritten(orig, |build.drm|, build.target).Ok?
    ensures Embeds(out, build.placements[i].offset, build.placements[i].cdrm)
    ensures ZeroSpan(out, GapStart(|orig|, build.placements, i), build.placements[i].offset)
  {
    SplicePieces(orig, build, out);
    RewrittenSize(orig, |build.drm|, build.target);
  }

  /** The final pad for placements that ascend from the end of the
      rewritten image: the corrected pad gets through when the containers
      end at or before the DRM's offset; the script's pad agrees with it when
      they end before, and stops the build when they end exactly there. */
  lemma {:induction false} FinalPad(orig: seq<u8>, build: DrmBuild)
    requires Rewritten(orig, |build.drm|, build.target).Ok?
    requires Ascending(|orig|, build.placements)
    ensures EndAfter(|orig|, build.placements) <= build.target ==> SpliceImage(orig, build).Ok?
    ensures EndAfter(|orig|, build.placements) < build.target ==>
      SpliceImageAsWritten(orig, build) == SpliceImage(orig, build)
    ensures EndAfter(|orig|, build.placements) == build.target ==>
      SpliceImageAsWritten(orig, build) == Err(BuildError(PadBackward))
  {
    var img := Rewritten(orig, |build.drm|, build.target).value;
    RewrittenSize(orig, |build.drm|, build.target);
    PlaceAllLayout(img, build.placements);
  }

  /** With the builder's output and an archive of the size the builder was
      told, the splice gets through exactly when the rewrite does: the
      header holds a count, the new count and the DRM's record fit 32 bits,
      and the archive runs past the end of the new table. */
  lemma {:induction false} SpliceOk(orig: seq<u8>, b: Inputs)
    requires b.Wf() && Packable(b) && b.origSize == |orig|
    ensures SpliceImage(orig, DrmOf(b)).Ok? <==> Rewritten(orig, |DrmOf(b).drm|, DrmOf(b).target).Ok?
    ensures SpliceImage(orig, DrmOf(b)).Ok? <==>
      && |orig| >= ConfigStart
      && IsU32(CountOf(orig) + 1)
      && Fits(DrmRecord(|DrmOf(b).drm|, DrmOf(b).target))
      && TailStart(CountOf(orig)) < |orig|
  {
    var build := DrmOf(b);
    RewrittenOk(orig, |build.drm|, build.target);
    if Rewritten(orig, |build.drm|, build.target).Ok? {
      BuildAscends(b);
      FinalPad(orig, build);
    }
  }

  /** The archive a successful splice of the builder's output writes: the
      rewritten original, zeros up to the DRM's offset past the last
      container, and the DRM file there, ending the archive. */
  lemma {:induction false} SpliceEnds(orig: seq<u8>, b: Inputs, out: seq<u8>)
    requires b.Wf() && Packable(b) && b.origSize == |orig|
    requires SpliceImage(orig, DrmOf(b)) == Ok(out)
    ensures Rewritten(orig, |DrmOf(b).drm|, DrmOf(b).target).Ok?
    ensures Rewritten(orig, |DrmOf(b).drm|, DrmOf(b).target).value <= out
    ensures |out| == OffsetAfter(b, b.Count()) + |DrmOf(b).drm|
    ensures ZeroSpan(out, GapBefore(b, b.Count()), OffsetAfter(b, b.Count()))
    ensures Embeds(out, OffsetAfter(b, b.Count()), DrmOf(b).drm)
  {
    var build := DrmOf(b);
    SplicePieces(orig, build, out);
    RewrittenSize(orig, |build.drm|, build.target);
    BuildAscends(b);
  }

  /** Section i's container lies in the spliced archive at the offset its
      SectionExtraInfo entry gives, after zeros from the end of what comes
      before it. */
  lemma {:induction false} ContainerInSplice(orig: seq<u8>, b: Inputs, out: seq<u8>, i: nat)
    requires b.Wf() && Packable(b) && b.origSize == |orig| && i < b.Count()
    requires SpliceImage(orig, DrmOf(b)) == Ok(out)
    ensures |b.contents[i]| < MaxPayload
    ensures Embeds(out, OffsetAfter(b, i), CdrmImage(b.contents[i], IsLast(b, i)))
    ensures ZeroSpan(out, GapBefore(b, i), OffsetAfter(b, i))
  {
    PieceAt(orig, DrmOf(b), out, i);
    GapMatches(b, i);
  }

  // ---- The final pad_to ----

  /** The last container ends on an 0x800 boundary exactly when its header
      and payload together fill whole 0x800 blocks. */
  lemma {:induction false} LastEndAligned(b: Inputs)
    requires b.Wf() && b.Count() > 0
    ensures EndOf(b, b.Count() - 1) % ContainerAlign == (HeaderSize + |b.contents[b.Count() - 1]|) % ContainerAlign
    ensures OffsetAfter(b, b.Count()) == NextBoundary(EndOf(b, b.Count() - 1))
  {
    var n := b.Count();
    OffsetStep(b, n - 1);
    ShiftByMultiple(OffsetAfter(b, n - 1), HeaderSize + |b.contents[n - 1]|, ContainerAlign);
  }

  /** pad_to before the DRM as the script writes it stops a build that the
      section loop got through, whenever the last section's header and
      payload fill whole 0x800 blocks (a payload of 0x7E0 bytes, say): the
      cursor is then already at the DRM's offset. The corrected pad lets the
      same build through. */
  lemma {:induction false} ExactFitRejected(orig: seq<u8>, b: Inputs)
    requires b.Wf() && Packable(b) && b.origSize == |orig|
    requires Rewritten(orig, |DrmOf(b).drm|, DrmOf(b).target).Ok?
    requires b.Count() > 0 && (HeaderSize + |b.contents[b.Count() - 1]|) % ContainerAlign == 0
    ensures SpliceImageAsWritten(orig, DrmOf(b)) == Err(BuildError(PadBackward))
    ensures SpliceImage(orig, DrmOf(b)).Ok?
  {
    BuildAscends(b);
    LastEndAligned(b);
    FinalPad(orig, DrmOf(b));
  }

  /** In every other case the script's pad and the corrected one agree. */
  lemma {:induction false} OtherwiseAgree(orig: seq<u8>, b: Inputs)
    requires b.Wf() && Packable(b) && b.origSize == |orig|
    requires b.Count() == 0 || (HeaderSize + |b.contents[b.Count() - 1]|) % ContainerAlign != 0
    ensures SpliceImageAsWritten(orig, DrmOf(b)) == SpliceImage(orig, DrmOf(b))
  {
    BuildAscends(b);
    DrmPastEnd(b);
    var build := DrmOf(b);
    assert build.placements == Placements(b, b.Count()) && build.target == OffsetAfter(b, b.Count());
    PadsAgree(orig, build);
  }

  /** Unless the last container ends on an 0x800 boundary, the DRM's offset
      lies strictly past it. */
  lemma {:induction false} DrmPastEnd(b: Inputs)
    requires b.Wf()
    requires b.Count() == 0 || (HeaderSize + |b.contents[b.Count() - 1]|) % ContainerAlign != 0
    ensures GapBefore(b, b.Count()) < OffsetAfter(b, b.Count())
  {
    if b.Count() > 0 {
      LastEndAligned(b);
    }
  }

  /** The two pads agree on a build whose containers, when the rewrite gets
      through, ascend and end before the DRM's offset. */
  lemma {:induction false} PadsAgree(orig: seq<u8>, build: DrmBuild)
    requires Rewritten(orig, |build.drm|, build.target).Ok? ==>
      Ascending(|orig|, build.placements) && EndAfter(|orig|, build.placements) < build.target
    ensures SpliceImageAsWritten(orig, build) == SpliceImage(orig, build)
  {
    if Rewritten(orig, |build.drm|, build.target).Ok? {
      FinalPad(orig, build);
    }
  }
}
