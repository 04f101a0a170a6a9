/** The script end to end, once the manifest is read: the DRM is built
    against the original archive's size, written out, and then spliced
    into a new archive together with every section's container. */
module Pipeline {
  import opened Bytes
  import opened Errors
  import opened Manifest
  import opened Cdrm
  import opened Drm
  import opened Records
  import opened Tiger
  import opened SpliceLayout

  /** Every section the manifest loop accepted names a file it could copy. */
  lemma {:induction false} CatalogHasFiles(lines: seq<string>, files: map<string, seq<u8>>, cat: Catalog)
    requires |cat.sections| == |lines|
    requires forall i :: 0 <= i < |lines| ==> CheckLine(lines[i], i, files) == Ok(cat.sections[i])
    ensures HasFiles(cat, files)
  {
    forall i | 0 <= i < |cat.sections| ensures cat.sections[i].file in files {
      assert CheckLine(lines[i], i, files).Ok?;
    }
  }

  /** What the script, with its final pad corrected, leaves as the new
      archive: the builder's error, or the splice of the builder's output. */
  function Assembled(cat: Catalog, files: map<string, seq<u8>>, orig: seq<u8>): Result<seq<u8>>
    requires HasFiles(cat, files)
  {
    var b := InputsOf(cat, files, |orig|);
    if !Packable(b) then Err(StructError) else SpliceImage(orig, DrmOf(b))
  }

  /** The DRM builder followed by the splicer. */
  method BuildArchive(cat: Catalog, files: map<string, seq<u8>>, orig: seq<u8>) returns (r: Result<seq<u8>>)
    requires HasFiles(cat, files)
    ensures r == Assembled(cat, files, orig)
  {
    var build := BuildDrm(cat, files, |orig|);
    if build.Err? {
      return Err(build.error);
    }
    r := Splice(orig, build.value);
  }

  /** The corrected script gets through exactly when every value the
      builder packs fits and the splice of its output gets through; then
      the archive ends with the DRM file at the offset its record gives. */
  lemma {:induction false} AssembledOk(cat: Catalog, files: map<string, seq<u8>>, orig: seq<u8>)
    requires HasFiles(cat, files)
    ensures var b := InputsOf(cat, files, |orig|);
      Assembled(cat, files, orig).Ok? <==>
        && Packable(b)
        && |orig| >= ConfigStart
        && IsU32(CountOf(orig) + 1)
        && Fits(DrmRecord(|DrmOf(b).drm|, DrmOf(b).target))
        && TailStart(CountOf(orig)) < |orig|
    ensures var b := InputsOf(cat, files, |orig|);
      Assembled(cat, files, orig).Ok? ==>
        Embeds(Assembled(cat, files, orig).value, DrmOf(b).target, DrmOf(b).drm)
  {
    var b := InputsOf(cat, files, |orig|);
    if Packable(b) {
      SpliceOk(orig, b);
      if SpliceImage(orig, DrmOf(b)).Ok? {
        SpliceEnds(orig, b, SpliceImage(orig, DrmOf(b)).value);
      }
    }
  }

  /** What the script as written leaves as the new archive: its final
      pad_to also refuses a cursor already at the DRM's offset. */
  function AssembledAsWritten(cat: Catalog, files: map<string, seq<u8>>, orig: seq<u8>): Result<seq<u8>>
    requires HasFiles(cat, files)
  {
    var b := InputsOf(cat, files, |orig|);
    if !Packable(b) then Err(StructError) else SpliceImageAsWritten(orig, DrmOf(b))
  }

  /** The last section's container ends on an 0x800 boundary. */
  predicate EndsOnBoundary(b: Inputs)
    requires b.Wf()
  {
    b.Count() > 0 && (HeaderSize + |b.contents[b.Count() - 1]|) % ContainerAlign == 0
  }

  /** The script as written gets through exactly when the corrected one
      does and the last container does not end on an 0x800 boundary; it
      then writes the same archive. */
  lemma {:induction false} AssembledAsWrittenOk(cat: Catalog, files: map<string, seq<u8>>, orig: seq<u8>)
    requires HasFiles(cat, files)
    ensures var b := InputsOf(cat, files, |orig|);
      AssembledAsWritten(cat, files, orig).Ok? <==>
        && Packable(b)
        && |orig| >= ConfigStart
        && IsU32(CountOf(orig) + 1)
        && Fits(DrmRecord(|DrmOf(b).drm|, DrmOf(b).target))
        && TailStart(CountOf(orig)) < |orig|
        && !EndsOnBoundary(b)
    ensures AssembledAsWritten(cat, files, orig).Ok? ==>
      AssembledAsWritten(cat, files, orig) == Assembled(cat, files, orig)
  {
    var b := InputsOf(cat, files, |orig|);
    if Packable(b) {
      SpliceOk(orig, b);
      if EndsOnBoundary(b) {
        if Rewritten(orig, |DrmOf(b).drm|, DrmOf(b).target).Ok? {
          ExactFitRejected(orig, b);
        }
      } else {
        OtherwiseAgree(orig, b);
      }
    }
  }
}
