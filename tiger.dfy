/** The splicer: writes a new TIGER archive from the original one. It keeps
    the original's first 0x0c bytes, writes the record count plus one,
    keeps the dlcIndex and configName fields (0x10 to 0x34), writes the
    record table with the DRM's record added, copies the rest of the
    original from where the new table ends, and then appends, each after
    zero padding up to its placement, every section's container and the
    DRM file itself. */
module Tiger {
  import opened Bytes
  import opened Errors
  import opened Streams
  import opened Records
  import opened Drm

  const CountPos: nat := 0x0c
  const ConfigStart: nat := 0x10
  const TableStart: nat := 0x34
  /** Name hash of the DRM's record. */
  const DrmHash: u32 := 0x5C66_8E56

  /** The record the splicer adds for the DRM: its size and where it goes,
      with the DLC index in the low bits. */
  function DrmRecord(drmSize: nat, target: nat): Record {
    Record(DrmHash, SpecMaskAll, drmSize, PackedOffset(target))
  }

  /** The record count in the original's header. */
  function CountOf(orig: seq<u8>): u32
    requires |orig| >= ConfigStart
  {
    ReadU32Le(orig, CountPos)
  }

  /** The original's record table, once it is known to be readable. */
  function TableOf(orig: seq<u8>): (r: seq<Record>)
    requires |orig| >= ConfigStart
    requires CountOf(orig) == 0 || TableStart + RecordSize * CountOf(orig) <= |orig|
    ensures |r| == CountOf(orig) && AllFit(r)
  {
    if CountOf(orig) == 0 then [] else RecordsAt(orig, TableStart, CountOf(orig))
  }

  /** Where the copy of the original's tail starts: just past the new,
      one record longer, table. */
  function TailStart(count: nat): nat {
    TableStart + RecordSize * (count + 1)
  }

  /** read_u32 at 0x0c and read_records both succeed: the header holds the
      count and the file holds the whole table. */
  predicate Readable(orig: seq<u8>) {
    |orig| >= ConfigStart
    && (CountOf(orig) == 0 || TableStart + RecordSize * CountOf(orig) <= |orig|)
  }

  /** The archive up to the end of the original's length: the steps inside
      `with open(origtigername)`, in their order, each with the error it
      stops the build with. */
  function Rewritten(orig: seq<u8>, drmSize: nat, target: nat): Result<seq<u8>> {
    if !Readable(orig) then Err(StructError)
    else RewriteFrom(orig, CountOf(orig), InsertRecord(TableOf(orig), DrmRecord(drmSize, target)))
  }

  /** From write_u32(f, record_count + 1) on. */
  function RewriteFrom(orig: seq<u8>, count: nat, sorted: seq<Record>): Result<seq<u8>>
    requires |orig| >= ConfigStart
  {
    if !IsU32(count + 1) || !AllFit(sorted) then Err(StructError)
    else if |orig| < TableStart then Err(BuildError(DestCursorMismatch))
    else if TailStart(count) >= |orig| then Err(BuildError(EmptyRange))
    else
      Ok(orig[..CountPos] + U32Le(count + 1) + orig[ConfigStart..TableStart]
         + EncodeRecords(sorted) + orig[TailStart(count)..])
  }

  /** The section loop: pad_to each placement, then its container. */
  function PlaceAll(acc: seq<u8>, ps: seq<Placement>): Result<seq<u8>>
    decreases |ps|
  {
    if ps == [] then Ok(acc)
    else if |acc| >= ps[0].offset then Err(BuildError(PadBackward))
    else PlaceAll(acc + Zeros(ps[0].offset - |acc|) + ps[0].cdrm, ps[1..])
  }

  /** The final step as the script writes it: pad_to(f, target_offset),
      which rejects a cursor already at target, then the DRM. */
  function AppendDrmAsWritten(acc: seq<u8>, target: nat, drm: seq<u8>): Result<seq<u8>> {
    if |acc| >= target then Err(BuildError(PadBackward))
    else Ok(acc + Zeros(target - |acc|) + drm)
  }

  /** The final step corrected: a cursor already at target needs no
      padding. */
  function AppendDrm(acc: seq<u8>, target: nat, drm: seq<u8>): Result<seq<u8>> {
    if |acc| > target then Err(BuildError(PadBackward))
    else Ok(acc + Zeros(target - |acc|) + drm)
  }

  /** The new archive, with the corrected final pad. */
  function SpliceImage(orig: seq<u8>, build: DrmBuild): Result<seq<u8>> {
    var image :- Rewritten(orig, |build.drm|, build.target);
    var placed :- PlaceAll(image, build.placements);
    AppendDrm(placed, build.target, build.drm)
  }

  /** The new archive as the script writes it. */
  function SpliceImageAsWritten(orig: seq<u8>, build: DrmBuild): Result<seq<u8>> {
    var image :- Rewritten(orig, |build.drm|, build.target);
    var placed :- PlaceAll(image, build.placements);
    AppendDrmAsWritten(placed, build.target, build.drm)
  }

  /** The four words of one record. */
  method WriteRecord(f: Writer, r: Record)
    requires Fits(r)
    modifies f
    ensures f.data == old(f.data) + RecordBytes(r)
  {
    ghost var start := f.data;
    f.WriteU32(r.hash);
    f.WriteU32(r.specMask);
    Assoc(start, U32Le(r.hash), U32Le(r.specMask));
    ghost var w := U32Le(r.hash) + U32Le(r.specMask);
    f.WriteU32(r.size);
    Assoc(start, w, U32Le(r.size));
    f.WriteU32(r.packedOffset);
    Assoc(start, w + U32Le(r.size), U32Le(r.packedOffset));
  }

  /** `for record in records: write_u32 ...`: struct.pack refuses the first
      field that does not fit 32 bits. */
  method WriteRecords(f: Writer, s: seq<Record>) returns (ok: bool)
    modifies f
    ensures ok <==> AllFit(s)
    ensures ok ==> f.data == old(f.data) + EncodeRecords(s)
  {
    ghost var start := f.data;
    for i := 0 to |s|
      invariant forall j :: 0 <= j < i ==> Fits(s[j])
      invariant f.data == start + EncodeRecords(s[..i])
    {
      if !Fits(s[i]) {
        return false;
      }
      WriteRecord(f, s[i]);
      assert s[..i + 1][..i] == s[..i];
      Assoc(start, EncodeRecords(s[..i]), RecordBytes(s[i]));
    }
    assert s[..|s|] == s;
    ok := true;
  }

  /** The steps inside `with open(origtigername)`. */
  method RewriteArchive(o: Reader, f: Writer, drmSize: nat, target: nat) returns (r: Result<seq<u8>>)
    requires o.pos == 0 && f.data == []
    modifies o, f
    ensures r == Rewritten(o.data, drmSize, target)
    ensures r.Ok? ==> f.data == r.value
  {
    var c := StreamCopy(o, f, 0, CountPos);
    ghost var head := f.data;
    o.Seek(CountPos);
    var records := ReadTable(o);
    if records.Err? {
      return Err(StructError);
    }
    assert head == ReadAt(o.data, 0, CountPos) == o.data[..CountPos];
    var sorted := InsertRecord(records.value, DrmRecord(drmSize, target));
    r := RewriteRest(o, f, |records.value|, sorted);
  }

  /** read_u32 at 0x0c, then read_records from 0x34. */
  method ReadTable(o: Reader) returns (r: Result<seq<Record>>)
    requires o.pos == CountPos
    modifies o
    ensures r.Ok? <==> Readable(o.data)
    ensures r.Err? ==> r.error == StructError
    ensures r.Ok? ==> r.value == TableOf(o.data)
  {
    var count := o.ReadU32();
    if count.Err? {
      return Err(StructError);
    }
    o.Seek(o.Tell() + 0x24);
    r := ReadRecords(o, count.value);
  }

  /** From write_u32(f, record_count + 1) to the copy of the tail. */
  method RewriteRest(o: Reader, f: Writer, count: nat, sorted: seq<Record>) returns (r: Result<seq<u8>>)
    requires |o.data| >= ConfigStart && f.data == o.data[..CountPos] && |sorted| == count + 1
    modifies o, f
    ensures r == RewriteFrom(o.data, count, sorted)
    ensures r.Ok? ==> f.data == r.value
  {
    var orig := o.data;
    if !IsU32(count + 1) {
      return Err(StructError);
    }
    f.WriteU32(count + 1);
    o.Seek(ConfigStart);
    var c := StreamCopy(o, f, ConfigStart, TableStart);
    ghost var config := ReadAt(orig, ConfigStart, TableStart - ConfigStart);
    ghost var front := f.data;
    assert front == orig[..CountPos] + U32Le(count + 1) + config;
    var ok := WriteRecords(f, sorted);
    if !ok {
      return Err(StructError);
    }
    var start := TailStart(count);
    o.Seek(start);
    assert |f.data| == CountPos + 4 + |config| + RecordSize * (count + 1);
    c := StreamCopy(o, f, start, |orig|);
    if c.Fail? {
      return Err(c.error);
    }
    assert config == orig[ConfigStart..TableStart];
    assert ReadAt(orig, start, |orig| - start) == orig[start..];
    r := Ok(f.data);
  }

  /** The section loop, proved to compute PlaceAll. */
  method PlaceSections(f: Writer, ps: seq<Placement>) returns (r: Outcome)
    modifies f
    ensures r.Pass? <==> PlaceAll(old(f.data), ps).Ok?
    ensures r.Fail? ==> r.error == PlaceAll(old(f.data), ps).error
    ensures r.Pass? ==> f.data == PlaceAll(old(f.data), ps).value
  {
    ghost var start := f.data;
    for i := 0 to |ps|
      invariant PlaceAll(f.data, ps[i..]) == PlaceAll(start, ps)
    {
      assert ps[i..][0] == ps[i] && ps[i..][1..] == ps[i + 1..];
      var p := PadTo(f, ps[i].offset);
      if p.Fail? {
        return p;
      }
      f.Write(ps[i].cdrm);
    }
    assert ps[|ps|..] == [];
    r := Pass;
  }

  /** The splice, with the corrected final pad. */
  method Splice(orig: seq<u8>, build: DrmBuild) returns (r: Result<seq<u8>>)
    ensures r == SpliceImage(orig, build)
  {
    var o := new Reader(orig);
    var f := new Writer();
    var image := RewriteArchive(o, f, |build.drm|, build.target);
    if image.Err? {
      return Err(image.error);
    }
    var c := PlaceSections(f, build.placements);
    if c.Fail? {
      return Err(c.error);
    }
    c := PadUpTo(f, build.target);
    if c.Fail? {
      return Err(c.error);
    }
    f.Write(build.drm);
    r := Ok(f.data);
  }

  // ---- What the section loop lays down ----

  /** Where the padding before placement i starts: the end of what was
      written before it. */
  function GapStart(from: nat, ps: seq<Placement>, i: nat): nat
    requires i < |ps|
  {
    if i == 0 then from else ps[i - 1].offset + |ps[i - 1].cdrm|
  }

  /** Every placement lies strictly past the end of what precedes it, which
      is what pad_to demands. */
  predicate Ascending(from: nat, ps: seq<Placement>) {
    forall i :: 0 <= i < |ps| ==> GapStart(from, ps, i) < ps[i].offset
  }

  /** The end of the last container, or from when there is none. */
  function EndAfter(from: nat, ps: seq<Placement>): nat {
    if ps == [] then from else ps[|ps| - 1].offset + |ps[|ps| - 1].cdrm|
  }

  lemma {:induction false} AscendingTail(from: nat, ps: seq<Placement>)
    requires ps != [] && Ascending(from, ps)
    ensures from < ps[0].offset
    ensures Ascending(ps[0].offset + |ps[0].cdrm|, ps[1..])
    ensures EndAfter(ps[0].offset + |ps[0].cdrm|, ps[1..]) == EndAfter(from, ps)
  {
    assert GapStart(from, ps, 0) < ps[0].offset;
    var t := ps[1..];
    forall i | 0 <= i < |t| ensures GapStart(ps[0].offset + |ps[0].cdrm|, t, i) < t[i].offset {
      assert GapStart(from, ps, i + 1) < ps[i + 1].offset;
    }
  }

  /** The section loop gets through exactly when every placement lies past
      the end of what precedes it. */
  lemma {:induction false} PlaceAllOk(acc: seq<u8>, ps: seq<Placement>)
    ensures PlaceAll(acc, ps).Ok? <==> Ascending(|acc|, ps)
    decreases |ps|
  {
    if ps != [] {
      if |acc| < ps[0].offset {
        var next := acc + Zeros(ps[0].offset - |acc|) + ps[0].cdrm;
        PlaceAllOk(next, ps[1..]);
        if Ascending(|acc|, ps) {
          AscendingTail(|acc|, ps);
        } else if Ascending(|next|, ps[1..]) {
          forall i | 0 <= i < |ps| ensures GapStart(|acc|, ps, i) < ps[i].offset {
            if i > 0 {
              assert GapStart(|next|, ps[1..], i - 1) < ps[1..][i - 1].offset;
            }
          }
        }
      } else {
        assert !(GapStart(|acc|, ps, 0) < ps[0].offset);
      }
    }
  }

  /** What the section loop writes: the original bytes untouched, then each
      container at its placement, zero bytes in every gap, and nothing past
      the last container. */
  lemma {:induction false} PlaceAllLayout(acc: seq<u8>, ps: seq<Placement>)
    requires Ascending(|acc|, ps)
    ensures PlaceAll(acc, ps).Ok?
    ensures var d := PlaceAll(acc, ps).value;
      && |d| == EndAfter(|acc|, ps) && acc <= d
      && (forall i :: 0 <= i < |ps| ==> Embeds(d, ps[i].offset, ps[i].cdrm))
      && (forall i :: 0 <= i < |ps| ==> ZeroSpan(d, GapStart(|acc|, ps, i), ps[i].offset))
    decreases |ps|
  {
    PlaceAllOk(acc, ps);
    if ps != [] {
      AscendingTail(|acc|, ps);
      var p := ps[0];
      var next := acc + Zeros(p.offset - |acc|) + p.cdrm;
      var t := ps[1..];
      PlaceAllLayout(next, t);
      var d := PlaceAll(next, t).value;
      assert PlaceAll(acc, ps).value == d;
      FirstPlaced(acc, p, next, d);
      forall i | 1 <= i < |ps|
        ensures Embeds(d, ps[i].offset, ps[i].cdrm) && ZeroSpan(d, GapStart(|acc|, ps, i), ps[i].offset)
      {
        assert ps[i] == t[i - 1];
        assert GapStart(|acc|, ps, i) == GapStart(|next|, t, i - 1);
      }
    }
  }

  /** The first container's step, seen in the bytes that extend it. */
  lemma {:induction false} FirstPlaced(acc: seq<u8>, p: Placement, next: seq<u8>, d: seq<u8>)
    requires |acc| < p.offset && next == acc + Zeros(p.offset - |acc|) + p.cdrm && next <= d
    ensures acc <= d && Embeds(d, p.offset, p.cdrm) && ZeroSpan(d, |acc|, p.offset)
  {
    assert d[..|next|] == next;
    forall j | 0 <= j < |p.cdrm| ensures d[p.offset + j] == p.cdrm[j] {
      assert next[p.offset + j] == p.cdrm[j];
    }
    forall j | |acc| <= j < p.offset ensures d[j] == 0 {
      assert next[j] == Zeros(p.offset - |acc|)[j - |acc|];
    }
    assert acc == next[..|acc|];
  }

  // ---- What the rewrite keeps and changes ----

  /** The rewrite gets through exactly when the header holds a count, the
      count plus one fits 32 bits, the DRM's record fits its fields and the
      original runs past the end of the new table. */
  lemma {:induction false} RewrittenOk(orig: seq<u8>, drmSize: nat, target: nat)
    ensures Rewritten(orig, drmSize, target).Ok? <==>
      && |orig| >= ConfigStart
      && IsU32(CountOf(orig) + 1)
      && Fits(DrmRecord(drmSize, target))
      && TailStart(CountOf(orig)) < |orig|
  {
    if |orig| >= ConfigStart && (TailStart(CountOf(orig)) < |orig| || Readable(orig)) {
      assert Readable(orig);
      InsertRecordFits(TableOf(orig), DrmRecord(drmSize, target));
    }
  }

  /** The image the rewrite makes: as long as the original, its first 0x0c
      bytes and the dlcIndex and configName fields kept, the count one
      higher, the table sorted with the DRM's record added, and the
      original's bytes from the end of the new table on. */
  lemma {:induction false} RewrittenLayout(orig: seq<u8>, drmSize: nat, target: nat, img: seq<u8>)
    requires Rewritten(orig, drmSize, target) == Ok(img)
    ensures |orig| >= TailStart(CountOf(orig)) && |img| == |orig|
    ensures img[..CountPos] == orig[..CountPos]
    ensures ReadU32Le(img, CountPos) == CountOf(orig) + 1
    ensures img[ConfigStart..TableStart] == orig[ConfigStart..TableStart]
    ensures RecordsAt(img, TableStart, CountOf(orig) + 1) == InsertRecord(TableOf(orig), DrmRecord(drmSize, target))
    ensures img[TailStart(CountOf(orig))..] == orig[TailStart(CountOf(orig))..]
  {
    var sorted := InsertRecord(TableOf(orig), DrmRecord(drmSize, target));
    FromLayout(orig, CountOf(orig), sorted, img);
  }

  /** The rewrite keeps the original's length. */
  lemma {:induction false} RewrittenSize(orig: seq<u8>, drmSize: nat, target: nat)
    requires Rewritten(orig, drmSize, target).Ok?
    ensures |Rewritten(orig, drmSize, target).value| == |orig|
  {
    var count := CountOf(orig);
    var sorted := InsertRecord(TableOf(orig), DrmRecord(drmSize, target));
    assert |EncodeRecords(sorted)| == RecordSize * (count + 1);
  }

  /** RewriteFrom's image, piece by piece. */
  lemma {:induction false} FromLayout(orig: seq<u8>, count: nat, sorted: seq<Record>, img: seq<u8>)
    requires |orig| >= ConfigStart && |sorted| == count + 1
    requires RewriteFrom(orig, count, sorted) == Ok(img)
    ensures |orig| >= TailStart(count) && |img| == |orig|
    ensures img[..CountPos] == orig[..CountPos]
    ensures ReadU32Le(img, CountPos) == count + 1
    ensures img[ConfigStart..TableStart] == orig[ConfigStart..TableStart]
    ensures RecordsAt(img, TableStart, count + 1) == sorted
    ensures img[TailStart(count)..] == orig[TailStart(count)..]
  {
    var h, w, c := orig[..CountPos], U32Le(count + 1), orig[ConfigStart..TableStart];
    var e, t := EncodeRecords(sorted), orig[TailStart(count)..];
    assert img == h + w + c + e + t;
    assert img == h + w + (c + e + t);
    ReadU32Within(h, count + 1, c + e + t);
    assert img == (h + w + c) + e + t;
    RecordsRoundTrip(h + w + c, sorted, t);
    assert |h + w + c| == TableStart;
    assert img[ConfigStart..TableStart] == c;
    assert img[TailStart(count)..] == t;
  }
}
