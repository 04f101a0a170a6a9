/** The .txtdrm manifest: one section per line, "<type> <id> <file> [flags]",
    read into the list of sections and the index of the primary one. */
module Manifest {
  import opened Bytes
  import opened Errors
  import opened Text

  /** A manifest entry (the Section record before the DRM builder gives it
      an offset and a container). */
  datatype Section = Section(typ: string, id: int, file: string, isPrimary: bool, noReloc: bool)

  /** What the manifest loop leaves behind: the sections in line order, the
      primary section's index (-1 when no line is flagged primary), and
      whether the "multiple primary sections" warning was printed. */
  datatype Catalog = Catalog(sections: seq<Section>, primary: int, multiplePrimary: bool)

  /** get_extension: the only section type the builder knows is "dtp". */
  function Extension(typ: string): (r: Option<string>)
    ensures r.Some? <==> typ == "dtp"
  {
    if typ == "dtp" then Some(".tr9dtp") else None
  }

  /** Tokenising one line: the type, the id as an integer, the file name and
      the flags after them. Tokens are taken in the order Python indexes
      them, so a line with one token fails for its missing id before a line
      with a bad id fails for its integer. */
  function ParseLine(line: string, lineNo: nat): (r: Result<Section>)
    ensures r.Ok? <==>
      |Split(line)| >= 3 && ParseInt(Split(line)[1]).Some?
    ensures r.Ok? ==>
      var t := Split(line);
      r.value == Section(t[0], ParseInt(t[1]).value, t[2], "primary" in t[3..], "no_reloc" in t[3..])
    ensures r.Err? && |Split(line)| >= 2 && ParseInt(Split(line)[1]).None? ==> r.error == BadInteger(lineNo)
    ensures r.Err? && (|Split(line)| < 2 || ParseInt(Split(line)[1]).Some?) ==> r.error == MissingField(lineNo)
  {
    var t := Split(line);
    if |t| < 2 then Err(MissingField(lineNo))
    else match ParseInt(t[1])
      case None => Err(BadInteger(lineNo))
      case Some(id) =>
        if |t| < 3 then Err(MissingField(lineNo))
        else
          var flags := t[3..];
          Ok(Section(t[0], id, t[2], "primary" in flags, "no_reloc" in flags))
  }

  /** One iteration of the manifest loop up to the copy: parse, ask for the
      extension, then copy the file, any of which may stop the build. */
  function CheckLine(line: string, lineNo: nat, files: map<string, seq<u8>>): (r: Result<Section>)
    ensures r.Ok? <==> ParseLine(line, lineNo).Ok? && ParseLine(line, lineNo).value.typ == "dtp"
                       && ParseLine(line, lineNo).value.file in files
    ensures r.Ok? ==> r == ParseLine(line, lineNo)
    ensures ParseLine(line, lineNo).Err? ==> r == ParseLine(line, lineNo)
    ensures r.Err? && ParseLine(line, lineNo).Ok? ==>
      r.error == (if ParseLine(line, lineNo).value.typ != "dtp" then UnknownSectionType(lineNo) else MissingFile(lineNo))
  {
    var s :- ParseLine(line, lineNo);
    if Extension(s.typ).None? then Err(UnknownSectionType(lineNo))
    else if s.file !in files then Err(MissingFile(lineNo))
    else Ok(s)
  }

  /** Every line before i passes. */
  ghost predicate PassesBefore(lines: seq<string>, files: map<string, seq<u8>>, i: nat)
    requires i <= |lines|
  {
    forall j :: 0 <= j < i ==> CheckLine(lines[j], j, files).Ok?
  }

  /** The primary index is the last flagged section, or -1. */
  ghost predicate LastPrimary(sections: seq<Section>, primary: int) {
    (primary == -1 && forall j :: 0 <= j < |sections| ==> !sections[j].isPrimary)
    || (0 <= primary < |sections| && sections[primary].isPrimary
        && forall j :: primary < j < |sections| ==> !sections[j].isPrimary)
  }

  ghost predicate TwoPrimaries(sections: seq<Section>) {
    exists j, k :: 0 <= j < k < |sections| && sections[j].isPrimary && sections[k].isPrimary
  }

  /** How appending one section moves the primary index and the warning. */
  lemma {:induction false} PrimaryStep(sections: seq<Section>, primary: int, s: Section)
    requires LastPrimary(sections, primary)
    ensures LastPrimary(sections + [s], if s.isPrimary then |sections| else primary)
    ensures TwoPrimaries(sections + [s]) <==> TwoPrimaries(sections) || (s.isPrimary && primary != -1)
  {
    var t := sections + [s];
    assert forall j :: 0 <= j < |sections| ==> t[j] == sections[j];
    if TwoPrimaries(t) && !TwoPrimaries(sections) {
      var j, k :| 0 <= j < k < |t| && t[j].isPrimary && t[k].isPrimary;
      assert k == |sections|;
      assert primary != -1 by {
        assert sections[j].isPrimary;
      }
    }
    if s.isPrimary && primary != -1 {
      assert t[primary].isPrimary && t[|sections|].isPrimary;
    }
  }

  /** The sections read so far are the sections of the first lines, in
      order. */
  ghost predicate SectionsRead(lines: seq<string>, files: map<string, seq<u8>>, sections: seq<Section>) {
    |sections| <= |lines|
    && forall j :: 0 <= j < |sections| ==> CheckLine(lines[j], j, files) == Ok(sections[j])
  }

  lemma {:induction false} ReadStep(lines: seq<string>, files: map<string, seq<u8>>, sections: seq<Section>, s: Section)
    requires SectionsRead(lines, files, sections) && |sections| < |lines|
    requires CheckLine(lines[|sections|], |sections|, files) == Ok(s)
    ensures SectionsRead(lines, files, sections + [s])
  {
    var t := sections + [s];
    forall j | 0 <= j < |t| ensures CheckLine(lines[j], j, files) == Ok(t[j]) {
      if j < |sections| {
        assert t[j] == sections[j];
      }
    }
  }

  lemma {:induction false} ReadPasses(lines: seq<string>, files: map<string, seq<u8>>, sections: seq<Section>)
    requires SectionsRead(lines, files, sections)
    ensures PassesBefore(lines, files, |sections|)
  {
    forall j | 0 <= j < |sections| ensures CheckLine(lines[j], j, files).Ok? {
      assert CheckLine(lines[j], j, files) == Ok(sections[j]);
    }
  }

  /** The manifest loop. The build stops at the first line that fails; when
      none fails, the catalog holds each line's section in order, the
      primary index is the last line flagged primary (or -1), and the
      warning is printed exactly when two or more lines are flagged. */
  method ReadManifest(lines: seq<string>, files: map<string, seq<u8>>) returns (r: Result<Catalog>)
    ensures r.Ok? <==> PassesBefore(lines, files, |lines|)
    ensures r.Err? ==> exists i :: 0 <= i < |lines| && PassesBefore(lines, files, i)
                                   && CheckLine(lines[i], i, files) == Err(r.error)
    ensures r.Ok? ==> |r.value.sections| == |lines|
    ensures r.Ok? ==> forall i :: 0 <= i < |lines| ==> CheckLine(lines[i], i, files) == Ok(r.value.sections[i])
    ensures r.Ok? ==> LastPrimary(r.value.sections, r.value.primary)
    ensures r.Ok? ==> (r.value.multiplePrimary <==> TwoPrimaries(r.value.sections))
  {
    var sections: seq<Section> := [];
    var primary := -1;
    var warned := false;
    for i := 0 to |lines|
      invariant |sections| == i
      invariant SectionsRead(lines, files, sections)
      invariant LastPrimary(sections, primary)
      invariant warned <==> TwoPrimaries(sections)
    {
      var c := CheckLine(lines[i], i, files);
      if c.Err? {
        ReadPasses(lines, files, sections);
        return Err(c.error);
      }
      var s := c.value;
      PrimaryStep(sections, primary, s);
      ReadStep(lines, files, sections, s);
      sections := sections + [s];
      if s.isPrimary {
        if primary != -1 {
          warned := true;
        }
        primary := i;
      }
    }
    ReadPasses(lines, files, sections);
    r := Ok(Catalog(sections, primary, warned));
  }

  /** A well-formed section as one manifest line writes it. */
  function ManifestLine(s: Section): string {
    JoinSpaced([s.typ, IdToken(s.id), s.file] + Flags(s))
  }

  /** str(id) */
  function IdToken(id: int): string {
    if id >= 0 then Decimal(id) else "-" + Decimal(-id)
  }

  function Flags(s: Section): seq<string> {
    (if s.isPrimary then ["primary"] else []) + (if s.noReloc then ["no_reloc"] else [])
  }

  /** Names and type tokens a manifest line can carry. */
  predicate IsToken(t: string) {
    t != [] && NoSpace(t)
  }

  lemma {:induction false} IdTokenRoundTrip(id: int)
    ensures IsToken(IdToken(id))
    ensures ParseInt(IdToken(id)) == Some(id)
  {
    ParseDecimal(id);
    if id < 0 {
      var d := Decimal(-id);
      var t := IdToken(id);
      forall i | 0 <= i < |t| ensures !IsSpace(t[i]) {
        if i > 0 {
          assert t[i] == d[i - 1];
        }
      }
    }
  }

  lemma {:induction false} FlagsRead(s: Section)
    ensures forall k :: 0 <= k < |Flags(s)| ==> IsToken(Flags(s)[k])
    ensures "primary" in Flags(s) <==> s.isPrimary
    ensures "no_reloc" in Flags(s) <==> s.noReloc
  {
    assert "primary" != "no_reloc" by {
      assert "primary"[0] != "no_reloc"[0];
    }
  }

  /** Reading back the line a well-formed section is written as gives the
      section again. */
  lemma {:induction false} ManifestLineRoundTrip(s: Section, files: map<string, seq<u8>>, lineNo: nat)
    requires s.typ == "dtp" && IsToken(s.file) && s.file in files
    ensures CheckLine(ManifestLine(s), lineNo, files) == Ok(s)
  {
    IdTokenRoundTrip(s.id);
    FlagsRead(s);
    var toks := [s.typ, IdToken(s.id), s.file] + Flags(s);
    assert IsToken(s.typ);
    forall k | 0 <= k < |toks| ensures IsToken(toks[k]) {
      if k >= 3 {
        assert toks[k] == Flags(s)[k - 3];
      }
    }
    SplitJoin(toks);
    assert toks[3..] == Flags(s);
  }
}
