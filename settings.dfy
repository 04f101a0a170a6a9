/** read_settings: settings.txt holds one "key value" pair per line; blank
    lines and lines starting with ';' are skipped, and a later line for a
    key replaces an earlier one. */
module Settings {
  import opened Errors
  import opened Text

  /** line.find(" "): the index of the first space character, or -1. Only
      U+0020 counts here, unlike in strip(). */
  function FindSpace(t: string): (r: int)
    ensures -1 <= r < |t|
    ensures r >= 0 ==> t[r] == ' ' && forall i :: 0 <= i < r ==> t[i] != ' '
    ensures r == -1 ==> forall i :: 0 <= i < |t| ==> t[i] != ' '
  {
    if t == [] then -1
    else if t[0] == ' ' then 0
    else
      var k := FindSpace(t[1..]);
      if k == -1 then -1 else k + 1
  }

  lemma {:induction false} FindSpaceIs(t: string, n: nat)
    requires n < |t| && t[n] == ' ' && forall i :: 0 <= i < n ==> t[i] != ' '
    ensures FindSpace(t) == n
    decreases n
  {
    if n > 0 {
      FindSpaceIs(t[1..], n - 1);
    }
  }

  /** What one line of settings.txt contributes. */
  datatype LineKind = Skip | Entry(key: string, value: string) | Invalid(text: string)

  /** One iteration of the read loop: strip the line, skip it when empty or
      a comment, reject it when it holds no space, and otherwise split it at
      its first space into key and value. */
  function Classify(line: string): (k: LineKind)
    ensures k.Skip? <==> Strip(line) == [] || Strip(line)[0] == ';'
    ensures k.Invalid? ==> k.text == Strip(line) && ' ' !in Strip(line)
    ensures k.Entry? ==> Strip(line) == k.key + " " + k.value && ' ' !in k.key
    ensures k.Entry? ==> k.key != [] && k.key[0] != ';'
  {
    var t := Strip(line);
    if t == [] || t[0] == ';' then Skip
    else
      var p := FindSpace(t);
      if p < 0 then Invalid(t)
      else
        assert t == t[..p] + " " + t[p + 1..];
        Entry(t[..p], t[p + 1..])
  }

  /** What each line contributes, in file order. */
  function Kinds(lines: seq<string>): (ks: seq<LineKind>) {
    seq(|lines|, i requires 0 <= i < |lines| => Classify(lines[i]))
  }

  /** The settings dictionary after the given lines, or the error of the
      first invalid one. */
  function SettingsOf(lines: seq<string>): Result<map<string, string>> {
    Settle(Kinds(lines))
  }

  /** The dictionary after the given line kinds, applied in order. */
  function Settle(ks: seq<LineKind>): Result<map<string, string>> {
    if ks == [] then Ok(map[])
    else
      match Settle(ks[..|ks| - 1])
      case Err(e) => Err(e)
      case Ok(m) => Apply(m, ks[|ks| - 1])
  }

  /** The dictionary after one more line. */
  function Apply(m: map<string, string>, k: LineKind): (r: Result<map<string, string>>)
    ensures r.Err? <==> k.Invalid?
    ensures k.Invalid? ==> r.error == InvalidSettingsLine(k.text)
    ensures k.Skip? ==> r.value == m
    ensures k.Entry? ==> r.value.Keys == m.Keys + {k.key} && r.value[k.key] == k.value
    ensures k.Entry? ==> forall x :: x in m && x != k.key ==> x in r.value && r.value[x] == m[x]
  {
    match k
    case Skip => Ok(m)
    case Invalid(t) => Err(InvalidSettingsLine(t))
    case Entry(key, value) => Ok(m[key := value])
  }

  /** Once a line is invalid, the lines after it change nothing. */
  lemma {:induction false} ErrorSticks(ks: seq<LineKind>, i: nat)
    requires i <= |ks| && Settle(ks[..i]).Err?
    ensures Settle(ks) == Settle(ks[..i])
    decreases |ks| - i
  {
    if i < |ks| {
      var init := ks[..|ks| - 1];
      assert init[..i] == ks[..i];
      ErrorSticks(init, i);
    } else {
      assert ks[..i] == ks;
    }
  }

  /** The read loop, proved to compute SettingsOf. */
  method ReadSettings(lines: seq<string>) returns (r: Result<map<string, string>>)
    ensures r == SettingsOf(lines)
  {
    ghost var ks := Kinds(lines);
    var settings: map<string, string> := map[];
    for i := 0 to |lines|
      invariant Settle(ks[..i]) == Ok(settings)
    {
      assert ks[..i + 1][..i] == ks[..i];
      assert ks[i] == Classify(lines[i]);
      match Classify(lines[i])
      case Skip =>
      case Invalid(t) =>
        ErrorSticks(ks, i + 1);
        return Err(InvalidSettingsLine(t));
      case Entry(k, v) =>
        settings := settings[k := v];
    }
    assert ks[..|lines|] == ks;
    r := Ok(settings);
  }

  /** Reading succeeds exactly when no line is invalid. */
  lemma {:induction false} SettingsOk(ks: seq<LineKind>)
    ensures Settle(ks).Ok? <==> forall i :: 0 <= i < |ks| ==> !ks[i].Invalid?
  {
    if ks != [] {
      var init := ks[..|ks| - 1];
      SettingsOk(init);
      assert forall i :: 0 <= i < |init| ==> init[i] == ks[i];
    }
  }

  /** A failed read reports the first invalid line, stripped. */
  lemma {:induction false} SettingsFirstError(ks: seq<LineKind>)
    requires Settle(ks).Err?
    ensures exists i :: 0 <= i < |ks| && ks[i].Invalid?
                        && (forall j :: 0 <= j < i ==> !ks[j].Invalid?)
                        && Settle(ks).error == InvalidSettingsLine(ks[i].text)
  {
    var init := ks[..|ks| - 1];
    assert forall i :: 0 <= i < |init| ==> init[i] == ks[i];
    if Settle(init).Err? {
      SettingsFirstError(init);
      var i :| 0 <= i < |init| && init[i].Invalid?
               && (forall j :: 0 <= j < i ==> !init[j].Invalid?)
               && Settle(init).error == InvalidSettingsLine(init[i].text);
      assert ks[i].Invalid?;
    } else {
      SettingsOk(init);
      var i := |ks| - 1;
      assert ks[i].Invalid?;
    }
  }

  /** Some line is an entry for key k. */
  ghost predicate SetsKey(ks: seq<LineKind>, k: string) {
    exists i :: 0 <= i < |ks| && ks[i].Entry? && ks[i].key == k
  }

  /** The keys read are exactly the keys of the entry lines. */
  lemma {:induction false} SettingsKeys(ks: seq<LineKind>, k: string)
    requires Settle(ks).Ok?
    ensures k in Settle(ks).value <==> SetsKey(ks, k)
  {
    if ks != [] {
      var init := ks[..|ks| - 1];
      SettingsKeys(init, k);
      assert forall i :: 0 <= i < |init| ==> init[i] == ks[i];
      if k in Settle(init).value {
        var i :| 0 <= i < |init| && init[i].Entry? && init[i].key == k;
        assert ks[i].Entry?;
      }
    }
  }

  /** The value kept for a key is the one on the last line that sets it. */
  lemma {:induction false} SettingsLastWins(ks: seq<LineKind>, i: nat)
    requires Settle(ks).Ok?
    requires i < |ks| && ks[i].Entry?
    requires forall j :: i < j < |ks| && ks[j].Entry? ==> ks[j].key != ks[i].key
    ensures ks[i].key in Settle(ks).value
    ensures Settle(ks).value[ks[i].key] == ks[i].value
  {
    var init := ks[..|ks| - 1];
    assert forall j :: 0 <= j < |init| ==> init[j] == ks[j];
    if i < |ks| - 1 {
      SettingsLastWins(init, i);
    }
  }

  /** A line "key value", with any whitespace around it (the line break
      included), reads back as that key and value, provided the key is a
      token that does not start a comment and the value does not end in
      whitespace. */
  lemma {:induction false} SettingLineRoundTrip(pre: string, key: string, value: string, post: string)
    requires forall i :: 0 <= i < |pre| ==> IsSpace(pre[i])
    requires forall i :: 0 <= i < |post| ==> IsSpace(post[i])
    requires key != [] && NoSpace(key) && key[0] != ';'
    requires value != [] && !IsSpace(value[|value| - 1])
    ensures Classify(pre + (key + " " + value) + post) == Entry(key, value)
  {
    var t := key + " " + value;
    assert t[0] == key[0] && t[|t| - 1] == value[|value| - 1];
    StripPadded(pre, t, post);
    SplitAtFirstSpace(key, value);
  }

  /** A key without whitespace, a space and a value split at that space. */
  lemma {:induction false} SplitAtFirstSpace(key: string, value: string)
    requires NoSpace(key)
    ensures var t := key + " " + value;
      FindSpace(t) == |key| && t[..|key|] == key && t[|key| + 1..] == value
  {
    var t := key + " " + value;
    assert IsSpace(' ');
    assert forall i :: 0 <= i < |key| ==> t[i] == key[i];
    FindSpaceIs(t, |key|);
    assert t[..|key|] == key;
    assert t[|key| + 1..] == value;
  }
}
