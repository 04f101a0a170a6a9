/** The parts of Python's str the manifest and settings readers rely on:
    whitespace (str.isspace), str.strip(), str.split() with no separator,
    and int() on a decimal token. */
module Text {
  import opened Errors

  /** str.isspace for one character. */
  predicate IsSpace(c: char) {
    var n := c as int;
    n == 0x20 || 0x09 <= n <= 0x0D || 0x1C <= n <= 0x1F || n == 0x85 || n == 0xA0
    || n == 0x1680 || 0x2000 <= n <= 0x200A || n == 0x2028 || n == 0x2029
    || n == 0x202F || n == 0x205F || n == 0x3000
  }

  predicate NoSpace(s: string) {
    forall i :: 0 <= i < |s| ==> !IsSpace(s[i])
  }

  /** The length of the run of whitespace s starts with. */
  function LeadingSpaces(s: string): (n: nat)
    ensures n <= |s|
    ensures forall i :: 0 <= i < n ==> IsSpace(s[i])
    ensures n < |s| ==> !IsSpace(s[n])
  {
    if s == [] || !IsSpace(s[0]) then 0 else 1 + LeadingSpaces(s[1..])
  }

  /** The length of the run of whitespace s ends with. */
  function TrailingSpaces(s: string): (n: nat)
    ensures n <= |s|
    ensures forall i :: |s| - n <= i < |s| ==> IsSpace(s[i])
    ensures n < |s| ==> !IsSpace(s[|s| - n - 1])
  {
    if s == [] || !IsSpace(s[|s| - 1]) then 0 else 1 + TrailingSpaces(s[..|s| - 1])
  }

  /** str.strip(): s without its leading and trailing whitespace. */
  function Strip(s: string): (r: string)
    ensures LeadingSpaces(s) + |r| <= |s|
    ensures r == s[LeadingSpaces(s)..LeadingSpaces(s) + |r|]
    ensures r == [] || (!IsSpace(r[0]) && !IsSpace(r[|r| - 1]))
    ensures forall i :: 0 <= i < LeadingSpaces(s) ==> IsSpace(s[i])
    ensures forall i :: LeadingSpaces(s) + |r| <= i < |s| ==> IsSpace(s[i])
  {
    var t := s[LeadingSpaces(s)..];
    t[..|t| - TrailingSpaces(t)]
  }

  /** Stripping wraps around any text that neither starts nor ends with
      whitespace: padding it with whitespace on both sides and stripping gives
      it back. */
  lemma {:induction false} StripPadded(pre: string, t: string, post: string)
    requires forall i :: 0 <= i < |pre| ==> IsSpace(pre[i])
    requires forall i :: 0 <= i < |post| ==> IsSpace(post[i])
    requires t == [] || (!IsSpace(t[0]) && !IsSpace(t[|t| - 1]))
    ensures Strip(pre + t + post) == t
  {
    var s := pre + t + post;
    var r := Strip(s);
    if t == [] {
      assert forall i :: 0 <= i < |s| ==> IsSpace(s[i]);
    } else {
      LeadingIs(s, |pre|);
      assert LeadingSpaces(s) == |pre|;
      assert r == s[|pre|..|pre| + |r|];
      if |r| < |t| {
        assert s[|pre| + |r|] == t[|r|];
        assert r[|r| - 1] == t[|r| - 1];
        TrailingIs(s[|pre|..], |post|);
        assert false;
      }
      assert r == t;
    }
  }

  lemma {:induction false} LeadingIs(s: string, n: nat)
    requires n < |s| && !IsSpace(s[n]) && forall i :: 0 <= i < n ==> IsSpace(s[i])
    ensures LeadingSpaces(s) == n
    decreases n
  {
    if n > 0 {
      LeadingIs(s[1..], n - 1);
    }
  }

  lemma {:induction false} TrailingIs(s: string, n: nat)
    requires n < |s| && !IsSpace(s[|s| - n - 1]) && forall i :: |s| - n <= i < |s| ==> IsSpace(s[i])
    ensures TrailingSpaces(s) == n
    decreases n
  {
    if n > 0 {
      TrailingIs(s[..|s| - 1], n - 1);
    }
  }

  /** The length of the run of non-whitespace s starts with. */
  function TokenLength(s: string): (n: nat)
    ensures n <= |s|
    ensures forall i :: 0 <= i < n ==> !IsSpace(s[i])
    ensures n < |s| ==> IsSpace(s[n])
  {
    if s == [] || IsSpace(s[0]) then 0 else 1 + TokenLength(s[1..])
  }

  /** str.split() with no separator: the maximal runs of non-whitespace, in
      order. */
  function Split(s: string): (r: seq<string>)
    ensures forall k :: 0 <= k < |r| ==> r[k] != [] && NoSpace(r[k])
    decreases |s|
  {
    var t := s[LeadingSpaces(s)..];
    if t == [] then []
    else
      var n := TokenLength(t);
      [t[..n]] + Split(t[n..])
  }

  /** " ".join(tokens) */
  function JoinSpaced(tokens: seq<string>): string {
    if tokens == [] then []
    else if |tokens| == 1 then tokens[0]
    else tokens[0] + " " + JoinSpaced(tokens[1..])
  }

  /** Splitting undoes joining with single spaces, for tokens that are
      non-empty and hold no whitespace. */
  lemma {:induction false} SplitJoin(tokens: seq<string>)
    requires forall k :: 0 <= k < |tokens| ==> tokens[k] != [] && NoSpace(tokens[k])
    ensures Split(JoinSpaced(tokens)) == tokens
    decreases |tokens|
  {
    if |tokens| == 1 {
      SplitToken(tokens[0], []);
      assert tokens[0] + [] == tokens[0];
    } else if |tokens| > 1 {
      SplitJoin(tokens[1..]);
      SplitJoinStep(tokens[0], JoinSpaced(tokens[1..]));
    }
  }

  /** One token joined in front of the rest is split back off. */
  lemma {:induction false} SplitJoinStep(tok: string, rest: string)
    requires tok != [] && NoSpace(tok)
    ensures Split(tok + " " + rest) == [tok] + Split(rest)
  {
    assert tok + " " + rest == tok + (" " + rest);
    SplitToken(tok, " " + rest);
    SplitSkipsSpace(rest);
  }

  /** A token followed by nothing or by whitespace is split off whole. */
  lemma {:induction false} SplitToken(tok: string, rest: string)
    requires tok != [] && NoSpace(tok)
    requires rest == [] || IsSpace(rest[0])
    ensures Split(tok + rest) == [tok] + Split(rest)
  {
    var s := tok + rest;
    assert s[0] == tok[0];
    LeadingIs(s, 0);
    assert s[LeadingSpaces(s)..] == s;
    TokenIs(s, |tok|);
    assert s[..|tok|] == tok;
    assert s[|tok|..] == rest;
  }

  lemma {:induction false} TokenIs(s: string, n: nat)
    requires n <= |s| && (n < |s| ==> IsSpace(s[n])) && forall i :: 0 <= i < n ==> !IsSpace(s[i])
    ensures TokenLength(s) == n
    decreases n
  {
    if n > 0 {
      TokenIs(s[1..], n - 1);
    }
  }

  /** A leading space changes nothing in a split. */
  lemma {:induction false} SplitSkipsSpace(s: string)
    ensures Split(" " + s) == Split(s)
  {
    var t := " " + s;
    assert t[1..] == s;
    assert LeadingSpaces(t) == 1 + LeadingSpaces(s);
    assert t[LeadingSpaces(t)..] == s[LeadingSpaces(s)..];
  }

  predicate AllSpace(s: string) {
    forall i :: 0 <= i < |s| ==> IsSpace(s[i])
  }

  /** A string cut into whitespace gaps around a list of tokens: one gap more
      than tokens, every gap whitespace only, and every gap between two
      tokens non-empty. */
  predicate Separates(gaps: seq<string>, tokens: seq<string>) {
    && |gaps| == |tokens| + 1
    && (forall i :: 0 <= i < |gaps| ==> AllSpace(gaps[i]))
    && (forall i :: 0 < i < |tokens| ==> gaps[i] != [])
  }

  /** gaps[0] + tokens[0] + gaps[1] + ... + tokens[n - 1] + gaps[n] */
  function Interleave(gaps: seq<string>, tokens: seq<string>): string
    requires |gaps| == |tokens| + 1
    decreases |tokens|
  {
    if tokens == [] then gaps[0] else gaps[0] + tokens[0] + Interleave(gaps[1..], tokens[1..])
  }

  /** The whitespace around and between the tokens Split finds. */
  function Gaps(s: string): (g: seq<string>)
    ensures |g| == |Split(s)| + 1
    decreases |s|
  {
    var t := s[LeadingSpaces(s)..];
    if t == [] then [s] else [s[..LeadingSpaces(s)]] + Gaps(t[TokenLength(t)..])
  }

  /** Every string is its tokens with whitespace gaps around and between
      them. */
  lemma SplitRuns(s: string)
    ensures Separates(Gaps(s), Split(s)) && s == Interleave(Gaps(s), Split(s))
  {
    GapsSeparate(s);
    GapsInterleave(s);
  }

  lemma {:induction false} GapsSeparate(s: string)
    ensures Separates(Gaps(s), Split(s))
    ensures Gaps(s)[0] == s[..LeadingSpaces(s)]
    decreases |s|
  {
    var n := LeadingSpaces(s);
    var t := s[n..];
    if t == [] {
      assert s[..n] == s;
    } else {
      var k := TokenLength(t);
      var rest := t[k..];
      GapsSeparate(rest);
      SplitStep(s);
      if Split(rest) != [] {
        assert rest != [] && IsSpace(rest[0]);
      }
      SeparatesCons(s[..n], t[..k], Gaps(rest), Split(rest));
    }
  }

  lemma {:induction false} GapsInterleave(s: string)
    ensures s == Interleave(Gaps(s), Split(s))
    decreases |s|
  {
    var n := LeadingSpaces(s);
    var t := s[n..];
    if t == [] {
      assert s[..n] == s;
    } else {
      var k := TokenLength(t);
      var rest := t[k..];
      GapsInterleave(rest);
      SplitStep(s);
      InterleaveCons(s[..n], t[..k], Gaps(rest), Split(rest));
      ThreeParts(s, n, k);
    }
  }

  lemma {:induction false} ThreeParts(s: string, n: nat, k: nat)
    requires n + k <= |s|
    ensures s == s[..n] + s[n..][..k] + s[n..][k..]
  {
    var t := s[n..];
    assert t == t[..k] + t[k..];
    assert s == s[..n] + t;
  }

  lemma {:induction false} SplitStep(s: string)
    requires LeadingSpaces(s) < |s|
    ensures var n := LeadingSpaces(s); var t := s[n..]; var k := TokenLength(t);
      Split(s) == [t[..k]] + Split(t[k..]) && Gaps(s) == [s[..n]] + Gaps(t[k..])
  { }

  lemma {:induction false} SeparatesCons(g: string, tok: string, gaps: seq<string>, tokens: seq<string>)
    requires AllSpace(g) && Separates(gaps, tokens) && (tokens != [] ==> gaps[0] != [])
    ensures Separates([g] + gaps, [tok] + tokens)
  {
    var gs := [g] + gaps;
    assert forall i :: 0 < i < |gs| ==> gs[i] == gaps[i - 1];
  }

  lemma {:induction false} InterleaveCons(g: string, tok: string, gaps: seq<string>, tokens: seq<string>)
    requires |gaps| == |tokens| + 1
    ensures Interleave([g] + gaps, [tok] + tokens) == g + tok + Interleave(gaps, tokens)
  {
    assert ([g] + gaps)[1..] == gaps && ([tok] + tokens)[1..] == tokens;
  }

  /** Conversely, tokens set apart by whitespace gaps in this way are
      exactly what Split returns: str.split() gives the maximal runs of
      non-whitespace, in order. */
  lemma {:induction false} SplitUnique(gaps: seq<string>, tokens: seq<string>)
    requires Separates(gaps, tokens)
    requires forall k :: 0 <= k < |tokens| ==> tokens[k] != [] && NoSpace(tokens[k])
    ensures Split(Interleave(gaps, tokens)) == tokens
    decreases |tokens|
  {
    if tokens == [] {
      SplitSkipsGap(gaps[0], []);
      assert gaps[0] + [] == gaps[0];
    } else {
      var g0, t0, gs, ts := gaps[0], tokens[0], gaps[1..], tokens[1..];
      SeparatesTail(gaps, tokens);
      var rest := Interleave(gs, ts);
      SplitUnique(gs, ts);
      GapFirst(gs, ts);
      SplitToken(t0, rest);
      SplitSkipsGap(g0, t0 + rest);
      InterleaveFirst(gaps, tokens);
      FirstAndRest(tokens);
    }
  }

  lemma {:induction false} InterleaveFirst(gaps: seq<string>, tokens: seq<string>)
    requires |gaps| == |tokens| + 1 && tokens != []
    ensures Interleave(gaps, tokens) == gaps[0] + (tokens[0] + Interleave(gaps[1..], tokens[1..]))
  { }

  lemma {:induction false} FirstAndRest<T>(s: seq<T>)
    requires s != []
    ensures s == [s[0]] + s[1..]
  { }

  lemma {:induction false} SeparatesTail(gaps: seq<string>, tokens: seq<string>)
    requires Separates(gaps, tokens) && tokens != []
    requires forall k :: 0 <= k < |tokens| ==> tokens[k] != [] && NoSpace(tokens[k])
    ensures Separates(gaps[1..], tokens[1..]) && (|tokens| > 1 ==> gaps[1] != [])
    ensures tokens[0] != [] && NoSpace(tokens[0])
    ensures forall k :: 0 <= k < |tokens[1..]| ==> tokens[1..][k] != [] && NoSpace(tokens[1..][k])
  {
    assert forall i :: 0 <= i < |gaps[1..]| ==> gaps[1..][i] == gaps[i + 1];
    assert forall k :: 0 <= k < |tokens[1..]| ==> tokens[1..][k] == tokens[k + 1];
  }

  /** What follows a token is its gap, so it starts with whitespace or is
      the end. */
  lemma {:induction false} GapFirst(gaps: seq<string>, tokens: seq<string>)
    requires Separates(gaps, tokens) && (tokens != [] ==> gaps[0] != [])
    ensures Interleave(gaps, tokens) == [] || IsSpace(Interleave(gaps, tokens)[0])
  {
    if gaps[0] != [] {
      assert Interleave(gaps, tokens)[0] == gaps[0][0];
    }
  }

  /** Leading whitespace changes nothing in a split. */
  lemma {:induction false} SplitSkipsGap(g: string, s: string)
    requires AllSpace(g)
    ensures Split(g + s) == Split(s)
  {
    var u := g + s;
    var n := LeadingSpaces(s);
    if n < |s| {
      assert u[|g| + n] == s[n];
      LeadingIs(u, |g| + n);
    } else {
      assert forall i :: 0 <= i < |u| ==> IsSpace(u[i]);
    }
    assert u[LeadingSpaces(u)..] == s[n..];
  }

  predicate IsDigit(c: char) {
    '0' as int <= c as int <= '9' as int
  }

  /** The value of a run of decimal digits. */
  function DigitsValue(s: string): nat
    requires forall i :: 0 <= i < |s| ==> IsDigit(s[i])
  {
    if s == [] then 0
    else 10 * DigitsValue(s[..|s| - 1]) + DigitValue(s[|s| - 1])
  }

  function DigitValue(c: char): nat
    requires IsDigit(c)
  {
    c as int - '0' as int
  }

  predicate AllDigits(s: string) {
    s != [] && forall i :: 0 <= i < |s| ==> IsDigit(s[i])
  }

  /** int(token) for a token without whitespace: an optional sign, then one
      or more decimal digits. */
  function ParseInt(t: string): Option<int> {
    if |t| > 0 && (t[0] == '-' || t[0] == '+') then
      var d := t[1..];
      if AllDigits(d) then
        var v: int := DigitsValue(d);
        Some(if t[0] == '-' then -v else v)
      else None
    else if AllDigits(t) then Some(DigitsValue(t))
    else None
  }

  /** str(n) for a non-negative n. */
  function Decimal(n: nat): (s: string)
    ensures AllDigits(s)
  {
    var d := ['0' + (n % 10) as char];
    if n < 10 then d else Decimal(n / 10) + d
  }

  lemma {:induction false} DecimalValue(n: nat)
    ensures DigitsValue(Decimal(n)) == n
  {
    var s := Decimal(n);
    if n >= 10 {
      DecimalValue(n / 10);
      assert s[..|s| - 1] == Decimal(n / 10);
    }
  }

  /** int() reads back what str() writes, for every integer. */
  lemma {:induction false} ParseDecimal(n: int)
    ensures n >= 0 ==> ParseInt(Decimal(n)) == Some(n)
    ensures n < 0 ==> ParseInt("-" + Decimal(-n)) == Some(n)
  {
    if n >= 0 {
      DecimalValue(n);
    } else {
      DecimalValue(-n);
      assert ("-" + Decimal(-n))[1..] == Decimal(-n);
    }
  }
}
