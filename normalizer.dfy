/** The formula normaliser `limpiarFormulas`: each stored formula goes through
    a fixed chain of `trim` and global regular-expression replacements. Each
    replacement is modelled as the left-to-right scan that `replace` with a
    global regular expression performs: at each position the pattern is
    tried, a match is replaced and scanning resumes after it, otherwise the
    character is kept. */
module Normalizer {
  import opened Strings

  /** No two consecutive backslashes: no LaTeX `\\` line break is left. */
  predicate NoBackslashPair(s: string) {
    forall k :: 0 <= k < |s| - 1 ==> !(s[k] == '\\' && s[k + 1] == '\\')
  }

  /** No two consecutive whitespace characters. */
  predicate NoSpacePair(s: string) {
    forall k :: 0 <= k < |s| - 1 ==> !(IsSpace(s[k]) && IsSpace(s[k + 1]))
  }

  /** Neither leading nor trailing whitespace. */
  predicate Trimmed(s: string) {
    s == [] || (!IsSpace(s[0]) && !IsSpace(s[|s| - 1]))
  }

  /** The single-line, compact form the normaliser promises. */
  predicate IsClean(s: string) {
    '\r' !in s && '\n' !in s && NoBackslashPair(s) && NoSpacePair(s) && Trimmed(s)
  }

  /** `.replace(/\r/g, '')`. */
  function RemoveCR(s: string): (r: string)
    ensures '\r' !in r
    ensures forall c :: c in r ==> c in s
    ensures '\r' !in s ==> r == s
  {
    if s == [] then [] else (if s[0] == '\r' then [] else [s[0]]) + RemoveCR(s[1..])
  }

  /** `.replace` of the global pattern `\s*\n\s*` by a space. Tried at the start of a run of whitespace,
      the greedy `\s*`, backtracking to the last line feed of the run, and the
      second greedy `\s*` together take the whole run when it holds a line
      feed; a run without one matches nowhere. So every whitespace run that
      holds a line feed becomes one space and the rest is kept. */
  function JoinLines(s: string): (r: string)
    ensures '\n' !in r
    ensures forall c :: c in r ==> c in s || c == ' '
    ensures '\n' !in s ==> r == s
    decreases |s|
  {
    if s == [] then []
    else
      var q := SkipSpaces(s, 0);
      if q == 0 then [s[0]] + JoinLines(s[1..])
      else if '\n' in s[..q] then " " + JoinLines(s[q..])
      else s[..q] + JoinLines(s[q..])
  }

  /** The end of the match of `\\\\(\[[^\]]*\])?\*?` at the start of `s`, which
      begins with two backslashes: an optional bracketed argument, which needs
      a closing `]`, then an optional star. */
  function BreakEnd(s: string): (e: nat)
    requires |s| >= 2 && s[0] == '\\' && s[1] == '\\'
    ensures 2 <= e <= |s|
  {
    var e1 :=
      if 2 < |s| && s[2] == '[' then
        match IndexOf(s, "]", 3)
        case Some(k) => k + 1
        case None => 2
      else 2;
    if e1 < |s| && s[e1] == '*' then e1 + 1 else e1
  }

  /** `.replace(/\\\\(\[[^\]]*\])?\*?/g, ' ')`: each LaTeX line break `\\`,
      with its optional `[...]` and `*`, becomes a space. */
  function LatexBreaks(s: string): string
    decreases |s|
  {
    if s == [] then []
    else if |s| >= 2 && s[0] == '\\' && s[1] == '\\' then " " + LatexBreaks(s[BreakEnd(s)..])
    else [s[0]] + LatexBreaks(s[1..])
  }

  /** What the line-break replacement guarantees: no `\\` is left, only
      spaces are introduced, the first character is kept or becomes a space,
      and a string without `\\` is left alone. */
  lemma {:induction false} LatexBreaksMeaning(s: string)
    ensures var r := LatexBreaks(s);
      NoBackslashPair(r)
      && (forall c :: c in r ==> c in s || c == ' ')
      && (s != [] ==> r != [] && (r[0] == ' ' || r[0] == s[0]))
      && (NoBackslashPair(s) ==> r == s)
    decreases |s|
  {
    var r := LatexBreaks(s);
    if s == [] {
    } else if |s| >= 2 && s[0] == '\\' && s[1] == '\\' {
      var t := s[BreakEnd(s)..];
      LatexBreaksMeaning(t);
      var rt := LatexBreaks(t);
      assert r == " " + rt;
      forall c | c in r ensures c in s || c == ' ' {
        if c != ' ' { assert c in rt; assert c in t; }
      }
      forall k | 0 <= k < |r| - 1 ensures !(r[k] == '\\' && r[k + 1] == '\\') {
        if k > 0 { assert r[k] == rt[k - 1] && r[k + 1] == rt[k]; }
      }
    } else {
      var t := s[1..];
      LatexBreaksMeaning(t);
      var rt := LatexBreaks(t);
      assert r == [s[0]] + rt;
      forall c | c in r ensures c in s || c == ' ' {
        if c != s[0] && c != ' ' { assert c in rt; assert c in t; }
      }
      forall k | 0 <= k < |r| - 1 ensures !(r[k] == '\\' && r[k + 1] == '\\') {
        if k > 0 {
          assert r[k] == rt[k - 1] && r[k + 1] == rt[k];
        } else {
          assert r[0] == s[0] && r[1] == rt[0];
        }
      }
      if NoBackslashPair(s) {
        assert NoBackslashPair(t) by {
          forall k | 0 <= k < |t| - 1 ensures !(t[k] == '\\' && t[k + 1] == '\\') {
            assert t[k] == s[k + 1] && t[k + 1] == s[k + 2];
          }
        }
        assert s == [s[0]] + t;
      }
    }
  }

  /** The end of the match of `^\s*OPEN\s*`, or 0 when it does not match. */
  function LeadEnd(s: string, open: string): (e: nat)
    ensures e <= |s|
  {
    var a := SkipSpaces(s, 0);
    if OccursAt(s, open, a) then SkipSpaces(s, a + |open|) else 0
  }

  /** The leftmost position at or after `from` where `\s*CLOSE\s*$` matches:
      `CLOSE` must be the last non-whitespace text, and the match starts at
      the whitespace run before it, or at `from` if that lies inside it. */
  function TailStart(s: string, from: nat, close: string): (r: Option<nat>)
    ensures r.Some? ==> from <= r.value <= |s|
  {
    var j := BackSpaces(s, |s|);
    if from + |close| <= j && s[j - |close|..j] == close then
      var b := BackSpaces(s, j - |close|);
      Some(if from < b then b else from)
    else None
  }

  /** `.replace(/^\s*OPEN\s*|\s*CLOSE\s*$/g, '')`: the leading delimiter with
      the whitespace around it and then the trailing one with the whitespace
      around it are removed, each only where it is found. */
  function StripDelimiters(s: string, open: string, close: string): string {
    var e := LeadEnd(s, open);
    match TailStart(s, e, close)
    case Some(p) => s[e..p]
    case None => s[e..]
  }

  /** `.replace(/\s{2,}/g, ' ')`: every run of two or more whitespace
      characters becomes one space; a single whitespace character is kept. */
  function Compact(s: string): (r: string)
    ensures NoSpacePair(r)
    ensures forall c :: c in r ==> c in s || c == ' '
    ensures s != [] ==> r != [] && (IsSpace(r[0]) <==> IsSpace(s[0])) && (!IsSpace(s[0]) ==> r[0] == s[0])
    ensures NoBackslashPair(s) ==> NoBackslashPair(r)
    ensures NoSpacePair(s) ==> r == s
    decreases |s|
  {
    if s == [] then []
    else if |s| >= 2 && IsSpace(s[0]) && IsSpace(s[1]) then " " + Compact(s[SkipSpaces(s, 0)..])
    else [s[0]] + Compact(s[1..])
  }

  /** The first half of the chain: trim, remove carriage returns, join lines
      and replace LaTeX line breaks. */
  function Flatten(f: string): string {
    LatexBreaks(JoinLines(RemoveCR(Trim(f))))
  }

  /** The four delimiter removals, one after the other, so a formula wrapped
      in two styles (`$$\(x\)$$`) loses both. */
  function Unwrap(t: string): string {
    var t := StripDelimiters(t, "$$", "$$");
    var t := StripDelimiters(t, "$", "$");
    var t := StripDelimiters(t, "\\(", "\\)");
    StripDelimiters(t, "\\[", "\\]")
  }

  /** The body of the `map` in `limpiarFormulas`, for one formula. */
  function CleanFormula(f: string): string {
    Trim(Compact(Unwrap(Flatten(f))))
  }

  /** `Array.prototype.map`: the list keeps its order and length, and element
      `k` of the result depends only on element `k`. */
  function Map(fs: seq<string>, f: string -> string): (r: seq<string>)
    ensures |r| == |fs|
    ensures forall k :: 0 <= k < |fs| ==> r[k] == f(fs[k])
  {
    if fs == [] then [] else [f(fs[0])] + Map(fs[1..], f)
  }

  /** `theFormulas.map(...)` in `limpiarFormulas`. */
  function CleanAll(fs: seq<string>): seq<string> {
    Map(fs, CleanFormula)
  }

  // Why the result is clean.

  lemma SliceKeepsClean(s: string, i: nat, j: nat)
    requires i <= j <= |s|
    ensures '\r' !in s ==> '\r' !in s[i..j]
    ensures '\n' !in s ==> '\n' !in s[i..j]
    ensures NoBackslashPair(s) ==> NoBackslashPair(s[i..j])
    ensures NoSpacePair(s) ==> NoSpacePair(s[i..j])
  {
    var t := s[i..j];
    forall k | 0 <= k < |t| ensures t[k] == s[i + k] { }
    if '\r' in t {
      var k :| 0 <= k < |t| && t[k] == '\r';
      assert s[i + k] == '\r';
    }
    if '\n' in t {
      var k :| 0 <= k < |t| && t[k] == '\n';
      assert s[i + k] == '\n';
    }
  }

  /** Stripping delimiters keeps a slice of its input. */
  lemma StripSlice(s: string, open: string, close: string) returns (i: nat, j: nat)
    ensures i <= j <= |s| && StripDelimiters(s, open, close) == s[i..j]
  {
    i := LeadEnd(s, open);
    match TailStart(s, i, close)
    case Some(p) => j := p;
    case None => j := |s|;
  }

  lemma StripKeepsClean(s: string, open: string, close: string)
    ensures var r := StripDelimiters(s, open, close);
      ('\r' !in s ==> '\r' !in r) && ('\n' !in s ==> '\n' !in r) && (NoBackslashPair(s) ==> NoBackslashPair(r))
  {
    var i, j := StripSlice(s, open, close);
    SliceKeepsClean(s, i, j);
  }

  lemma TrimKeepsClean(s: string)
    ensures var r := Trim(s);
      ('\r' !in s ==> '\r' !in r) && ('\n' !in s ==> '\n' !in r) && (NoBackslashPair(s) ==> NoBackslashPair(r))
      && (NoSpacePair(s) ==> NoSpacePair(r)) && Trimmed(r)
  {
    var i, j := TrimSlice(s);
    SliceKeepsClean(s, i, j);
  }

  /** Every normalised formula is on one line, holds no `\\`, no two
      consecutive whitespace characters, and no leading or trailing
      whitespace. */
  lemma {:induction false} CleanFormulaIsClean(f: string)
    ensures IsClean(CleanFormula(f))
  {
    var t0 := RemoveCR(Trim(f));
    var t1 := JoinLines(t0);
    assert '\r' !in t1;
    var t2 := LatexBreaks(t1);
    LatexBreaksMeaning(t1);
    assert '\r' !in t2 && '\n' !in t2;
    var t3 := StripDelimiters(t2, "$$", "$$");
    StripKeepsClean(t2, "$$", "$$");
    var t4 := StripDelimiters(t3, "$", "$");
    StripKeepsClean(t3, "$", "$");
    var t5 := StripDelimiters(t4, "\\(", "\\)");
    StripKeepsClean(t4, "\\(", "\\)");
    var t6 := StripDelimiters(t5, "\\[", "\\]");
    StripKeepsClean(t5, "\\[", "\\]");
    var t7 := Compact(t6);
    assert '\r' !in t7 && '\n' !in t7;
    TrimKeepsClean(t7);
  }

  /** Every element of the cleaned list is clean. */
  lemma CleanAllIsClean(fs: seq<string>)
    ensures forall k :: 0 <= k < |fs| ==> IsClean(CleanAll(fs)[k])
  {
    forall k | 0 <= k < |fs| ensures IsClean(CleanAll(fs)[k]) {
      CleanFormulaIsClean(fs[k]);
    }
  }

  // When the normaliser changes nothing.

  predicate EndsWith(s: string, pat: string) {
    |pat| <= |s| && s[|s| - |pat|..] == pat
  }

  /** A string ending with `pat` ends with its last character, and one
      starting with `pat` starts with its first. */
  lemma EndChars(s: string, pat: string)
    requires pat != []
    ensures EndsWith(s, pat) ==> s[|s| - 1] == pat[|pat| - 1]
    ensures OccursAt(s, pat, 0) ==> s[0] == pat[0]
  {
    if EndsWith(s, pat) {
      assert s[|s| - |pat|..][|pat| - 1] == s[|s| - 1];
    }
    if OccursAt(s, pat, 0) {
      assert s[0..|pat|][0] == s[0];
    }
  }

  /** Neither starts with one of the opening delimiters `$`, `\(`, `\[` (and
      so not with `$$`) nor ends with one of the closing ones. */
  predicate Undelimited(s: string) {
    !OccursAt(s, "$", 0) && !OccursAt(s, "\\(", 0) && !OccursAt(s, "\\[", 0)
    && !EndsWith(s, "$") && !EndsWith(s, "\\)") && !EndsWith(s, "\\]")
  }

  /** A trimmed string that neither starts with `open` nor ends with `close`
      goes through the delimiter removal unchanged. */
  lemma StripUnchanged(s: string, open: string, close: string)
    requires Trimmed(s) && !OccursAt(s, open, 0) && !EndsWith(s, close)
    ensures StripDelimiters(s, open, close) == s
  {
    assert SkipSpaces(s, 0) == 0;
    assert LeadEnd(s, open) == 0;
    assert BackSpaces(s, |s|) == |s|;
    assert TailStart(s, 0, close).None?;
    assert s[0..] == s;
  }

  /** The delimiter removals leave a trimmed, undelimited string alone. */
  lemma UnwrapUnchanged(g: string)
    requires Trimmed(g) && Undelimited(g)
    ensures Unwrap(g) == g
  {
    assert !OccursAt(g, "$$", 0);
    assert !EndsWith(g, "$$");
    StripUnchanged(g, "$$", "$$");
    StripUnchanged(g, "$", "$");
    StripUnchanged(g, "\\(", "\\)");
    StripUnchanged(g, "\\[", "\\]");
  }

  /** A clean, undelimited formula is a fixed point of the normaliser. */
  lemma CleanFixpoint(g: string)
    requires IsClean(g) && Undelimited(g)
    ensures CleanFormula(g) == g
  {
    TrimUnchanged(g);
    LatexBreaksMeaning(g);
    UnwrapUnchanged(g);
  }

  /** Normalising twice gives the same result as normalising once whenever the
      first result carries no delimiter at either end. */
  lemma CleanTwice(f: string)
    requires Undelimited(CleanFormula(f))
    ensures CleanFormula(CleanFormula(f)) == CleanFormula(f)
  {
    CleanFormulaIsClean(f);
    CleanFixpoint(CleanFormula(f));
  }
}
