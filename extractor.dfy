/** The formula extractor: the global scan of `/\$\$[\s\S]*?\$\$|\$[^$]+\$/g`
    over a text, by repeated `exec`, collecting each match. */
module Extractor {
  import opened Strings

  /** A match of the formula pattern: the text from `start` up to, not
      including, `end`. */
  datatype Span = Span(start: nat, end: nat)

  /** The block alternative `\$\$[\s\S]*?\$\$` tried at `p`: two dollars, then
      the lazy body, which stops at the earliest `$$` at or after `p + 2`. */
  function BlockEnd(s: string, p: nat): Option<nat> {
    if OccursAt(s, "$$", p) then
      match IndexOf(s, "$$", p + 2)
      case Some(q) => Some(q + 2)
      case None => None
    else None
  }

  /** The inline alternative `\$[^$]+\$` tried at `p`: a dollar, one or more
      characters other than a dollar, a dollar. `[^$]+` cannot cross a dollar,
      so the match closes at the next dollar after `p`, and only if at least
      one character lies between the two. */
  function InlineEnd(s: string, p: nat): Option<nat> {
    if p < |s| && s[p] == '$' then
      match IndexOf(s, "$", p + 1)
      case Some(q) => if q >= p + 2 then Some(q + 1) else None
      case None => None
    else None
  }

  /** The end of the match that starts exactly at `p`, if any: alternatives are
      tried in order, so the block form wins. */
  function MatchAt(s: string, p: nat): Option<nat> {
    match BlockEnd(s, p)
    case Some(e) => Some(e)
    case None => InlineEnd(s, p)
  }

  // Regex-level meaning of the two alternatives, used to state what MatchAt does.

  /** `s[b..e]` is a block formula: `$$`, a body holding no `$$`, `$$`. */
  ghost predicate IsBlock(s: string, b: nat, e: nat) {
    b + 4 <= e <= |s| && OccursAt(s, "$$", b) && OccursAt(s, "$$", e - 2)
    && forall k :: b + 2 <= k < e - 2 ==> !OccursAt(s, "$$", k)
  }

  /** `s[b..e]` is an inline formula: `$`, one or more non-dollars, `$`. */
  ghost predicate IsInline(s: string, b: nat, e: nat) {
    b + 3 <= e <= |s| && s[b] == '$' && s[e - 1] == '$'
    && forall k :: b < k < e - 1 ==> s[k] != '$'
  }

  /** Some block formula starts at `b`: `$$` there and another `$$` later. */
  ghost predicate BlockOpens(s: string, b: nat) {
    OccursAt(s, "$$", b) && exists k :: b + 2 <= k && OccursAt(s, "$$", k)
  }

  lemma BlockEndMeaning(s: string, p: nat)
    ensures BlockEnd(s, p).Some? <==> BlockOpens(s, p)
    ensures BlockEnd(s, p).Some? ==> IsBlock(s, p, BlockEnd(s, p).value)
    ensures forall e: nat :: IsBlock(s, p, e) ==> BlockEnd(s, p) == Some(e)
  {
    if OccursAt(s, "$$", p) {
      match IndexOf(s, "$$", p + 2)
      case Some(q) =>
        assert BlockOpens(s, p);
        forall e: nat | IsBlock(s, p, e) ensures e == q + 2 {
          assert OccursAt(s, "$$", e - 2);
        }
      case None =>
    }
  }

  lemma InlineEndMeaning(s: string, p: nat)
    ensures InlineEnd(s, p).Some? ==> IsInline(s, p, InlineEnd(s, p).value)
    ensures forall e: nat :: IsInline(s, p, e) ==> InlineEnd(s, p) == Some(e)
  {
    forall e: nat | IsInline(s, p, e) ensures InlineEnd(s, p) == Some(e) {
      assert s[p] == '$';
      assert OccursAt(s, "$", e - 1) by { assert s[e - 1..e] == [s[e - 1]]; }
      var r := IndexOf(s, "$", p + 1);
      assert r.Some?;
      OccursEnds(s, "$", r.value);
    }
    match InlineEnd(s, p)
    case None =>
    case Some(e) =>
      var q := e - 1;
      assert OccursAt(s, "$", q);
      assert s[q] == s[q..q + 1][0];
      forall k | p < k < q ensures s[k] != '$' {
        assert !OccursAt(s, "$", k);
        assert s[k..k + 1] == [s[k]];
      }
  }

  /** The matching rule at one position, in both directions: a match starts at
      `p` exactly when a block formula or an inline formula does; the block
      form is preferred and closes at the earliest `$$`; otherwise the inline
      form is taken. */
  lemma {:induction false} MatchAtMeaning(s: string, p: nat)
    ensures BlockOpens(s, p) ==> MatchAt(s, p).Some? && IsBlock(s, p, MatchAt(s, p).value)
    ensures !BlockOpens(s, p) ==> MatchAt(s, p) == InlineEnd(s, p)
    ensures forall e: nat :: MatchAt(s, p) == Some(e) <==>
              (IsBlock(s, p, e) || (!BlockOpens(s, p) && IsInline(s, p, e)))
  {
    BlockEndMeaning(s, p);
    InlineEndMeaning(s, p);
  }

  /** Where `exec`, resumed at `lastIndex == from`, finds its next match: the
      leftmost position at or after `from` where the pattern matches. */
  function NextMatch(s: string, from: nat): (r: Option<Span>)
    decreases |s| - from
  {
    if from >= |s| then None
    else match MatchAt(s, from)
      case Some(e) => Some(Span(from, e))
      case None => NextMatch(s, from + 1)
  }

  /** The leftmost-match property of `exec`. */
  lemma NextMatchMeaning(s: string, from: nat)
    ensures NextMatch(s, from).Some? ==>
      var m := NextMatch(s, from).value;
      from <= m.start < m.end <= |s| && MatchAt(s, m.start) == Some(m.end)
      && forall q :: from <= q < m.start ==> MatchAt(s, q).None?
    ensures NextMatch(s, from).None? ==> forall q :: from <= q ==> MatchAt(s, q).None?
  {
    if NextMatch(s, from).Some? {
      NextMatchFound(s, from);
    } else {
      NextMatchNone(s, from);
    }
  }

  lemma {:induction false} NextMatchFound(s: string, from: nat)
    requires NextMatch(s, from).Some?
    ensures var m := NextMatch(s, from).value;
      from <= m.start < m.end <= |s| && MatchAt(s, m.start) == Some(m.end)
      && forall q :: from <= q < m.start ==> MatchAt(s, q).None?
    decreases |s| - from
  {
    MatchEndsInside(s, from);
    if MatchAt(s, from).None? {
      NextMatchFound(s, from + 1);
    }
  }

  lemma {:induction false} NextMatchNone(s: string, from: nat)
    requires NextMatch(s, from).None?
    ensures forall q :: from <= q ==> MatchAt(s, q).None?
    decreases |s| - from
  {
    if from >= |s| {
      forall q | from <= q ensures MatchAt(s, q).None? {
        MatchEndsInside(s, q);
      }
    } else {
      MatchEndsInside(s, from);
      NextMatchNone(s, from + 1);
    }
  }

  /** A match is never empty and never runs past the end of the text. */
  lemma MatchEndsInside(s: string, p: nat)
    ensures MatchAt(s, p).Some? ==> p + 3 <= MatchAt(s, p).value <= |s| && p < |s|
  {
    MatchAtMeaning(s, p);
  }

  /** All matches of the global scan from `from` on, in order. */
  function Scan(s: string, from: nat): (r: seq<Span>)
    decreases |s| - from
  {
    match NextMatch(s, from)
    case None => []
    case Some(m) =>
      NextMatchMeaning(s, from);
      [m] + Scan(s, m.end)
  }

  function Spans(s: string): seq<Span> {
    Scan(s, 0)
  }

  /** The texts of the spans the scan finds from `from` on, as matched
      (delimiters included). */
  function TextsFrom(s: string, from: nat): seq<string>
    decreases |s| - from
  {
    match NextMatch(s, from)
    case None => []
    case Some(m) =>
      NextMatchMeaning(s, from);
      [s[m.start..m.end]] + TextsFrom(s, m.end)
  }

  /** The formulas `extractFormulas` returns for `s`. */
  function Formulas(s: string): seq<string> {
    TextsFrom(s, 0)
  }

  lemma FormulasLength(s: string)
    ensures |Formulas(s)| == |Spans(s)|
  {
    TextsFromLength(s, 0);
  }

  /** Formula `i` is the text of span `i`. */
  lemma {:induction false} TextsFromAt(s: string, from: nat, i: nat)
    requires i < |Scan(s, from)|
    ensures |TextsFrom(s, from)| == |Scan(s, from)|
    ensures Scan(s, from)[i].start <= Scan(s, from)[i].end <= |s|
    ensures TextsFrom(s, from)[i] == s[Scan(s, from)[i].start..Scan(s, from)[i].end]
    decreases |s| - from
  {
    NextMatchMeaning(s, from);
    var m := NextMatch(s, from).value;
    if i > 0 {
      TextsFromAt(s, m.end, i - 1);
    } else {
      TextsFromLength(s, m.end);
    }
  }

  lemma {:induction false} TextsFromLength(s: string, from: nat)
    ensures |TextsFrom(s, from)| == |Scan(s, from)|
    decreases |s| - from
  {
    NextMatchMeaning(s, from);
    if NextMatch(s, from).Some? {
      TextsFromLength(s, NextMatch(s, from).value.end);
    }
  }

  /** The spans lie in the text, each is non-empty and a match of the pattern
      at its start, and each ends at or before the next one starts. */
  lemma {:induction false} SpansShape(s: string, from: nat)
    ensures forall i :: 0 <= i < |Scan(s, from)| ==>
              from <= Scan(s, from)[i].start < Scan(s, from)[i].end <= |s|
              && MatchAt(s, Scan(s, from)[i].start) == Some(Scan(s, from)[i].end)
    ensures forall i :: 0 <= i < |Scan(s, from)| - 1 ==> Scan(s, from)[i].end <= Scan(s, from)[i + 1].start
    decreases |s| - from
  {
    NextMatchMeaning(s, from);
    match NextMatch(s, from)
    case None =>
    case Some(m) =>
      SpansShape(s, m.end);
      var t := Scan(s, m.end);
      var r := Scan(s, from);
      assert r == [m] + t;
      forall i | 0 <= i < |r|
        ensures from <= r[i].start < r[i].end <= |s| && MatchAt(s, r[i].start) == Some(r[i].end)
      {
        if i > 0 { assert r[i] == t[i - 1]; }
      }
      forall i | 0 <= i < |r| - 1 ensures r[i].end <= r[i + 1].start {
        assert r[i + 1] == t[i];
        if i > 0 { assert r[i] == t[i - 1]; }
      }
  }

  /** Spans never overlap and come in strictly increasing position order. */
  lemma {:induction false} SpansDisjoint(s: string, i: nat, j: nat)
    requires i < j < |Spans(s)|
    ensures Spans(s)[i].start < Spans(s)[i].end <= Spans(s)[j].start < Spans(s)[j].end
    decreases j - i
  {
    SpansShape(s, 0);
    if i + 1 < j {
      SpansDisjoint(s, i + 1, j);
    }
  }

  /** Where the scan resumes before looking for span `i`. */
  function GapStart(r: seq<Span>, from: nat, i: nat): nat
    requires i <= |r|
  {
    if i == 0 then from else r[i - 1].end
  }

  /** The scan is a chain of `exec` calls: looking for span `i` from where the
      previous span ended finds span `i`, and looking after the last span
      finds nothing. */
  lemma {:induction false} ScanResumes(s: string, from: nat)
    ensures forall i :: 0 <= i < |Scan(s, from)| ==>
              NextMatch(s, GapStart(Scan(s, from), from, i)) == Some(Scan(s, from)[i])
    ensures NextMatch(s, GapStart(Scan(s, from), from, |Scan(s, from)|)).None?
    decreases |s| - from
  {
    NextMatchMeaning(s, from);
    match NextMatch(s, from)
    case None =>
    case Some(m) =>
      ScanResumes(s, m.end);
      var t := Scan(s, m.end);
      var r := Scan(s, from);
      assert r == [m] + t;
      forall i | 0 < i < |r|
        ensures NextMatch(s, GapStart(r, from, i)) == Some(r[i])
      {
        assert r[i] == t[i - 1];
        assert GapStart(r, from, i) == GapStart(t, m.end, i - 1) by {
          if i > 1 { assert r[i - 1] == t[i - 2]; }
        }
      }
      assert GapStart(r, from, |r|) == GapStart(t, m.end, |t|) by {
        if t != [] { assert r[|r| - 1] == t[|t| - 1]; }
      }
  }

  /** Nothing the scan skips could have started a match: every position
      before the first span or between two spans is one where the pattern does
      not match. With SpansShape this fixes the spans uniquely. */
  lemma SkippedBeforeSpan(s: string, i: nat, q: nat)
    requires i < |Spans(s)|
    requires GapStart(Spans(s), 0, i) <= q < Spans(s)[i].start
    ensures MatchAt(s, q).None?
  {
    ScanResumes(s, 0);
    NextMatchMeaning(s, GapStart(Spans(s), 0, i));
  }

  /** ... and no position after the last span is one where it matches. */
  lemma SkippedAfterLastSpan(s: string, q: nat)
    requires GapStart(Spans(s), 0, |Spans(s)|) <= q
    ensures MatchAt(s, q).None?
  {
    ScanResumes(s, 0);
    NextMatchMeaning(s, GapStart(Spans(s), 0, |Spans(s)|));
  }

  /** A text without a dollar sign has no formulas; in particular the empty
      text has none. */
  lemma {:induction false} NoDollarNoFormulas(s: string)
    requires forall k :: 0 <= k < |s| ==> s[k] != '$'
    ensures Spans(s) == [] && Formulas(s) == []
  {
    forall q | 0 <= q ensures MatchAt(s, q).None? {
      MatchEndsInside(s, q);
      MatchAtMeaning(s, q);
      if q < |s| {
        assert s[q] != '$';
        assert !OccursAt(s, "$$", q);
      }
    }
    NextMatchMeaning(s, 0);
  }

  /** A match starts and ends with a dollar. */
  lemma MatchDelimited(s: string, p: nat)
    requires MatchAt(s, p).Some?
    ensures p + 3 <= MatchAt(s, p).value <= |s|
    ensures s[p] == '$' && s[MatchAt(s, p).value - 1] == '$'
  {
    MatchAtMeaning(s, p);
    var e := MatchAt(s, p).value;
    if IsBlock(s, p, e) {
      assert s[p] == s[p..p + 2][0];
      assert s[e - 1] == s[e - 2..e][1];
    }
  }

  /** Each formula is the raw text of its span, delimiters included: it is a
      block or an inline formula, and begins and ends with `$`. Formulas are
      listed by position, so equal formula texts at two places are two
      entries. */
  lemma FormulaIsSpanText(s: string, i: nat)
    requires i < |Spans(s)|
    ensures |Formulas(s)| == |Spans(s)|
    ensures var m := Spans(s)[i];
      m.start <= m.end <= |s| && Formulas(s)[i] == s[m.start..m.end]
      && (IsBlock(s, m.start, m.end) || (!BlockOpens(s, m.start) && IsInline(s, m.start, m.end)))
    ensures |Formulas(s)[i]| >= 3 && Formulas(s)[i][0] == '$' && Formulas(s)[i][|Formulas(s)[i]| - 1] == '$'
  {
    SpansShape(s, 0);
    TextsFromAt(s, 0, i);
    var m := Spans(s)[i];
    assert m == Scan(s, 0)[i];
    MatchAtMeaning(s, m.start);
    MatchDelimited(s, m.start);
  }

  /** `trim` leaves a formula alone: its first and last characters are `$`. */
  lemma TrimKeepsFormula(f: string)
    requires |f| >= 1 && f[0] == '$' && f[|f| - 1] == '$'
    ensures Trim(f) == f
  {
    TrimUnchanged(f);
  }

  /** The loop of `extractFormulas`: `regex.exec` is called until it returns
      null, each call resuming at `lastIndex`, the end of the previous match;
      each match's text is trimmed and pushed. */
  method CollectFormulas(text: string) returns (formulas: seq<string>)
    ensures formulas == Formulas(text)
  {
    formulas := [];
    var lastIndex: nat := 0;
    while true
      invariant lastIndex <= |text|
      invariant Formulas(text) == formulas + TextsFrom(text, lastIndex)
      decreases |text| - lastIndex
    {
      var m := NextMatch(text, lastIndex);
      if m.None? {
        break;
      }
      var span := m.value;
      CollectStep(text, lastIndex, formulas);
      formulas := formulas + [Trim(text[span.start..span.end])];
      lastIndex := span.end;
    }
  }

  /** One round of the loop: the trimmed match joins the list, and the
      texts still to come start after it. */
  lemma CollectStep(s: string, from: nat, formulas: seq<string>)
    requires NextMatch(s, from).Some?
    ensures var m := NextMatch(s, from).value;
      from < m.end <= |s| && m.start <= m.end
      && formulas + TextsFrom(s, from) == formulas + [Trim(s[m.start..m.end])] + TextsFrom(s, m.end)
  {
    var m := NextMatch(s, from).value;
    ExecStep(s, from);
    var raw := s[m.start..m.end];
    TrimKeepsFormula(raw);
    Associate(formulas, [raw], TextsFrom(s, m.end));
  }

  /** One successful `exec` from `from`: the match lies past `from`, is
      delimited by dollars, and the remaining texts follow it. */
  lemma ExecStep(s: string, from: nat)
    requires NextMatch(s, from).Some?
    ensures var m := NextMatch(s, from).value;
      from <= m.start && m.start + 3 <= m.end <= |s|
      && s[m.start] == '$' && s[m.end - 1] == '$'
      && TextsFrom(s, from) == [s[m.start..m.end]] + TextsFrom(s, m.end)
  {
    NextMatchMeaning(s, from);
    MatchDelimited(s, NextMatch(s, from).value.start);
  }

  /** No match starts at a position that does not hold a dollar. */
  lemma NoMatchWithoutDollar(s: string, q: nat)
    requires q >= |s| || s[q] != '$'
    ensures MatchAt(s, q).None?
  {
    if MatchAt(s, q).Some? {
      MatchDelimited(s, q);
    }
  }

  /** `exec` passes over positions where nothing matches. */
  lemma {:induction false} NextMatchSkips(s: string, from: nat, p: nat)
    requires from <= p <= |s|
    requires forall q :: from <= q < p ==> MatchAt(s, q).None?
    ensures NextMatch(s, from) == NextMatch(s, p)
    decreases p - from
  {
    if from < p {
      NextMatchSkips(s, from + 1, p);
    }
  }
}
