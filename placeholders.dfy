/** Placeholders and the embedding loop of `insertIntoDocument`: formula `i`
    of the extracted list is replaced in the HTML, first occurrence only, by
    the text `{formula<i>}`. */
module Placeholders {
  import opened Strings
  import opened Extractor

  /** `"{formula" + i + "}"`, the text that stands for formula `i` in the
      HTML and that the document search later looks for. */
  function Placeholder(i: nat): string {
    "{formula" + Decimal(i) + "}"
  }

  /** A placeholder opens with its only `{`, closes with its only `}`, and
      holds no dollar sign. */
  lemma PlaceholderShape(i: nat)
    ensures var p := Placeholder(i);
      |p| >= 10 && p[0] == '{' && p[|p| - 1] == '}'
      && (forall k :: 0 < k < |p| ==> p[k] != '{')
      && (forall k :: 0 <= k < |p| - 1 ==> p[k] != '}')
      && (forall k :: 0 <= k < |p| ==> p[k] != '$')
  {
    var p := Placeholder(i);
    var d := Decimal(i);
    forall k | 8 <= k < |p| - 1 ensures '0' <= p[k] <= '9' {
      assert p[k] == d[k - 8];
    }
  }

  /** Different indices give different placeholders. */
  lemma PlaceholderInjective(i: nat, j: nat)
    requires Placeholder(i) == Placeholder(j)
    ensures i == j
  {
    var p := Placeholder(i);
    assert p[8..|p| - 1] == Decimal(i);
    assert Placeholder(j)[8..|p| - 1] == Decimal(j);
    DecimalInjective(i, j);
  }

  /** An occurrence of placeholder `i` that overlaps placeholder `j` in
      `x + Placeholder(j) + y` is placeholder `j` itself: the two cannot
      overlap partly, and one cannot sit inside the other. */
  lemma PlaceholderOverlap(x: string, j: nat, y: string, i: nat, k: nat)
    requires OccursAt(x + Placeholder(j) + y, Placeholder(i), k)
    requires k < |x| + |Placeholder(j)| && |x| < k + |Placeholder(i)|
    ensures k == |x| && i == j
  {
    var w := x + Placeholder(j) + y;
    var pi, pj := Placeholder(i), Placeholder(j);
    PlaceholderShape(i);
    PlaceholderShape(j);
    assert forall t :: 0 <= t < |pj| ==> w[|x| + t] == pj[t];
    if k < |x| {
      OccursChar(w, pi, k, |x| - k);
      assert false;
    } else if k > |x| {
      assert false;
    } else if |pi| < |pj| {
      assert false;
    } else if |pi| > |pj| {
      OccursChar(w, pi, k, |pj| - 1);
      assert false;
    } else {
      assert pi == w[k..k + |pi|];
      assert w[k..k + |pi|] == pj;
      PlaceholderInjective(i, j);
    }
  }

  /** No placeholder occurs inside another one, and placeholders are
      pairwise distinct. */
  lemma PlaceholderNotNested(i: nat, j: nat, k: nat)
    requires OccursAt(Placeholder(j), Placeholder(i), k)
    ensures i == j && k == 0
  {
    var pj := Placeholder(j);
    assert [] + pj + [] == pj;
    PlaceholderShape(i);
    PlaceholderOverlap([], j, [], i, k);
  }

  /** The embedding loop after its first `n` rounds: round `i` replaces the
      first occurrence of formula `i` by placeholder `i`. */
  function Embedded(html: string, fs: seq<string>, n: nat): string
    requires n <= |fs|
  {
    if n == 0 then html
    else ReplaceFirst(Embedded(html, fs, n - 1), fs[n - 1], Placeholder(n - 1))
  }

  /** The embedding loop: round `i` replaces the first occurrence of formula
      `i` by placeholder `i`, for every formula in order. */
  method EmbedPlaceholders(html: string, formulas: seq<string>) returns (out: string)
    ensures out == Embedded(html, formulas, |formulas|)
  {
    out := html;
    for i := 0 to |formulas|
      invariant out == Embedded(html, formulas, i)
    {
      out := ReplaceFirst(out, formulas[i], Placeholder(i));
    }
  }

  // Alignment: on a text that holds no placeholder already, round `i`
  // replaces exactly the text of span `i`.

  /** No placeholder for the first `n` formulas occurs in `s`. */
  ghost predicate PlaceholderFree(s: string, n: nat) {
    forall j: nat, k: nat :: j < n ==> !OccursAt(s, Placeholder(j), k)
  }

  /** The text the scan skipped before span `i`: from the end of span
      `i - 1` (or the start) to the start of span `i`. */
  function Gap(s: string, i: nat): string
    requires i < |Spans(s)|
  {
    SpansShape(s, 0);
    var r := Spans(s);
    assert i > 0 ==> r[i - 1].end <= r[i].start;
    s[GapStart(r, 0, i)..r[i].start]
  }

  /** The HTML the embedding should produce up to span `i`: the text before
      each earlier span, each followed by that span's placeholder. */
  function Frame(s: string, i: nat): string
    requires i <= |Spans(s)|
  {
    if i == 0 then [] else Frame(s, i - 1) + Gap(s, i - 1) + Placeholder(i - 1)
  }

  /** A block formula's text, wherever it occurs, opens a block there. */
  lemma BlockTextOpens(s: string, f: string, q: nat)
    requires |f| >= 4 && f[..2] == "$$" && f[|f| - 2..] == "$$" && OccursAt(s, f, q)
    ensures BlockOpens(s, q)
  {
    assert s[q..q + |f|] == f;
    assert s[q..q + 2] == f[..2];
    assert s[q + |f| - 2..q + |f|] == f[|f| - 2..];
    assert OccursAt(s, "$$", q + |f| - 2);
  }

  /** An inline formula's text, wherever it occurs, is an inline formula
      there. */
  lemma InlineTextIsInline(s: string, f: string, q: nat)
    requires |f| >= 3 && f[0] == '$' && f[|f| - 1] == '$'
    requires forall t :: 0 < t < |f| - 1 ==> f[t] != '$'
    requires OccursAt(s, f, q)
    ensures IsInline(s, q, q + |f|)
  {
    forall t | 0 <= t < |f| ensures s[q + t] == f[t] {
      OccursChar(s, f, q, t);
    }
  }

  /** The text of span `i`, delimiters included: formula `i`. */
  function SpanText(s: string, i: nat): (f: string)
    requires i < |Spans(s)|
    ensures |Formulas(s)| == |Spans(s)| && f == Formulas(s)[i]
  {
    FormulaIsSpanText(s, i);
    s[Spans(s)[i].start..Spans(s)[i].end]
  }

  /** A formula's text, found anywhere in the text it came from, is a place
      where the pattern matches. */
  lemma FormulaOccurrence(s: string, i: nat, q: nat)
    requires i < |Spans(s)| && OccursAt(s, SpanText(s, i), q)
    ensures MatchAt(s, q).Some?
  {
    FormulaIsSpanText(s, i);
    var m := Spans(s)[i];
    var f := SpanText(s, i);
    MatchAtMeaning(s, q);
    if IsBlock(s, m.start, m.end) {
      assert f[..2] == s[m.start..m.start + 2];
      assert f[|f| - 2..] == s[m.end - 2..m.end];
      BlockTextOpens(s, f, q);
    } else if !BlockOpens(s, q) {
      forall t | 0 < t < |f| - 1 ensures f[t] != '$' {
        assert f[t] == s[m.start + t];
      }
      InlineTextIsInline(s, f, q);
    }
  }

  /** No formula's text occurs at a position the scan skipped before span
      `j`. */
  lemma NotInGap(s: string, i: nat, j: nat, q: nat)
    requires i < |Spans(s)| && j < |Spans(s)|
    requires GapStart(Spans(s), 0, j) <= q < Spans(s)[j].start
    ensures !OccursAt(s, SpanText(s, i), q)
  {
    if OccursAt(s, SpanText(s, i), q) {
      FormulaOccurrence(s, i, q);
      SkippedBeforeSpan(s, j, q);
    }
  }

  /** The gap before span `j` holds no formula's text. */
  lemma GapAvoidsFormula(s: string, i: nat, j: nat, t: nat)
    requires i < |Spans(s)| && j < |Spans(s)|
    ensures !OccursAt(Gap(s, j), SpanText(s, i), t)
  {
    SpansShape(s, 0);
    var r := Spans(s);
    var a, b := GapStart(r, 0, j), r[j].start;
    assert j > 0 ==> r[j - 1].end <= r[j].start;
    assert Gap(s, j) == s[a..b];
    if OccursAt(s[a..b], SpanText(s, i), t) {
      OccursInSlice(s, a, b, SpanText(s, i), t);
      NotInGap(s, i, j, a + t);
    }
  }

  /** The text of formula `i` holds no placeholder. */
  lemma FormulaPlaceholderFree(s: string, i: nat, j: nat, t: nat)
    requires i < |Spans(s)| && PlaceholderFree(s, |Spans(s)|) && j < |Spans(s)|
    ensures !OccursAt(SpanText(s, i), Placeholder(j), t)
  {
    SpansShape(s, 0);
    var m := Spans(s)[i];
    if OccursAt(SpanText(s, i), Placeholder(j), t) {
      OccursInSlice(s, m.start, m.end, Placeholder(j), t);
    }
  }

  /** In `fr + g + p + x`, a dollar-delimited `f` that occurs nowhere in `g`
      and does not contain the dollar-free `p` has no occurrence starting in
      `g` or in `p`. */
  lemma PieceAvoids(fr: string, g: string, p: string, x: string, f: string, k: nat)
    requires |f| >= 1 && f[0] == '$' && f[|f| - 1] == '$'
    requires forall t :: 0 <= t < |p| ==> p[t] != '$'
    requires forall t: nat :: !OccursAt(f, p, t)
    requires forall t: nat :: !OccursAt(g, f, t)
    requires |fr| <= k < |fr| + |g| + |p|
    ensures !OccursAt(fr + g + p + x, f, k)
  {
    var w := fr + g + p + x;
    var b := |fr| + |g|;
    assert forall t :: 0 <= t < |p| ==> w[b + t] == p[t];
    assert OccursAt(w, p, b) by {
      assert w[b..b + |p|] == p;
    }
    OccursEnds(w, f, k);
    OccursInside(fr, g, p + x, f, k);
    assert w == fr + g + (p + x);
    OccursCovering(w, f, k, p, b);
  }

  /** Formula `i` has no occurrence starting inside frame `j`, whatever
      follows the frame. */
  lemma {:induction false} FrameAvoidsFormula(s: string, i: nat, j: nat, x: string, k: nat)
    requires j <= |Spans(s)| && i < |Spans(s)| && PlaceholderFree(s, |Spans(s)|)
    requires k < |Frame(s, j)|
    ensures !OccursAt(Frame(s, j) + x, SpanText(s, i), k)
    decreases j
  {
    var fr := Frame(s, j - 1);
    var g := Gap(s, j - 1);
    var p := Placeholder(j - 1);
    assert Frame(s, j) + x == fr + (g + p + x);
    if k < |fr| {
      FrameAvoidsFormula(s, i, j - 1, g + p + x, k);
    } else {
      var f := SpanText(s, i);
      FormulaIsSpanText(s, i);
      PlaceholderShape(j - 1);
      forall t: nat ensures !OccursAt(f, p, t) {
        FormulaPlaceholderFree(s, i, j - 1, t);
      }
      forall t: nat ensures !OccursAt(g, f, t) {
        GapAvoidsFormula(s, i, j - 1, t);
      }
      PieceAvoids(fr, g, p, x, f, k);
    }
  }

  /** The text after span `i - 1` (all of `s` for `i == 0`). */
  function After(s: string, i: nat): string
    requires i <= |Spans(s)|
  {
    SpansShape(s, 0);
    s[GapStart(Spans(s), 0, i)..]
  }

  /** The text after span `i - 1` is the gap before span `i`, span `i`, and
      the text after span `i`. */
  lemma AfterSplits(s: string, i: nat)
    requires i < |Spans(s)|
    ensures After(s, i) == Gap(s, i) + SpanText(s, i) + After(s, i + 1)
  {
    SpansShape(s, 0);
    var r := Spans(s);
    var a, m := GapStart(r, 0, i), r[i];
    assert i > 0 ==> r[i - 1].end <= m.start;
    assert Gap(s, i) == s[a..m.start] && SpanText(s, i) == s[m.start..m.end];
    assert After(s, i + 1) == s[m.end..];
    assert s[a..] == s[a..m.start] + s[m.start..m.end] + s[m.end..];
  }

  /** Formula `i` does not start inside the gap before span `i`. */
  lemma GapAvoidsOwnFormula(s: string, i: nat, t: nat)
    requires i < |Spans(s)| && t < |Gap(s, i)|
    ensures !OccursAt(After(s, i), SpanText(s, i), t)
  {
    var f := SpanText(s, i);
    if OccursAt(After(s, i), f, t) {
      SpansShape(s, 0);
      var a := GapStart(Spans(s), 0, i);
      assert i > 0 ==> Spans(s)[i - 1].end <= Spans(s)[i].start;
      assert |Gap(s, i)| == Spans(s)[i].start - a;
      assert After(s, i) == s[a..|s|];
      OccursInSlice(s, a, |s|, f, t);
      NotInGap(s, i, i, a + t);
    }
  }

  /** Before round `i`, formula `i` does not occur ahead of span `i`. */
  lemma NoEarlierOccurrence(s: string, i: nat, k: nat)
    requires i < |Spans(s)| && PlaceholderFree(s, |Spans(s)|)
    requires k < |Frame(s, i)| + |Gap(s, i)|
    ensures !OccursAt(Frame(s, i) + After(s, i), SpanText(s, i), k)
  {
    if k < |Frame(s, i)| {
      FrameAvoidsFormula(s, i, i, After(s, i), k);
    } else {
      NotAfterFrame(s, i, k);
    }
  }

  lemma NotAfterFrame(s: string, i: nat, k: nat)
    requires i < |Spans(s)|
    requires |Frame(s, i)| <= k < |Frame(s, i)| + |Gap(s, i)|
    ensures !OccursAt(Frame(s, i) + After(s, i), SpanText(s, i), k)
  {
    var fr := Frame(s, i);
    OccursRight(fr, After(s, i), SpanText(s, i), k);
    GapAvoidsOwnFormula(s, i, k - |fr|);
  }

  /** `a + f + b` with no occurrence of `f` before `|a|`: `replace` turns it
      into `a + rep + b`. */
  lemma ReplaceFirstAt(a: string, f: string, b: string, rep: string)
    requires forall k: nat :: k < |a| ==> !OccursAt(a + f + b, f, k)
    ensures ReplaceFirst(a + f + b, f, rep) == a + rep + b
  {
    var w := a + f + b;
    assert w[|a|..|a| + |f|] == f;
    assert OccursAt(w, f, |a|);
    assert w[..|a|] == a;
    assert w[|a| + |f|..] == b;
  }

  /** Round `i` of the embedding loop, on the HTML as the earlier rounds
      left it, replaces span `i` and nothing else. */
  lemma EmbedStep(s: string, i: nat)
    requires i < |Spans(s)| && PlaceholderFree(s, |Spans(s)|)
    ensures ReplaceFirst(Frame(s, i) + After(s, i), SpanText(s, i), Placeholder(i))
            == Frame(s, i + 1) + After(s, i + 1)
  {
    var fr, g, f, rest := Frame(s, i), Gap(s, i), SpanText(s, i), After(s, i + 1);
    AfterSplits(s, i);
    assert fr + After(s, i) == (fr + g) + f + rest;
    forall k: nat | k < |fr + g| ensures !OccursAt((fr + g) + f + rest, f, k) {
      NoEarlierOccurrence(s, i, k);
    }
    ReplaceFirstAt(fr + g, f, rest, Placeholder(i));
  }

  /** After `n` rounds of the embedding loop over the formulas extracted
      from `s` itself, spans `0..n-1` of `s` have each been replaced, in
      place, by their placeholders, and the rest of `s` is untouched —
      provided `s` does not already hold one of the placeholders. */
  lemma {:induction false} EmbedAligned(s: string, n: nat)
    requires n <= |Spans(s)| && PlaceholderFree(s, |Spans(s)|)
    ensures |Formulas(s)| == |Spans(s)|
    ensures Embedded(s, Formulas(s), n) == Frame(s, n) + After(s, n)
  {
    FormulasLength(s);
    if n == 0 {
      assert After(s, 0) == s;
    } else {
      EmbedAligned(s, n - 1);
      EmbedStep(s, n - 1);
    }
  }

  /** The text up to span `i`, as found: gaps and span texts in turn. */
  function Source(s: string, i: nat): string
    requires i <= |Spans(s)|
  {
    if i == 0 then [] else Source(s, i - 1) + Gap(s, i - 1) + SpanText(s, i - 1)
  }

  /** The gaps and the formula texts, in order, make up the whole text:
      the scan loses nothing, so the texts the document keeps between the
      equations are exactly what lay between the formulas. */
  lemma {:induction false} SourceSplits(s: string, i: nat)
    requires i <= |Spans(s)|
    ensures Source(s, i) + After(s, i) == s
  {
    if i == 0 {
      assert After(s, 0) == s;
    } else {
      var pre, g, f := Source(s, i - 1), Gap(s, i - 1), SpanText(s, i - 1);
      assert pre + After(s, i - 1) == s by {
        SourceSplits(s, i - 1);
      }
      assert After(s, i - 1) == g + f + After(s, i) by {
        AfterSplits(s, i - 1);
      }
      Regroup(pre, g, f, After(s, i));
    }
  }

  /** A text without `{` holds no placeholder. */
  lemma NoBracePlaceholderFree(s: string, n: nat)
    requires forall k :: 0 <= k < |s| ==> s[k] != '{'
    ensures PlaceholderFree(s, n)
  {
    forall j: nat, k: nat | j < n ensures !OccursAt(s, Placeholder(j), k) {
      PlaceholderShape(j);
      if OccursAt(s, Placeholder(j), k) {
        OccursChar(s, Placeholder(j), k, 0);
      }
    }
  }
}
