/** The insertion pipeline on HTML holding a single inline formula, and the
    worked example `<p>a $x^2$ b</p>`, which becomes `<p>a {formula0} b</p>`
    and then the text `<p>a `, the equation `x^2` and the text ` b</p>`. */
module PluginExamples {
  import opened Strings
  import opened Extractor
  import opened Normalizer
  import opened NormalizerExamples
  import opened Placeholders
  import opened Documents
  import opened Plugin

  /** `c` does not occur in `s`. */
  predicate Lacks(s: string, c: char) {
    forall k :: 0 <= k < |s| ==> s[k] != c
  }

  /** `a + "$" + body + "$" + b` holds exactly one inline formula, whose
      body is not empty, and no `{`. */
  predicate OneInline(a: string, body: string, b: string) {
    OneDollarPair(a, body, b) && Lacks(a, '{') && Lacks(body, '{') && Lacks(b, '{')
  }

  /** The only dollars of `a + "$" + body + "$" + b` are the two
      delimiters, with at least one character between them. */
  predicate OneDollarPair(a: string, body: string, b: string) {
    Lacks(a, '$') && Lacks(body, '$') && Lacks(b, '$') && body != []
  }

  /** The dollars of `a + "$" + body + "$" + b`, where only the two
      delimiters are dollars. */
  lemma SingleDollars(a: string, body: string, b: string)
    requires Lacks(a, '$') && Lacks(body, '$') && Lacks(b, '$')
    ensures var s := a + "$" + body + "$" + b; var e := |a| + |body| + 2;
      |s| == e + |b| && s[|a|] == '$' && s[e - 1] == '$'
      && (forall q :: 0 <= q < |s| && q != |a| && q != e - 1 ==> s[q] != '$')
      && s[..|a|] == a && s[|a|..e] == "$" + body + "$" && s[e..] == b
  {
    var s := a + "$" + body + "$" + b;
    var e := |a| + |body| + 2;
    forall q | 0 <= q < |s| && q != |a| && q != e - 1 ensures s[q] != '$' {
      if q < |a| {
        assert s[q] == a[q];
      } else if q < e - 1 {
        assert s[q] == body[q - |a| - 1];
      } else {
        assert s[q] == b[q - e];
      }
    }
    assert s[|a|..e] == "$" + body + "$";
  }

  /** The pattern matches once, at the opening dollar, up to just after the
      closing one. */
  lemma SingleMatch(a: string, body: string, b: string)
    requires OneDollarPair(a, body, b)
    ensures var s := a + "$" + body + "$" + b;
      MatchAt(s, |a|) == Some(|a| + |body| + 2)
  {
    var s := a + "$" + body + "$" + b;
    var p, e := |a|, |a| + |body| + 2;
    SingleDollars(a, body, b);
    assert !OccursAt(s, "$$", p) by {
      if OccursAt(s, "$$", p) {
        OccursChar(s, "$$", p, 1);
      }
    }
    assert OccursAt(s, "$", e - 1);
    var v := IndexOf(s, "$", p + 1);
    assert v.Some? && v.value <= e - 1;
    OccursChar(s, "$", v.value, 0);
  }

  /** The global scan finds exactly that one span. */
  lemma SingleSpans(a: string, body: string, b: string)
    requires OneDollarPair(a, body, b)
    ensures var s := a + "$" + body + "$" + b;
      Spans(s) == [Span(|a|, |a| + |body| + 2)]
  {
    var s := a + "$" + body + "$" + b;
    var p, e := |a|, |a| + |body| + 2;
    SingleDollars(a, body, b);
    forall q | 0 <= q < p ensures MatchAt(s, q).None? {
      NoMatchWithoutDollar(s, q);
    }
    NextMatchSkips(s, 0, p);
    SingleMatch(a, body, b);
    assert NextMatch(s, 0) == Some(Span(p, e));
    forall q | e <= q < |s| ensures MatchAt(s, q).None? {
      NoMatchWithoutDollar(s, q);
    }
    NextMatchSkips(s, e, |s|);
    assert Scan(s, e) == [];
  }

  /** The extracted list is that one formula, dollars included. */
  lemma SingleFormulas(a: string, body: string, b: string)
    requires OneDollarPair(a, body, b)
    ensures var s := a + "$" + body + "$" + b;
      Formulas(s) == ["$" + body + "$"] && Gap(s, 0) == a && After(s, 1) == b
  {
    var s := a + "$" + body + "$" + b;
    SingleDollars(a, body, b);
    SingleSpans(a, body, b);
    FormulaIsSpanText(s, 0);
  }

  /** Without `{`, no placeholder is already present. */
  lemma SingleFree(a: string, body: string, b: string)
    requires Lacks(a, '{') && Lacks(body, '{') && Lacks(b, '{')
    ensures PlaceholderFree(a + "$" + body + "$" + b, 1)
  {
    var s := a + "$" + body + "$" + b;
    var p, e := |a|, |a| + |body| + 2;
    forall q | 0 <= q < |s| ensures s[q] != '{' {
      if q < p {
        assert s[q] == a[q];
      } else if p < q < e - 1 {
        assert s[q] == body[q - p - 1];
      } else if q >= e {
        assert s[q] == b[q - e];
      }
    }
    NoBracePlaceholderFree(s, 1);
  }

  /** The pasted HTML carries `{formula0}` where the formula was. */
  lemma SingleEmbedded(a: string, body: string, b: string)
    requires OneInline(a, body, b)
    ensures EmbeddedHtml(a + "$" + body + "$" + b) == a + Placeholder(0) + b
  {
    var s := a + "$" + body + "$" + b;
    SingleSpans(a, body, b);
    SingleFormulas(a, body, b);
    SingleFree(a, body, b);
    EmbedAligned(s, 1);
    assert Frame(s, 1) == a + Placeholder(0);
  }

  /** Its one normalised formula. */
  lemma SingleCleaned(a: string, body: string, b: string)
    requires OneDollarPair(a, body, b)
    ensures Cleaned(a + "$" + body + "$" + b) == [CleanFormula("$" + body + "$")]
  {
    SingleSpans(a, body, b);
    SingleFormulas(a, body, b);
  }

  /** On HTML with a single formula, resolving leaves the text before it,
      its equation and the text after it. */
  lemma InsertOne(s: string, sel: Option<Range>)
    requires |Spans(s)| == 1 && PlaceholderFree(s, 1)
    ensures InsertResult(DocState([], sel), s).segments
            == [Text(Gap(s, 0)), Math(Cleaned(s)[0]), Text(After(s, 1))]
  {
    InsertRoundTrip(DocState([], sel), s);
    assert Resolved(s, Cleaned(s), 1) == [Text(Gap(s, 0)), Math(Cleaned(s)[0])];
  }

  /** Resolving it leaves the text before, the equation and the text
      after. */
  lemma SingleResolved(a: string, body: string, b: string, sel: Option<Range>)
    requires OneInline(a, body, b)
    ensures InsertResult(DocState([], sel), a + "$" + body + "$" + b).segments
            == [Text(a), Math(CleanFormula("$" + body + "$")), Text(b)]
  {
    var s := a + "$" + body + "$" + b;
    SingleSpans(a, body, b);
    SingleFormulas(a, body, b);
    SingleCleaned(a, body, b);
    SingleFree(a, body, b);
    InsertOne(s, sel);
  }

  /** `insertIntoDocument` on HTML that holds one inline formula and no `{`,
      into an empty document: the formula is extracted with its dollars, the
      pasted HTML carries `{formula0}` in its place, and the document ends
      as the text before it, its normalised equation and the text after. */
  lemma InsertSingleInline(a: string, body: string, b: string, sel: Option<Range>)
    requires OneInline(a, body, b)
    ensures var s := a + "$" + body + "$" + b;
      Formulas(s) == ["$" + body + "$"]
      && EmbeddedHtml(s) == a + Placeholder(0) + b
      && InsertResult(DocState([], sel), s).segments
         == [Text(a), Math(CleanFormula("$" + body + "$")), Text(b)]
  {
    SingleFormulas(a, body, b);
    SingleEmbedded(a, body, b);
    SingleResolved(a, body, b, sel);
  }

  /** A pattern that opens with a dollar does not occur in a dollar-free
      prefix. */
  lemma NotInDollarFree(a: string, f: string, b: string)
    requires Lacks(a, '$') && f != [] && f[0] == '$'
    ensures forall k: nat :: k < |a| ==> !OccursAt(a + f + b, f, k)
  {
    forall k: nat | k < |a| ensures !OccursAt(a + f + b, f, k) {
      OccursEnds(a + f + b, f, k);
      assert (a + f + b)[k] == a[k];
    }
  }

  /** The embedding of HTML whose only dollars delimit one formula, even
      when the HTML already holds placeholder text. */
  lemma SingleReplaced(a: string, body: string, b: string)
    requires OneDollarPair(a, body, b)
    ensures EmbeddedHtml(a + "$" + body + "$" + b) == a + Placeholder(0) + b
  {
    var s := a + "$" + body + "$" + b;
    var f := "$" + body + "$";
    SingleFormulas(a, body, b);
    assert s == a + f + b;
    NotInDollarFree(a, f, b);
    ReplaceFirstAt(a, f, b, Placeholder(0));
    assert Embedded(s, [f], 1) == ReplaceFirst(s, f, Placeholder(0));
  }

  /** A document that is one text starting with placeholder 0: the equation
      replaces that leading placeholder. */
  lemma ResolveFront(u: string, c: string, sel: Option<Range>)
    ensures ResolveAll(DocState([Text(Placeholder(0) + u)], sel), [c], 1).segments
            == [Text([]), Math(c), Text(u)]
  {
    var p := Placeholder(0);
    var e := p + u;
    assert OccursAt(e, p, 0);
    IndexOfFirst(e, p, 0);
    assert Find([Text(e)], p) == Some(Range(0, 0, |p|));
    assert e[|p|..] == u;
  }

  /** `InsertResult` in terms of the embedded HTML and the cleaned list. */
  lemma InsertResultOf(st: DocState, rendered: string, e: string, cs: seq<string>)
    requires EmbeddedHtml(rendered) == e && CleanAll(Formulas(rendered)) == cs
    ensures InsertResult(st, rendered) == ResolveAll(DocState(st.segments + [Text(e)], st.selection), cs, |cs|)
  {
  }

  /** Placeholder text already in the HTML captures the equation: the first
      `{formula0}` of the pasted HTML is the one that was there before, so
      the equation lands in front, and the placeholder for the formula
      itself is left in the text. This is why `InsertRoundTrip` asks for
      placeholder-free input. */
  lemma PlaceholderTextCaptures(m: string, body: string, b: string, sel: Option<Range>)
    requires OneDollarPair(Placeholder(0) + m, body, b)
    ensures var s := Placeholder(0) + m + "$" + body + "$" + b;
      InsertResult(DocState([], sel), s).segments
      == [Text([]), Math(CleanFormula("$" + body + "$")), Text(m + Placeholder(0) + b)]
  {
    var p := Placeholder(0);
    var a := p + m;
    var s := a + "$" + body + "$" + b;
    var c := CleanFormula("$" + body + "$");
    SingleCleaned(a, body, b);
    SingleReplaced(a, body, b);
    Regroup(p, m, p, b);
    InsertResultOf(DocState([], sel), s, p + (m + p + b), [c]);
    assert [] + [Text(p + (m + p + b))] == [Text(p + (m + p + b))];
    ResolveFront(m + p + b, c, sel);
  }

  /** The worked example. */
  lemma ParagraphExample(sel: Option<Range>)
    ensures Formulas("<p>a $x^2$ b</p>") == ["$x^2$"]
    ensures EmbeddedHtml("<p>a $x^2$ b</p>") == "<p>a {formula0} b</p>"
    ensures InsertResult(DocState([], sel), "<p>a $x^2$ b</p>").segments
            == [Text("<p>a "), Math("x^2"), Text(" b</p>")]
  {
    var a, body, b := "<p>a ", "x^2", " b</p>";
    assert Lacks(a, '$') && Lacks(body, '$') && Lacks(b, '$');
    assert Lacks(a, '{') && Lacks(body, '{') && Lacks(b, '{');
    ParagraphSplits();
    InsertSingleInline(a, body, b, sel);
    PlaceholderZero();
    InlineExample();
  }

  lemma ParagraphSplits()
    ensures "<p>a " + "$" + "x^2" + "$" + " b</p>" == "<p>a $x^2$ b</p>"
    ensures "$" + "x^2" + "$" == "$x^2$"
    ensures "<p>a " + "{formula0}" + " b</p>" == "<p>a {formula0} b</p>"
  {
  }

  lemma PlaceholderZero()
    ensures Placeholder(0) == "{formula0}"
  {
  }
}
