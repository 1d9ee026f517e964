/** The document side of `insertIntoDocument`: the ONLYOFFICE document the
    HTML is pasted into, its `Search`, `Select`, `Delete` and
    `AddMathEquation` calls, and the loop that replaces each placeholder by
    an equation. The document is a sequence of segments: runs of text, and
    equations built from LaTeX sources. */
module Documents {
  import opened Strings
  import opened Extractor
  import opened Placeholders

  datatype Segment = Text(text: string) | Math(latex: string)

  /** Characters `start..end` of the text of segment `seg`. */
  datatype Range = Range(seg: nat, start: nat, end: nat)

  /** The document's contents and its current selection. */
  datatype DocState = DocState(segments: seq<Segment>, selection: Option<Range>)

  predicate ValidRange(segs: seq<Segment>, r: Range) {
    r.seg < |segs| && segs[r.seg].Text? && r.start <= r.end <= |segs[r.seg].text|
  }

  /** The first hit of `pat` in the text segments from `i` on, in document
      order; a hit lies inside one text segment. */
  function FindFrom(segs: seq<Segment>, pat: string, i: nat): Option<Range>
    decreases |segs| - i
  {
    if i >= |segs| then None
    else match segs[i]
      case Math(_) => FindFrom(segs, pat, i + 1)
      case Text(t) =>
        match IndexOf(t, pat, 0)
        case Some(k) => Some(Range(i, k, k + |pat|))
        case None => FindFrom(segs, pat, i + 1)
  }

  /** `doc.Search(pat)[0]`, or `None` when the search finds nothing. */
  function Find(segs: seq<Segment>, pat: string): Option<Range> {
    FindFrom(segs, pat, 0)
  }

  /** The search finds the first occurrence in document order: no text
      segment before the hit holds `pat`, nor does the hit's segment before
      the hit; and it finds nothing only when no text segment holds `pat`. */
  lemma {:induction false} FindFromMeaning(segs: seq<Segment>, pat: string, i: nat)
    ensures var r := FindFrom(segs, pat, i);
      r.Some? ==>
        i <= r.value.seg && ValidRange(segs, r.value) && r.value.end == r.value.start + |pat|
        && OccursAt(segs[r.value.seg].text, pat, r.value.start)
        && (forall k: nat :: k < r.value.start ==> !OccursAt(segs[r.value.seg].text, pat, k))
        && (forall j, k: nat :: i <= j < r.value.seg && segs[j].Text? ==> !OccursAt(segs[j].text, pat, k))
    ensures FindFrom(segs, pat, i).None? ==>
      forall j, k: nat :: i <= j < |segs| && segs[j].Text? ==> !OccursAt(segs[j].text, pat, k)
    decreases |segs| - i
  {
    if i < |segs| {
      FindFromMeaning(segs, pat, i + 1);
    }
  }

  /** Segment `r.seg` with the text of `r` replaced by an equation: the text
      before the range, the equation, the text after it. */
  function Replace(segs: seq<Segment>, r: Range, latex: string): seq<Segment>
    requires ValidRange(segs, r)
  {
    var t := segs[r.seg].text;
    segs[..r.seg] + [Text(t[..r.start]), Math(latex), Text(t[r.end..])] + segs[r.seg + 1..]
  }

  /** Segment `r.seg` with the text of `r` removed. */
  function DeleteRange(segs: seq<Segment>, r: Range): seq<Segment>
    requires ValidRange(segs, r)
  {
    var t := segs[r.seg].text;
    segs[..r.seg] + [Text(t[..r.start] + t[r.end..])] + segs[r.seg + 1..]
  }

  /** One round of the placeholder loop: search for placeholder `i`; on a hit
      select it, delete it and insert the equation where it was, leaving the
      cursor after the equation; on a miss change nothing. */
  function ResolveStep(st: DocState, i: nat, latex: string): DocState {
    match Find(st.segments, Placeholder(i))
    case None => st
    case Some(r) =>
      FindFromMeaning(st.segments, Placeholder(i), 0);
      DocState(Replace(st.segments, r, latex), Some(Range(r.seg + 2, 0, 0)))
  }

  /** What one round does. On a miss the document is unchanged. On a hit the
      first occurrence of the placeholder is cut out of its text segment, the
      equation goes in its place, and every other segment is untouched. */
  lemma ResolveStepMeaning(st: DocState, i: nat, latex: string)
    ensures (forall j: nat, k: nat :: j < |st.segments| && st.segments[j].Text? ==> !OccursAt(st.segments[j].text, Placeholder(i), k))
            ==> ResolveStep(st, i, latex) == st
    ensures var segs, p := st.segments, Placeholder(i);
      Find(segs, p).Some? ==>
        var r := Find(segs, p).value;
        ValidRange(segs, r) && r.end == r.start + |p|
        && (forall j: nat, k: nat :: j < r.seg && segs[j].Text? ==> !OccursAt(segs[j].text, p, k))
        && var t := segs[r.seg].text;
        OccursAt(t, p, r.start) && (forall k: nat :: k < r.start ==> !OccursAt(t, p, k))
    ensures var segs, p, out := st.segments, Placeholder(i), ResolveStep(st, i, latex).segments;
      Find(segs, p).Some? ==>
        var r := Find(segs, p).value;
        ValidRange(segs, r) && |out| == |segs| + 2
        && out[..r.seg] == segs[..r.seg] && out[r.seg + 3..] == segs[r.seg + 1..]
        && out[r.seg] == Text(segs[r.seg].text[..r.start]) && out[r.seg + 1] == Math(latex)
        && out[r.seg + 2] == Text(segs[r.seg].text[r.end..])
        && out[r.seg].text + p + out[r.seg + 2].text == segs[r.seg].text
  {
    var segs, p := st.segments, Placeholder(i);
    FindFromMeaning(segs, p, 0);
    match Find(segs, p)
    case None =>
    case Some(r) =>
      var t := segs[r.seg].text;
      var out := ResolveStep(st, i, latex).segments;
      assert out == segs[..r.seg] + [Text(t[..r.start]), Math(latex), Text(t[r.end..])] + segs[r.seg + 1..];
      assert t[r.start..r.end] == p;
      assert t[..r.start] + t[r.start..r.end] + t[r.end..] == t;
  }

  /** The placeholder loop after its first `n` rounds. */
  function ResolveAll(st: DocState, fs: seq<string>, n: nat): DocState
    requires n <= |fs|
  {
    if n == 0 then st else ResolveStep(ResolveAll(st, fs, n - 1), n - 1, fs[n - 1])
  }

  /** A document in the ONLYOFFICE editor, as the plugin's command sees it
      through `Api.GetDocument()`. */
  class Document {
    var segments: seq<Segment>
    var selection: Option<Range>

    function State(): DocState
      reads this
    {
      DocState(segments, selection)
    }

    constructor (segs: seq<Segment>)
      ensures segments == segs && selection == None
    {
      segments := segs;
      selection := None;
    }

    /** `PasteHtml`: the HTML arrives as a run of text after the existing
        contents. */
    method PasteHtml(html: string)
      modifies this
      ensures segments == old(segments) + [Text(html)] && selection == old(selection)
    {
      segments := segments + [Text(html)];
    }

    /** `doc.Search(pat)`, reduced to its first hit, the only one the plugin
        reads. */
    method Search(pat: string) returns (hit: Option<Range>)
      ensures hit == Find(segments, pat)
      ensures hit.Some? ==>
                ValidRange(segments, hit.value) && hit.value.end == hit.value.start + |pat|
                && OccursAt(segments[hit.value.seg].text, pat, hit.value.start)
    {
      FindFromMeaning(segments, pat, 0);
      hit := Find(segments, pat);
    }

    /** `rng.Select()`. */
    method Select(r: Range)
      modifies this
      ensures segments == old(segments) && selection == Some(r)
    {
      selection := Some(r);
    }

    /** `rng.Delete()`: the text of the range goes and the cursor stays where
        it began. */
    method Delete(r: Range)
      requires ValidRange(segments, r)
      modifies this
      ensures segments == DeleteRange(old(segments), r)
      ensures selection == Some(Range(r.seg, r.start, r.start))
    {
      segments := DeleteRange(segments, r);
      selection := Some(Range(r.seg, r.start, r.start));
    }

    /** `doc.AddMathEquation(latex, "latex")`: the equation replaces the
        selection and the cursor moves past it. */
    method AddMathEquation(latex: string)
      requires selection.Some? && ValidRange(segments, selection.value)
      modifies this
      ensures segments == Replace(old(segments), old(selection).value, latex)
      ensures selection == Some(Range(old(selection).value.seg + 2, 0, 0))
    {
      var r := selection.value;
      segments := Replace(segments, r, latex);
      selection := Some(Range(r.seg + 2, 0, 0));
    }
  }

  /** Deleting a range and inserting an equation at the collapsed cursor
      left behind replaces the range by the equation. */
  lemma DeleteThenInsert(segs: seq<Segment>, r: Range, latex: string)
    requires ValidRange(segs, r)
    ensures ValidRange(DeleteRange(segs, r), Range(r.seg, r.start, r.start))
    ensures Replace(DeleteRange(segs, r), Range(r.seg, r.start, r.start), latex) == Replace(segs, r, latex)
  {
    var t := segs[r.seg].text;
    var d := DeleteRange(segs, r);
    assert d[r.seg] == Text(t[..r.start] + t[r.end..]);
    var u := t[..r.start] + t[r.end..];
    assert u[..r.start] == t[..r.start];
    assert u[r.start..] == t[r.end..];
    assert d[..r.seg] == segs[..r.seg];
    assert d[r.seg + 1..] == segs[r.seg + 1..];
  }

  /** The loop inside `callCommand`: for each formula, search for its
      placeholder and, on a hit, select it, delete it and add the equation. */
  method ResolvePlaceholders(doc: Document, formulas: seq<string>)
    modifies doc
    ensures doc.State() == ResolveAll(old(doc.State()), formulas, |formulas|)
  {
    for index := 0 to |formulas|
      invariant doc.State() == ResolveAll(old(doc.State()), formulas, index)
    {
      var placeholder := Placeholder(index);
      var hit := doc.Search(placeholder);
      if hit.Some? {
        var rng := hit.value;
        DeleteThenInsert(doc.segments, rng, formulas[index]);
        doc.Select(rng);
        doc.Delete(rng);
        doc.AddMathEquation(formulas[index]);
      }
    }
  }

  // The round trip: resolving the placeholders of an aligned embedding puts
  // each formula back where its text was.

  /** No text segment holds one of the first `n` placeholders. */
  ghost predicate TextsPlaceholderFree(segs: seq<Segment>, n: nat) {
    forall j: nat, m: nat, k: nat :: j < |segs| && m < n && segs[j].Text? ==> !OccursAt(segs[j].text, Placeholder(m), k)
  }

  /** What the first `i` rounds should have produced from the HTML embedded
      for `s`: each gap of `s` as text, followed by the equation for its span,
      whose source is `cs[j]`. */
  function Resolved(s: string, cs: seq<string>, i: nat): seq<Segment>
    requires i <= |Spans(s)| && i <= |cs|
  {
    if i == 0 then [] else Resolved(s, cs, i - 1) + [Text(Gap(s, i - 1)), Math(cs[i - 1])]
  }

  /** Segment `2 j` of the resolved prefix is gap `j` as text, segment
      `2 j + 1` the equation for formula `j`. */
  lemma {:induction false} ResolvedAt(s: string, cs: seq<string>, i: nat, j: nat)
    requires i <= |Spans(s)| && i <= |cs| && j < i
    ensures |Resolved(s, cs, i)| == 2 * i
    ensures Resolved(s, cs, i)[2 * j] == Text(Gap(s, j))
    ensures Resolved(s, cs, i)[2 * j + 1] == Math(cs[j])
  {
    if j < i - 1 {
      ResolvedAt(s, cs, i - 1, j);
    } else {
      ResolvedLength(s, cs, i - 1);
    }
  }

  lemma {:induction false} ResolvedLength(s: string, cs: seq<string>, i: nat)
    requires i <= |Spans(s)| && i <= |cs|
    ensures |Resolved(s, cs, i)| == 2 * i
  {
    if i > 0 {
      ResolvedLength(s, cs, i - 1);
    }
  }

  /** The embedded HTML from gap `i` on: what is still to be resolved. */
  function Pending(s: string, i: nat): string
    requires i <= |Spans(s)|
    decreases |Spans(s)| - i
  {
    if i == |Spans(s)| then After(s, i) else Gap(s, i) + Placeholder(i) + Pending(s, i + 1)
  }

  /** The embedded HTML is the frame up to any gap followed by what is
      pending from there. */
  lemma {:induction false} FramePending(s: string, i: nat)
    requires i <= |Spans(s)|
    ensures Frame(s, i) + Pending(s, i) == Frame(s, |Spans(s)|) + After(s, |Spans(s)|)
    decreases |Spans(s)| - i
  {
    if i < |Spans(s)| {
      FramePending(s, i + 1);
      Regroup(Frame(s, i), Gap(s, i), Placeholder(i), Pending(s, i + 1));
    }
  }

  /** A gap is part of `s`, so it holds no placeholder when `s` holds none. */
  lemma GapPlaceholderFree(s: string, i: nat, m: nat, k: nat)
    requires i < |Spans(s)| && PlaceholderFree(s, |Spans(s)|) && m < |Spans(s)|
    ensures !OccursAt(Gap(s, i), Placeholder(m), k)
  {
    SpansShape(s, 0);
    var r := Spans(s);
    var a := GapStart(r, 0, i);
    assert i > 0 ==> r[i - 1].end <= r[i].start;
    assert Gap(s, i) == s[a..r[i].start];
    if OccursAt(Gap(s, i), Placeholder(m), k) {
      OccursInSlice(s, a, r[i].start, Placeholder(m), k);
    }
  }

  lemma {:induction false} ResolvedPlaceholderFree(s: string, cs: seq<string>, i: nat)
    requires i <= |Spans(s)| && i <= |cs| && PlaceholderFree(s, |Spans(s)|)
    ensures TextsPlaceholderFree(Resolved(s, cs, i), |Spans(s)|)
  {
    if i > 0 {
      ResolvedPlaceholderFree(s, cs, i - 1);
      var d := Resolved(s, cs, i);
      assert d == Resolved(s, cs, i - 1) + [Text(Gap(s, i - 1)), Math(cs[i - 1])];
      forall j: nat, m: nat, k: nat | j < |d| && m < |Spans(s)| && d[j].Text?
        ensures !OccursAt(d[j].text, Placeholder(m), k)
      {
        if j >= |d| - 2 {
          GapPlaceholderFree(s, i - 1, m, k);
        } else {
          assert d[j] == Resolved(s, cs, i - 1)[j];
        }
      }
    }
  }

  /** The first occurrence of placeholder `i` in what is pending at gap `i`
      is right after that gap. */
  lemma PendingFirst(s: string, i: nat)
    requires i < |Spans(s)| && PlaceholderFree(s, |Spans(s)|)
    ensures Pending(s, i) == Gap(s, i) + Placeholder(i) + Pending(s, i + 1)
    ensures OccursAt(Pending(s, i), Placeholder(i), |Gap(s, i)|)
    ensures forall k: nat :: k < |Gap(s, i)| ==> !OccursAt(Pending(s, i), Placeholder(i), k)
  {
    var g, p, rest := Gap(s, i), Placeholder(i), Pending(s, i + 1);
    var w := g + p + rest;
    assert w[|g|..|g| + |p|] == p;
    forall k: nat | k < |g| ensures !OccursAt(w, p, k) {
      if OccursAt(w, p, k) {
        if k + |p| <= |g| {
          assert w == g + (p + rest);
          OccursLeft(g, p + rest, p, k);
          GapPlaceholderFree(s, i, i, k);
        } else {
          PlaceholderOverlap(g, i, rest, i, k);
        }
      }
    }
  }

  /** A search past text segments that do not hold `pat`, into a last text
      whose first occurrence of `pat` is at `k`, finds that occurrence. */
  lemma FindInLast(a: seq<Segment>, t: string, pat: string, k: nat)
    requires forall j: nat, k': nat :: j < |a| && a[j].Text? ==> !OccursAt(a[j].text, pat, k')
    requires OccursAt(t, pat, k) && forall k': nat :: k' < k ==> !OccursAt(t, pat, k')
    ensures Find(a + [Text(t)], pat) == Some(Range(|a|, k, k + |pat|))
  {
    var segs := a + [Text(t)];
    FindFromMeaning(segs, pat, 0);
    var r := Find(segs, pat);
    assert segs[|a|] == Text(t);
    if r.None? {
      assert false;
    }
    if r.value.seg < |a| {
      assert false;
    }
    if r.value.start != k {
      assert false;
    }
  }

  /** Round `i` of the placeholder loop, on the document as the earlier
      rounds left it, turns placeholder `i` into equation `cs[i]`. */
  lemma ResolveStepAligned(pre: seq<Segment>, s: string, cs: seq<string>, sel: Option<Range>, i: nat)
    requires i < |Spans(s)| && |cs| == |Spans(s)|
    requires PlaceholderFree(s, |Spans(s)|) && TextsPlaceholderFree(pre, |Spans(s)|)
    ensures ResolveStep(DocState(pre + Resolved(s, cs, i) + [Text(Pending(s, i))], sel), i, cs[i]).segments
            == pre + Resolved(s, cs, i + 1) + [Text(Pending(s, i + 1))]
  {
    var a := pre + Resolved(s, cs, i);
    var p := Placeholder(i);
    ResolvedPlaceholderFree(s, cs, i);
    forall j: nat, k: nat | j < |a| && a[j].Text? ensures !OccursAt(a[j].text, p, k) {
      if j >= |pre| {
        assert a[j] == Resolved(s, cs, i)[j - |pre|];
      }
    }
    PendingFirst(s, i);
    var g := |Gap(s, i)|;
    FindInLast(a, Pending(s, i), p, g);
    var t := Pending(s, i);
    var segs := a + [Text(t)];
    assert t[..g] == Gap(s, i);
    assert t[g + |p|..] == Pending(s, i + 1);
    assert segs[..|a|] == a && segs[|a| + 1..] == [];
    var step := [Text(Gap(s, i)), Math(cs[i])];
    assert ResolveStep(DocState(segs, sel), i, cs[i]).segments == a + (step + [Text(Pending(s, i + 1))]);
    Associate(pre, Resolved(s, cs, i), step);
    Associate(a, step, [Text(Pending(s, i + 1))]);
  }

  /** The whole placeholder loop on a document holding `pre` followed by the
      HTML embedded for `s`: the gaps of `s` alternate with the equations
      `cs[0]`, `cs[1]`, ..., in the order of their spans, and the text after
      the last span ends the document. */
  lemma {:induction false} ResolveAligned(pre: seq<Segment>, s: string, cs: seq<string>, sel: Option<Range>, i: nat)
    requires i <= |Spans(s)| && |cs| == |Spans(s)|
    requires PlaceholderFree(s, |Spans(s)|) && TextsPlaceholderFree(pre, |Spans(s)|)
    ensures var n := |Spans(s)|;
      ResolveAll(DocState(pre + [Text(Frame(s, n) + After(s, n))], sel), cs, i).segments
      == pre + Resolved(s, cs, i) + [Text(Pending(s, i))]
  {
    var n := |Spans(s)|;
    var st := DocState(pre + [Text(Frame(s, n) + After(s, n))], sel);
    if i == 0 {
      FramePending(s, 0);
      assert Frame(s, 0) + Pending(s, 0) == Pending(s, 0);
      assert pre + Resolved(s, cs, 0) == pre;
    } else {
      ResolveAligned(pre, s, cs, sel, i - 1);
      var prev := ResolveAll(st, cs, i - 1);
      ResolveStepAligned(pre, s, cs, sel, i - 1);
      assert ResolveStep(prev, i - 1, cs[i - 1]).segments
          == ResolveStep(DocState(prev.segments, sel), i - 1, cs[i - 1]).segments;
    }
  }
}
