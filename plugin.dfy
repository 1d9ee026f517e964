/** The plugin's own state and its insertion pipeline: `theFormulas`,
    `extractFormulas`, `limpiarFormulas`, the formula part of `renderPreview`
    and `insertIntoDocument`. */
module Plugin {
  import opened Strings
  import opened Extractor
  import opened Normalizer
  import opened Placeholders
  import opened Documents

  /** What `renderPreview()` returns: the rendered HTML, or the empty string
      when rendering failed. */
  function PreviewHtml(rendered: Option<string>): string {
    if rendered.Some? then rendered.value else []
  }

  /** The HTML `insertIntoDocument` pastes: the rendered HTML with each of its
      formulas replaced by its placeholder. */
  function EmbeddedHtml(rendered: string): string {
    Embedded(rendered, Formulas(rendered), |Formulas(rendered)|)
  }

  /** The normalised formulas of the rendered HTML, one per span. */
  function Cleaned(rendered: string): (cs: seq<string>)
    ensures |cs| == |Spans(rendered)| && cs == CleanAll(Formulas(rendered))
  {
    FormulasLength(rendered);
    CleanAll(Formulas(rendered))
  }

  /** The document after `insertIntoDocument` on rendered HTML that is not
      empty: the embedded HTML is pasted after the existing contents, and
      each placeholder is then resolved into its normalised formula. */
  function InsertResult(st: DocState, rendered: string): DocState {
    var cleaned := CleanAll(Formulas(rendered));
    ResolveAll(DocState(st.segments + [Text(EmbeddedHtml(rendered))], st.selection), cleaned, |cleaned|)
  }

  /** The plugin instance: the module-level `theFormulas` of the script. */
  class FormulaPlugin {
    var theFormulas: seq<string>

    constructor ()
      ensures theFormulas == []
    {
      theFormulas := [];
    }

    /** `extractFormulas(markdownText)`: every call replaces the stored list
        by the formulas of its argument, and returns that list. */
    method ExtractFormulas(markdownText: string) returns (formulas: seq<string>)
      modifies this
      ensures formulas == Formulas(markdownText) && theFormulas == formulas
    {
      formulas := CollectFormulas(markdownText);
      theFormulas := formulas;
    }

    /** `limpiarFormulas()`: the stored list is normalised element by
        element. */
    method CleanFormulas()
      modifies this
      ensures theFormulas == CleanAll(old(theFormulas))
    {
      theFormulas := CleanAll(theFormulas);
    }

    /** The formula part of `renderPreview()`: `rendered` is what markdown-it
        made of `text`, or `None` when markdown-it is missing or throws. On
        success the formulas of the markdown are extracted and the HTML is
        returned; otherwise nothing is extracted and the result is empty. */
    method RenderPreview(text: string, rendered: Option<string>) returns (html: string)
      modifies this
      ensures html == PreviewHtml(rendered)
      ensures rendered.Some? ==> theFormulas == Formulas(text)
      ensures rendered.None? ==> theFormulas == old(theFormulas)
    {
      if rendered.None? {
        return [];
      }
      var _ := ExtractFormulas(text);
      html := rendered.value;
    }

    /** `insertIntoDocument()` in the editor: render, extract the formulas of
        the rendered HTML, embed their placeholders, normalise the stored
        formulas; stop if the HTML is empty; otherwise paste the HTML and
        resolve each placeholder into an equation. */
    method InsertIntoDocument(text: string, rendered: Option<string>, doc: Document) returns (inserted: bool)
      modifies this, doc
      ensures theFormulas == CleanAll(Formulas(PreviewHtml(rendered)))
      ensures inserted == (PreviewHtml(rendered) != [])
      ensures inserted ==> doc.State() == InsertResult(old(doc.State()), PreviewHtml(rendered))
      ensures !inserted ==> doc.State() == old(doc.State())
    {
      var html := RenderPreview(text, rendered);
      var _ := ExtractFormulas(html);
      html := EmbedPlaceholders(html, theFormulas);
      CleanFormulas();
      EmptyPreview(PreviewHtml(rendered));
      if html == [] {
        return false;
      }
      doc.PasteHtml(html);
      ResolvePlaceholders(doc, theFormulas);
      inserted := true;
    }
  }

  /** `replace` of a non-empty pattern by a non-empty replacement keeps a
      non-empty text non-empty, and leaves the empty text empty. */
  lemma ReplaceFirstEmpty(s: string, pat: string, rep: string)
    requires pat != [] && rep != []
    ensures ReplaceFirst(s, pat, rep) == [] <==> s == []
  {
    match IndexOf(s, pat, 0)
    case None =>
    case Some(k) =>
      assert |ReplaceFirst(s, pat, rep)| >= |rep|;
  }

  lemma {:induction false} EmbeddedEmpty(s: string, fs: seq<string>, n: nat)
    requires n <= |fs| && forall k :: 0 <= k < n ==> fs[k] != []
    ensures Embedded(s, fs, n) == [] <==> s == []
  {
    if n > 0 {
      EmbeddedEmpty(s, fs, n - 1);
      PlaceholderShape(n - 1);
      ReplaceFirstEmpty(Embedded(s, fs, n - 1), fs[n - 1], Placeholder(n - 1));
    }
  }

  /** The `if (!html)` check after embedding fires exactly when the
      rendered HTML is empty: formulas are never empty, and a placeholder
      never is. */
  lemma EmptyPreview(rendered: string)
    ensures EmbeddedHtml(rendered) == [] <==> rendered == []
  {
    FormulasLength(rendered);
    forall k | 0 <= k < |Formulas(rendered)| ensures Formulas(rendered)[k] != [] {
      FormulaIsSpanText(rendered, k);
    }
    EmbeddedEmpty(rendered, Formulas(rendered), |Formulas(rendered)|);
  }

  /** The round trip of `insertIntoDocument`: on rendered HTML that holds no
      placeholder text of its own, pasted into a document whose text holds
      none either, the document ends with the text before the first formula,
      the first normalised formula as an equation, the text up to the second
      formula, and so on, and the text after the last formula. */
  lemma InsertRoundTrip(st: DocState, rendered: string)
    requires PlaceholderFree(rendered, |Spans(rendered)|)
    requires TextsPlaceholderFree(st.segments, |Spans(rendered)|)
    ensures var n := |Spans(rendered)|;
      InsertResult(st, rendered).segments
      == st.segments + Resolved(rendered, Cleaned(rendered), n) + [Text(After(rendered, n))]
  {
    var n := |Spans(rendered)|;
    EmbedAligned(rendered, n);
    ResolveAligned(st.segments, rendered, Cleaned(rendered), st.selection, n);
  }
}
