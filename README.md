# md2doc formula pipeline in Dafny

md2doc is an ONLYOFFICE plugin. It turns Markdown into HTML, pastes the
HTML into the open document, and turns the TeX formulas of the text into
native equations. This project models the formula part of the plugin
script, `scripts/plugin.js`, and proves what it does:

- `extractFormulas` scans a text with the global regular expression
  `/\$\$[\s\S]*?\$\$|\$[^$]+\$/g` and stores the trimmed matches in
  `theFormulas` (module `Extractor`, method `Plugin.FormulaPlugin.ExtractFormulas`);
- `limpiarFormulas` normalises each stored formula. It trims it, drops
  carriage returns, joins lines, turns LaTeX line breaks into spaces,
  strips the `$$`, `$`, `\(`…`\)` and `\[`…`\]` delimiters one after the
  other, squeezes whitespace runs and trims again (module `Normalizer`);
- `insertIntoDocument` renders the preview, extracts the formulas of the
  rendered HTML and replaces the first occurrence of formula `i` by the
  placeholder `{formula<i>}` (module `Placeholders`). It normalises the
  formulas, stops on empty HTML, pastes the HTML, and then, in formula
  order, searches each placeholder in the document, selects and deletes its
  first hit and inserts the equation there (module `Documents`);
- `renderPreview` is modelled only for its effect on the formulas and for
  its return value (module `Plugin`).

Shared string operations live in `Strings`. These are ECMAScript
whitespace, `trim`, `indexOf`, the one-shot string `replace` and the
decimal rendering of an index. `NormalizerExamples` and `PluginExamples`
hold worked examples and the limits of the design.

The document is a sequence of segments, each a text run or an equation
with its LaTeX source, plus a selection. `Documents.Document` is a class
whose fields the editor calls update. `Plugin.FormulaPlugin` holds the
script's mutable `theFormulas`. The scan, the normaliser and the
embedding are functions. The `while`/`exec` loop, the embedding
`forEach` and the resolving `forEach` are methods with loops, each proved
equal to the function that specifies it.

The main result is `Plugin.InsertRoundTrip`. It takes rendered HTML and a
document whose text hold no placeholder text of their own. Inserting then
leaves the old contents, then each stretch of HTML between formulas as
text, each alternating with the normalised formula as an equation, then
the text after the last formula. `PluginExamples.ParagraphExample` works
this out for `<p>a $x^2$ b</p>`.

Two properties a reader might expect of the normaliser that the code does
not have:

- The four delimiter removals are chained `replace` calls, so they all
  apply, one after another. They are not a choice of the first delimiter
  style that matches: `$$\(x\)$$` loses both pairs
  (`NormalizerExamples.NestedExample`).
- Normalising is not idempotent. `$$ $ $x$ $ $$` normalises to `$x$`, and
  that normalises to `x` (`NormalizerExamples.NotIdempotent`). It is a
  fixpoint on clean text without delimiters at its ends
  (`Normalizer.CleanFixpoint`).

## Model

| member | source | states |
|---|---|---|
| Extractor.BlockEndMeaning | scripts/plugin.js:24 | the `$$[\s\S]*?$$` alternative matches at `p` exactly when `$$` opens there and another `$$` follows; it then ends at the earliest closing `$$`, and that is the only block match at `p` |
| Extractor.InlineEndMeaning | scripts/plugin.js:24 | the `$[^$]+$` alternative matches only a dollar, one or more non-dollars and a dollar, and finds every such match at `p` |
| Extractor.MatchAtMeaning | scripts/plugin.js:24 | `MatchAt`: the pattern matches at `p` exactly with a block match, or with an inline match when no block opens there (the block alternative is tried first) |
| Extractor.NextMatchMeaning | scripts/plugin.js:26 | `NextMatch`: `exec` from `lastIndex` returns the match at the leftmost position with one, and none only when no later position matches |
| Extractor.NextMatchFound | scripts/plugin.js:26 | a found match lies after `lastIndex`, is not empty, is a match of the pattern, and nothing matches between `lastIndex` and its start |
| Extractor.NextMatchNone | scripts/plugin.js:26 | when `exec` returns `null`, no position from `lastIndex` on matches |
| Extractor.MatchEndsInside | scripts/plugin.js:24 | a match is at least three characters long and ends inside the text |
| Extractor.SpansShape | scripts/plugin.js:26-28 | every match the global scan collects is a pattern match inside the text, and consecutive matches do not overlap |
| Extractor.SpansDisjoint | scripts/plugin.js:26-28 | any two collected matches are disjoint and in text order |
| Extractor.ScanResumes | scripts/plugin.js:26 | each collected match is what `exec` returns from the end of the previous one, and the scan ends exactly where `exec` finds nothing more |
| Extractor.SkippedBeforeSpan | scripts/plugin.js:26 | no position skipped between two collected matches starts a match |
| Extractor.SkippedAfterLastSpan | scripts/plugin.js:26 | no position after the last collected match starts a match |
| Extractor.NoDollarNoFormulas | scripts/plugin.js:22-28 | a text without a dollar sign has no matches and no formulas |
| Extractor.MatchDelimited | scripts/plugin.js:24 | every match starts and ends with a dollar and is at least three characters long |
| Extractor.FormulaIsSpanText | scripts/plugin.js:26-27 | formula `i` is the matched text of match `i`, delimiters included, and is a block or inline formula |
| Extractor.TrimKeepsFormula | scripts/plugin.js:27 | `trim` leaves a match alone, since it begins and ends with a dollar |
| Extractor.FormulasLength | scripts/plugin.js:26-28 | there are as many formulas as matches |
| Extractor.TextsFromAt | scripts/plugin.js:26-27 | formula `i` of a scan is the text of its match `i` |
| Extractor.NextMatchSkips | scripts/plugin.js:26 | starting `exec` anywhere inside a stretch without matches gives the same next match |
| Extractor.NoMatchWithoutDollar | scripts/plugin.js:24 | no match starts at a character other than a dollar |
| Extractor.ExecStep | scripts/plugin.js:26-27 | one `exec` step contributes exactly the text of its match, and the scan goes on from the match's end |
| Extractor.CollectStep | scripts/plugin.js:26-28 | one round of the loop moves one formula from what is left to collect onto the list, and `lastIndex` strictly advances |
| Extractor.CollectFormulas | scripts/plugin.js:21-31 | the `while (exec)` loop returns exactly `Formulas`, the trimmed matches of the global scan, in order |
| Strings.TrimSlice | scripts/plugin.js:27 | `trim` returns the slice between the leading and trailing whitespace, and the result neither starts nor ends with whitespace |
| Strings.TrimUnchanged | scripts/plugin.js:102 | `trim` leaves a string alone when it neither starts nor ends with whitespace |
| Strings.IndexOf | scripts/plugin.js:129 | `indexOf` from `from` returns the first occurrence at or after `from`, and nothing only when there is none |
| Strings.ReplaceFirst | scripts/plugin.js:129 | `replace` with a string pattern rewrites only its first occurrence, and leaves the text alone when the pattern does not occur |
| Strings.Decimal | scripts/plugin.js:129 | the rendering of an index is a non-empty string of decimal digits |
| Strings.DecimalRoundTrip | scripts/plugin.js:129 | reading back the decimal rendering of `n` gives `n` |
| Strings.DecimalInjective | scripts/plugin.js:129 | different indices are rendered differently |
| Placeholders.PlaceholderShape | scripts/plugin.js:129 | `{formula<i>}` opens with its only `{`, closes with its only `}`, and holds no dollar |
| Placeholders.PlaceholderInjective | scripts/plugin.js:129 | different indices give different placeholders |
| Placeholders.PlaceholderOverlap | scripts/plugin.js:129 | a placeholder occurrence that overlaps another placeholder in a text is that placeholder itself |
| Placeholders.PlaceholderNotNested | scripts/plugin.js:129 | no placeholder occurs inside another one |
| Placeholders.EmbedPlaceholders | scripts/plugin.js:128-130 | the `forEach` loop computes `Embedded`, the embedding of all formulas, round `i` replacing the first occurrence of formula `i` by placeholder `i` |
| Placeholders.SpanText | scripts/plugin.js:26-27 | the text of match `i` is formula `i` |
| Placeholders.FormulaOccurrence | scripts/plugin.js:24 | wherever a formula's text occurs in the HTML, the pattern matches |
| Placeholders.NotInGap | scripts/plugin.js:128-129 | no formula's text occurs starting in the text skipped before a match |
| Placeholders.GapAvoidsFormula | scripts/plugin.js:128-129 | no formula's text occurs inside the text between two matches |
| Placeholders.FormulaPlaceholderFree | scripts/plugin.js:128-129 | on placeholder-free HTML, no formula holds a placeholder |
| Placeholders.FrameAvoidsFormula | scripts/plugin.js:128-129 | after the first rounds, formula `i` does not occur in the part of the HTML already embedded |
| Placeholders.AfterSplits | scripts/plugin.js:26-28 | what follows match `i - 1` is the gap before match `i`, its text, and what follows match `i` |
| Placeholders.GapAvoidsOwnFormula | scripts/plugin.js:128-129 | formula `i` does not occur starting in the gap before match `i` |
| Placeholders.NoEarlierOccurrence | scripts/plugin.js:128-129 | in round `i`, the first occurrence of formula `i` is at match `i` |
| Placeholders.NotAfterFrame | scripts/plugin.js:128-129 | in round `i`, formula `i` does not start inside the gap before its match |
| Placeholders.ReplaceFirstAt | scripts/plugin.js:129 | `replace` rewrites the occurrence that has no earlier one |
| Placeholders.EmbedStep | scripts/plugin.js:128-130 | on placeholder-free HTML, round `i` replaces exactly the text of match `i` by placeholder `i` |
| Placeholders.EmbedAligned | scripts/plugin.js:128-130 | on placeholder-free HTML, after `n` rounds the matches before `n` are placeholders and the rest of the HTML is untouched |
| Placeholders.SourceSplits | scripts/plugin.js:127-130 | the HTML is the text up to match `i` followed by what comes after |
| Placeholders.NoBracePlaceholderFree | scripts/plugin.js:129 | HTML without `{` holds no placeholder |
| Placeholders.BlockTextOpens | scripts/plugin.js:24 | an occurrence of a block formula's text opens a block match |
| Placeholders.InlineTextIsInline | scripts/plugin.js:24 | an occurrence of an inline formula's text is an inline match |
| Normalizer.RemoveCR | scripts/plugin.js:105 | `.replace(/\r/g, '')` leaves no carriage return, adds no character, and keeps a text without one |
| Normalizer.JoinLines | scripts/plugin.js:105 | `.replace(/\s*\n\s*/g, ' ')` leaves no line feed, adds only spaces, and keeps a one-line text |
| Normalizer.BreakEnd | scripts/plugin.js:108 | a LaTeX line break `\\` with its optional `[...]` and `*` ends inside the text, after both backslashes |
| Normalizer.LatexBreaksMeaning | scripts/plugin.js:108 | `LatexBreaks`: after the break replacement no two backslashes are adjacent, only spaces are added, the first character is kept or becomes a space, and a text without `\\` is unchanged |
| Normalizer.LeadEnd | scripts/plugin.js:111-114 | the leading delimiter with its whitespace ends inside the text |
| Normalizer.TailStart | scripts/plugin.js:111-114 | the trailing delimiter with its whitespace starts after the leading one |
| Normalizer.StripSlice | scripts/plugin.js:111-114 | removing a delimiter pair leaves a slice of the text |
| Normalizer.StripKeepsClean | scripts/plugin.js:111-114 | removing a delimiter pair brings back no carriage return, line feed or `\\` |
| Normalizer.StripUnchanged | scripts/plugin.js:111-114 | a trimmed text that neither starts with the opening nor ends with the closing delimiter is left alone |
| Normalizer.UnwrapUnchanged | scripts/plugin.js:111-114 | `Unwrap`: a trimmed text without delimiters at its ends goes through all four removals unchanged |
| Normalizer.Compact | scripts/plugin.js:117 | `.replace(/\s{2,}/g, ' ')` leaves no two adjacent whitespace characters, adds only spaces, keeps the first character's kind, brings back no `\\`, and keeps a text without whitespace runs |
| Normalizer.TrimKeepsClean | scripts/plugin.js:117 | the final `trim` keeps every cleanliness property and trims |
| Normalizer.SliceKeepsClean | scripts/plugin.js:111-117 | a slice keeps each cleanliness property of the text |
| Normalizer.Map | scripts/plugin.js:101-119 | `map` keeps the list's length and order, and element `k` of the result is the function of element `k` |
| Normalizer.CleanFormulaIsClean | scripts/plugin.js:100-121 | `CleanFormula`, the body of the `map`: a normalised formula is one line, without `\\`, without whitespace runs, and trimmed |
| Normalizer.CleanAllIsClean | scripts/plugin.js:101-119 | every formula of the normalised list is clean |
| Normalizer.CleanFixpoint | scripts/plugin.js:101-118 | normalising leaves a clean formula without delimiters at its ends unchanged |
| Normalizer.CleanTwice | scripts/plugin.js:101-118 | normalising twice gives the same as once when the first result has no delimiters at its ends |
| NormalizerExamples.InlineExample | scripts/plugin.js:101-118 | `$x^2$` normalises to `x^2` |
| NormalizerExamples.BlockExample | scripts/plugin.js:101-118 | `$$ a \\ b $$` normalises to `a b` |
| NormalizerExamples.NestedExample | scripts/plugin.js:111-114 | `$$\(x\)$$` normalises to `x`: the removals apply in sequence |
| NormalizerExamples.DollarXExample | scripts/plugin.js:111-114 | `$x$` normalises to `x` |
| NormalizerExamples.NotIdempotent | scripts/plugin.js:101-118 | `$$ $ $x$ $ $$` normalises to `$x$`, which normalises to `x` |
| Documents.FindFromMeaning | scripts/plugin.js:159-162 | `FindFrom`: the first search hit lies inside one text segment, spans the pattern, and has no occurrence before it in document order; no hit means no text segment holds the pattern |
| Documents.Document.constructor | scripts/plugin.js:154 | a document starts with the given contents and no selection |
| Documents.Document.PasteHtml | scripts/plugin.js:144 | the HTML arrives as one text run after the existing contents, and the selection is kept |
| Documents.Document.Search | scripts/plugin.js:159-162 | `matches[0]` is the first hit in document order, a valid range over an occurrence of the pattern |
| Documents.Document.Select | scripts/plugin.js:163 | selecting changes only the selection |
| Documents.Document.Delete | scripts/plugin.js:164 | deleting removes the range's text and leaves the cursor at its start |
| Documents.Document.AddMathEquation | scripts/plugin.js:165 | the equation replaces the selection and the cursor moves past it |
| Documents.DeleteThenInsert | scripts/plugin.js:163-165 | select, delete and insert together replace the placeholder's range by the equation |
| Documents.ResolveStepMeaning | scripts/plugin.js:157-167 | `ResolveStep`: a round leaves the document alone when no text holds the placeholder; otherwise it splits the text segment of the first hit at that hit, keeping the text before and after it, puts the equation between the two halves and keeps every other segment |
| Documents.ResolvePlaceholders | scripts/plugin.js:157-167 | `ResolveAll`: the `forEach` over the formulas with `Search`, `Select`, `Delete` and `AddMathEquation` computes the rounds one formula at a time, in order |
| Documents.ResolvedAt | scripts/plugin.js:157-167 | after `i` rounds the resolved part alternates gap text `j` with equation `j` |
| Documents.ResolvedLength | scripts/plugin.js:157-167 | after `i` rounds the resolved part has two segments per formula |
| Documents.FramePending | scripts/plugin.js:128-130 | the embedded HTML splits into what the first `i` rounds resolve and the placeholders still pending |
| Documents.GapPlaceholderFree | scripts/plugin.js:158-159 | on placeholder-free HTML, no text between formulas holds a placeholder |
| Documents.ResolvedPlaceholderFree | scripts/plugin.js:158-159 | the text runs already resolved hold no placeholder |
| Documents.PendingFirst | scripts/plugin.js:158-159 | in round `i` the pending text starts with gap `i` and then placeholder `i`, its first occurrence |
| Documents.FindInLast | scripts/plugin.js:159-162 | when earlier segments do not hold the pattern, the search hits its first occurrence in the last text run |
| Documents.ResolveStepAligned | scripts/plugin.js:157-167 | on placeholder-free input, round `i` turns placeholder `i` into equation `i` and moves the gap before it into the resolved part |
| Documents.ResolveAligned | scripts/plugin.js:157-167 | on placeholder-free input, after `i` rounds the document is the old contents, the resolved part, and the pending text |
| Plugin.Cleaned | scripts/plugin.js:133 | the normalised list has one formula per match |
| Plugin.FormulaPlugin.constructor | scripts/plugin.js:7 | `theFormulas` starts empty |
| Plugin.FormulaPlugin.ExtractFormulas | scripts/plugin.js:21-31 | the call returns the formulas of its argument and stores them in `theFormulas` |
| Plugin.FormulaPlugin.CleanFormulas | scripts/plugin.js:100-121 | `theFormulas` is replaced by its normalised list |
| Plugin.FormulaPlugin.RenderPreview | scripts/plugin.js:37-67 | on success the HTML is returned and the formulas of the Markdown are stored; on failure the result is empty and `theFormulas` is unchanged |
| Plugin.FormulaPlugin.InsertIntoDocument | scripts/plugin.js:125-169 | `theFormulas` ends as the normalised formulas of the rendered HTML; it inserts exactly when the HTML is not empty; then the document is `InsertResult`, the paste followed by the resolving rounds, and otherwise it is untouched |
| Plugin.ReplaceFirstEmpty | scripts/plugin.js:129 | replacing a formula by a placeholder makes the HTML empty only when it was empty |
| Plugin.EmbeddedEmpty | scripts/plugin.js:128-130 | the embedded HTML is empty exactly when the HTML was |
| Plugin.EmptyPreview | scripts/plugin.js:133-137 | the `if (!html)` check after embedding fires exactly when the rendered HTML is empty |
| Plugin.InsertRoundTrip | scripts/plugin.js:125-167 | on placeholder-free HTML and document, the document ends as its old contents, then each text between formulas alternating with that formula normalised as an equation, then the text after the last formula |
| PluginExamples.SingleSpans | scripts/plugin.js:24-28 | a text with one pair of dollars around a non-empty body has exactly that one match |
| PluginExamples.SingleFormulas | scripts/plugin.js:21-31 | its formula list is that one formula, dollars included |
| PluginExamples.SingleEmbedded | scripts/plugin.js:128-130 | its embedded HTML is the text with `{formula0}` in the formula's place |
| PluginExamples.InsertSingleInline | scripts/plugin.js:125-167 | one inline formula in an empty document ends as the text before, the normalised equation and the text after |
| PluginExamples.PlaceholderTextCaptures | scripts/plugin.js:128-130 | HTML that already starts with `{formula0}` gets its equation at the front, and the placeholder for the real formula stays in the text |
| PluginExamples.ParagraphExample | scripts/plugin.js:125-167 | `<p>a $x^2$ b</p>` gives `["$x^2$"]`, pastes `<p>a {formula0} b</p>`, and ends as `<p>a `, the equation `x^2`, ` b</p>` |

## Left out

- Markdown rendering by markdown-it and the KaTeX plugin are not modelled. The rendered HTML is an input. `None` stands for a missing parser or an exception, which the code turns into the empty string. The `!mdParser` path returns `undefined`, which the `if (!html)` check treats like the empty string.
- The inline CSS pass (`aplicarSoloEstilosDefinidos`), DOCX export (`downloadDocx`), file input, drag and drop, the debounce and the writing of `preview.innerHTML` are not modelled: they do not touch the formulas.
- The branch that downloads the HTML when the ONLYOFFICE API is absent is left out. The model assumes the editor API is present.
- The HTML wrapper `<!DOCTYPE html>…<body>` is left out. `PasteHtml` is modelled as adding the body HTML as one text run after the existing contents, not as the editor's HTML import.
- The `setTimeout` after `PasteHtml` and the separate `callCommand` are modelled as running in sequence after the paste. The race between the two is not modelled.
- The copy through `Asc.scope`, plugin initialisation, `GetSelectedText`, `alert`, console logging and `debugger` are not modelled.
- Documents.Document.Search: modelled by its first hit only, the one the code reads (`matches[0]`).
- `\s` and `trim` use the fixed ECMAScript whitespace set (`Strings.IsSpace`). There is no Unicode property lookup.
- Plugin.InsertRoundTrip: requires HTML and a document with no `{formula<i>}` text of their own, because otherwise the search can hit that text first. `PluginExamples.PlaceholderTextCaptures` shows that case.
- Normalizer.CleanTwice: idempotence holds only when the first result has no delimiters at its ends, because the code is not idempotent in general (`NormalizerExamples.NotIdempotent`).
