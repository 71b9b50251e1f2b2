# Streaming response segmenter of the resume scoring application

The application sends a vacancy and a resume to a language model and streams
back its answer. The answer is expected in a tagged layout:

    <analysis> prose <justification>J</justification>
      <matching_score>S</matching_score> closing remarks </analysis>

The segmenter accepts any text; the worked family in `Documents` is the layout
of the example response, with no prose before or between the two spans.

Every time a fragment arrives, the whole text received so far is segmented
again into three sections: analysis, justification and score. The page then
shows or empties one placeholder per section. This project models that core
and proves what it does.

- `Text` (`text.dfy`) holds the string primitives the segmenter needs: `str.isspace`
  (the exact set of 29 code points Python treats as whitespace), `str.strip()`, and a
  literal substring search (`FindFrom`) with which `TagExtract` models `re.search`.
- `TagExtract` (`extract.dfy`) models `extract_section`. It also models the
  `re.search` / `re.sub` pattern `<tag>.*?</tag>` under `re.DOTALL`:
  - a match is the leftmost opening delimiter that has a closing delimiter after it;
  - the body is non-greedy, so it ends at the first closing delimiter (`FirstSpan`);
  - `FindSpan` computes that match by two substring searches, and is proved to return exactly it;
  - `RemoveSpans` is `re.sub`: it drops every non-overlapping match, left to right.
- `Segmenter` (`segment.dfy`) models `parse_analysis`, branch by branch:
  - the fallback to the whole text when the `<analysis>` pair yields nothing;
  - the two sub-tags;
  - the removal of their spans and the strip;
  - the reconciliation of the two branches at the end.
- `Documents` (`documents.dfy`) computes `parse_analysis` on whole families of responses:
  - the layout with the justification span right after `<analysis>`, the
    score span right after it, then closing remarks;
  - prose-only analysis spans;
  - responses cut off in the middle of a tag.

  It includes three concrete responses:
  `<analysis><justification>J</justification><matching_score>S</matching_score>Extra text</analysis>`,
  `<analysis>Only prose, no sub-tags</analysis>` and the cut-off
  `<analysis>Some text<justif`.
- `HtmlText` (`html_escape.dfy`) models `html_escape`:
  - the five `str.replace` steps in the order `html.escape` performs them,
    then the sixth, which replaces the newline (the table `ESCAPES`);
  - a proof that this is a per-character encoding;
  - an inverse `Unescape`;
  - no raw markup character in the output, and every `&` in it starts an entity.
- `Reducer` (`reducer.dfy`) models `scrollable_stream_output` and the `update_stream` closure:
  - the class `StreamReducer` holds the `stream_content` buffer;
  - `Feed` appends a fragment and returns the three placeholder instructions (`Show(header, body)` or `Clear`);
  - `Drive` and `ScoreStream` are the `for chunk in scoring_stream` loop, which skips chunks whose content is `None`.

The reducer is given its page function when it is made. `ScoreStream` gives it
`Page`, which is `parse_analysis` followed by the rendering. The loop is
therefore proved once for any page function, then instantiated.

The source's `parse_analysis` treats an `<analysis>` pair whose body is only
whitespace like a missing pair. The whole response, tags included, then
becomes the analysis block. `Documents.ParseWrappedProse` states this case as
written.

Strings are sequences of Unicode scalar values (see "## Left out" for the
one difference from Python's `str`).

## Model

| member | source | states |
|---|---|---|
| Text.IsSpace | app.py:89 | `str.isspace`: membership in the 29 code points Python treats as whitespace (tab to carriage return, the four separators 0x1C-0x1F, space, 0x85, 0xA0, 0x1680, 0x2000-0x200A, 0x2028, 0x2029, 0x202F, 0x205F, 0x3000); a definition, whose uses are stated by `Strip` |
| Text.Strip | app.py:89 | `strip()` gives the empty string exactly for all-whitespace text; otherwise the result neither starts nor ends with whitespace, and it is a slice of the input with only whitespace cut from either side |
| Text.StripTrimmed | app.py:109 | the strings `strip()` leaves unchanged are exactly those without whitespace at either end |
| Text.StripKeepsAbsence | app.py:89 | stripping cannot create an occurrence of a substring |
| Text.FindFrom | app.py:86-87 | the search returns the first position at or after the start where the pattern occurs, and no position when it occurs nowhere there |
| TagExtract.Open | app.py:86 | the pattern's opening delimiter `<{tag}>`; a definition, whose occurrences are kept apart from the other delimiters by `Documents.DelimsDistinct` |
| TagExtract.Close | app.py:86 | the pattern's closing delimiter `</{tag}>`; a definition, whose occurrences are kept apart from the other delimiters by `Documents.DelimsDistinct` and kept out of the extracted section by `Extract` |
| TagExtract.FirstSpan | app.py:86-87 | the match of `<tag>(.*?)</tag>` under `re.DOTALL`: the leftmost start at which an opening and a later closing delimiter exist, with the shortest body there; a definition, tied to the search by `FindSpan` and `FindSpanReports` |
| TagExtract.FindSpan | app.py:86-87 | there is no match exactly when the text has no opening delimiter followed by a closing one; otherwise the result is the leftmost, non-greedy match the regular expression reports |
| TagExtract.FirstSpanUnique | app.py:86-87 | the regular expression's match is unique |
| TagExtract.FindSpanReports | app.py:86-87 | the substring search finds exactly the regular expression's match |
| TagExtract.Extract | app.py:85-90 | with no complete pair the result is `""`; it never contains the closing tag and has no whitespace at either end |
| TagExtract.ExtractAt | app.py:88-89 | with a match, the result is the stripped text between the first opening tag and the first closing tag after it |
| TagExtract.ExtractEmptyIff | app.py:85-90 | the result is `""` exactly when there is no pair, or the body of the reported pair is whitespace only |
| TagExtract.BodyLacksClose | app.py:84-89 | the body of the match holds no closing tag |
| TagExtract.RemoveSpans | app.py:105-106 | `re.sub` never lengthens the text, and when there is a match it shortens the text by at least the two delimiters |
| TagExtract.RemoveSpansUnmatched | app.py:105-106 | text without a match is left unchanged |
| TagExtract.RemoveSpansAt | app.py:105-106 | the text before the first match is kept, the match (tags included) is dropped, and substitution resumes after it |
| Segmenter.FullAnalysis | app.py:94-98 | the analysis block: the `<analysis>` section, or the whole content when that is `""`; a definition, whose cases are stated by `FullAnalysisUnwrapped` and `FullAnalysisWrapped` |
| Segmenter.Residue | app.py:105-109 | the block with every justification span, then every score span, removed and the rest stripped; a definition, whose steps are stated by `RemoveSpansAt` and `RemoveSpansUnmatched` |
| Segmenter.Parse | app.py:92-119 | `parse_analysis`: justification and score extracted from the block, analysis the residue, folded back to the whole block when the residue is non-empty and the justification empty; a definition, whose branches are stated by the `Parse*` lemmas below |
| Segmenter.FullAnalysisUnwrapped | app.py:94-98 | without an `<analysis>` pair the whole content is the analysis block |
| Segmenter.FullAnalysisUnwrappedText | app.py:94-98 | text without `<` is its own analysis block |
| Segmenter.FullAnalysisWrapped | app.py:94 | with an `<analysis>` pair whose body is not blank, the block is that body, stripped |
| Segmenter.ParseByBlock | app.py:100-119 | the three sections depend only on the analysis block |
| Segmenter.ParseUntagged | app.py:92-119 | text without a complete pair of any tag is the analysis, unstripped; blank text gives three empty sections |
| Segmenter.ParseNoTags | app.py:92-119 | text with no `<`: `(t, "", "")`, or `("", "", "")` when `t` is blank |
| Segmenter.ParseWithoutJustification | app.py:105-117 | when the justification is empty, the analysis is the block unchanged, score span included, or empty; it is empty exactly when the residue is |
| Segmenter.ParseWithJustification | app.py:105-114 | when the justification is non-empty, the analysis is the block with every justification span and then every score span removed, then stripped, and the block holds a justification pair |
| Segmenter.ParseAnalysisNonEmpty | app.py:109-117 | the analysis is non-empty exactly when non-whitespace text lies outside the removed spans |
| Segmenter.ParseSubsections | app.py:101-102 | the justification and the score are non-empty only if the analysis block holds a complete pair of their tag; neither holds its closing tag, and both are trimmed (no whitespace at either end) |
| Documents.WellFormedBlock | app.py:94 | for a response in the adjacent-span layout whose sections contain no `<` and whose closing remarks do not end in whitespace, the analysis block is everything between the `<analysis>` tags |
| Documents.WellFormedResidue | app.py:105-109 | when the sections contain no `<`, removing the justification and score spans from that block leaves the closing remarks, stripped |
| Documents.ParseWellFormed | app.py:92-119 | for a well-formed response, the sections are the stripped closing remarks, justification and score; when the remarks are not blank but the justification is, the fold-back shows the whole block as analysis |
| Documents.ParseWellFormedTrimmed | app.py:92-119 | trimmed sections without `<` come back exactly as written, provided the justification is non-empty or there are no closing remarks; with an empty justification and non-empty remarks the fold-back shows the whole block instead (`ParseWellFormed`) |
| Documents.ExampleWellFormed | app.py:92-119 | `<analysis><justification>J</justification><matching_score>S</matching_score>Extra text</analysis>` gives `("Extra text", "J", "S")` |
| Documents.ParseWrappedProse | app.py:94-117 | an analysis pair holding prose only gives the prose, stripped; a blank one gives the whole response as analysis |
| Documents.WrappedTrimmed | app.py:94-117 | trimmed, non-empty prose in an analysis pair comes back as written |
| Documents.AnalysisDelims | app.py:86 | the delimiters of the `analysis` tag are `<analysis>` and `</analysis>` |
| Documents.ExampleProse | app.py:94-117 | the response is `"<analysis>" + t + "</analysis>"` with `t` the prose, and `<analysis>Only prose, no sub-tags</analysis>` gives `("Only prose, no sub-tags", "", "")` |
| Documents.ParseCutOff | app.py:94-117 | a response made of `<analysis>`, prose without `<`, and a last fragment shorter than `</analysis>` (cut off inside a tag) is shown whole, as analysis, with no justification and no score; a response cut off after a sub-tag has closed is not covered |
| Documents.ExampleCutOff | app.py:94-117 | `<analysis>Some text<justif` is shown whole, as analysis |
| HtmlText.ReplaceChar | app.py:83 | `s.replace(c, rep)` for a one-character `c`: each `c` replaced, everything else kept in order; a definition, stated by `ReplaceCharRemoves` and `ReplaceCharAppend` |
| HtmlText.ReplaceAll | app.py:83 | a table of `str.replace` calls applied one after the other to the whole text; a definition, stated by `ReplaceAllAppend` and `HtmlEscapeChar` |
| HtmlText.HtmlEscape | app.py:82-83 | `html_escape`: the replacement table `ESCAPES` (`&`, `<`, `>`, `"`, `'`, then the newline) applied in order; a definition, stated by `HtmlEscapeIsEncode` and `HtmlEscapeSafe` |
| HtmlText.ReplaceCharRemoves | app.py:83 | `s.replace(c, rep)` leaves no `c` when `rep` has none |
| HtmlText.ReplaceAllAppend | app.py:83 | the chain of replacements works on each part of a concatenation separately |
| HtmlText.HtmlEscapeChar | app.py:83 | the chain of replacements maps each character to its entity or to itself |
| HtmlText.HtmlEscapeIsEncode | app.py:82-83 | `html_escape` equals the per-character encoding |
| HtmlText.UnescapeEncode | app.py:82-83 | decoding the per-character encoding gives back the text |
| HtmlText.HtmlEscapeSafe | app.py:82-83 | the output holds no raw `<`, `>`, `"`, `'` or newline, every `&` in it starts one of the six entities, and decoding it gives back the input |
| Reducer.Render | app.py:135-160 | the three placeholder instructions for one parse; a definition, stated by `RenderShows` |
| Reducer.Page | app.py:133-160 | `parse_analysis` of the buffer, then `Render`; a definition, stated by `EmptyPage` and used by `ScoreStream` |
| Reducer.Present | app.py:196 | the contents of the chunks whose content is not `None`, in order; a definition, used by `Drive` |
| Reducer.RenderShows | app.py:135-160 | each placeholder shows its section exactly when the section is non-empty, under its own header; a shown body is free of markup characters, every `&` in it starts an entity, and it decodes to the section; the score instruction is exactly `Show("## Matching Score: " + score, "")` |
| Reducer.EmptyPage | app.py:122-128 | the empty buffer parses to three empty sections, and its page empties every placeholder |
| Reducer.Concat | app.py:132 | the buffer after `stream_content += content` for each fragment in turn; a definition, stated by `ConcatAppend` and `ConcatSplit` and kept by `StreamReducer.Feed` |
| Reducer.ConcatAppend | app.py:132 | joining two runs of fragments one after the other is joining the first run and then the second |
| Reducer.ConcatSplit | app.py:132 | a fragment delivered in two pieces gives the same buffer as delivered whole |
| Reducer.StreamReducer.constructor | app.py:128 | the buffer starts empty, with no fragments received |
| Reducer.StreamReducer.Feed | app.py:130-160 | the buffer grows by the fragment and stays the in-order join of all fragments; the page returned is the page for the whole buffer |
| Reducer.Frames | app.py:195-197 | the pages drawn, in order, one per fragment fed, each for the buffer after that fragment; a definition, stated by `FramesAt` and kept by `Drive` |
| Reducer.FramesAt | app.py:195-197 | one page is drawn per fed fragment, and the k-th page is the page for the first k + 1 fragments |
| Reducer.Drive | app.py:195-197 | exactly the chunks with content are fed, in order; the final page is the page for their join, or empty placeholders when none had content; the pages drawn are those of each prefix |
| Reducer.ScoreStream | app.py:193-197 | the final page is `parse_analysis` of everything received, rendered; the k-th page drawn is that of the first k + 1 fragments, however the text was split |

## Left out

- The OpenAI client and the streaming completion call. The stream is a sequence of chunks, each with an optional content.
- The prompts file, JSON loading and `string.Template` substitution.
- `parsers.py`, which does HTTP fetching and HTML scraping with BeautifulSoup. `config.py`, which loads environment variables. Neither is part of this model.
- The Streamlit page. This covers `print_numbered_list`, the session-state callbacks and `scrollable_markdown`. It also covers the `<div>`/`<pre>` wrapper around a section, with its height and styles, the help tooltips, and how markdown is drawn. A placeholder is only told `Show(header, body)` or `Clear`.
- The `stream_container` placeholder. It is created but never written to.
- The analysis header placeholder and its container placeholder are one instruction, because they are always shown or emptied together. The same holds for the justification pair.
- Tag names are matched literally. The three the source uses contain no regular expression metacharacter.
- The model does not claim that no span is left after `re.sub`. Removing a span can join the text around it into a new span, which `re.sub` does not revisit.
- Documents.ParseWellFormed: covers only responses whose `<justification>` directly follows `<analysis>` and whose `<matching_score>` directly follows `</justification>`, with no prose or whitespace before or between the two spans. It also requires sections that contain no `<` and closing remarks that do not end in whitespace. Other layouts are covered by the `Segmenter` lemmas, which hold for all inputs.
- Python's `str` can hold lone surrogate code points (0xD800-0xDFFF); a Dafny `char` cannot, so text containing them is outside the model.
- Reducer.StreamReducer.Feed: states the page through the reducer's page function. That function is `Page` for every reducer `ScoreStream` makes.
