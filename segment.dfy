/** The response segmenter, `parse_analysis` (app.py): splits the model's
    output, complete or partial, into analysis, justification and score. */
module Segmenter {
  import opened Text
  import opened TagExtract

  const ANALYSIS_TAG := "analysis"
  const JUSTIFICATION_TAG := "justification"
  const SCORE_TAG := "matching_score"

  datatype Segments = Segments(analysis: string, justification: string, score: string)

  /** The content of the first `<analysis>` pair, or the whole text when
      that yields nothing (the model has not written the wrapper, or not yet
      closed it). */
  function FullAnalysis(content: string): string
  {
    var inner := Extract(content, ANALYSIS_TAG);
    if inner == "" then content else inner
  }

  /** The analysis block with every justification span, then every score
      span, removed (tags included), and stripped. */
  function Residue(full: string): string
  {
    var withoutJustification := RemoveSpans(full, Open(JUSTIFICATION_TAG), Close(JUSTIFICATION_TAG));
    var withoutScore := RemoveSpans(withoutJustification, Open(SCORE_TAG), Close(SCORE_TAG));
    Strip(withoutScore)
  }

  /** `parse_analysis(content)`. */
  function Parse(content: string): Segments
  {
    var full := FullAnalysis(content);
    var justification := Extract(full, JUSTIFICATION_TAG);
    var score := Extract(full, SCORE_TAG);
    var analysis := Residue(full);
    if analysis == "" && justification != "" then
      Segments(analysis, justification, score)
    else if analysis != "" && justification == "" then
      Segments(full, justification, score)
    else
      Segments(analysis, justification, score)
  }

  /** With no `<analysis>` pair, the whole text is the analysis block. */
  lemma FullAnalysisUnwrapped(content: string)
    requires !HasSpan(content, Open(ANALYSIS_TAG), Close(ANALYSIS_TAG))
    ensures FullAnalysis(content) == content
  {
  }

  /** Text without an `<analysis>` pair and without `<` is its own block. */
  lemma FullAnalysisUnwrappedText(t: string)
    requires '<' !in t
    ensures FullAnalysis(t) == t
  {
    NoAngleNoSpan(t, Open(ANALYSIS_TAG), Close(ANALYSIS_TAG));
  }

  /** Everything `Parse` reports is computed from the analysis block. */
  lemma ParseByBlock(a: string, b: string)
    requires FullAnalysis(a) == FullAnalysis(b)
    ensures Parse(a) == Parse(b)
  {
  }

  /** With an `<analysis>` pair whose body is not blank, the analysis block
      is that body, stripped. */
  lemma FullAnalysisWrapped(content: string, i: int, j: int)
    requires FirstSpan(content, Open(ANALYSIS_TAG), Close(ANALYSIS_TAG), i, j)
    requires !IsBlank(content[i + |Open(ANALYSIS_TAG)|..j])
    ensures FullAnalysis(content) == Strip(content[i + |Open(ANALYSIS_TAG)|..j])
  {
    ExtractAt(content, ANALYSIS_TAG, i, j);
  }

  /** Text with no complete pair of any of the three tags: when it is not
      blank it is the analysis, unstripped; when it is blank every section is
      empty. */
  lemma ParseUntagged(t: string)
    requires !HasSpan(t, Open(ANALYSIS_TAG), Close(ANALYSIS_TAG))
    requires !HasSpan(t, Open(JUSTIFICATION_TAG), Close(JUSTIFICATION_TAG))
    requires !HasSpan(t, Open(SCORE_TAG), Close(SCORE_TAG))
    ensures Parse(t) == Segments(if IsBlank(t) then "" else t, "", "")
  {
    RemoveSpansUnmatched(t, Open(JUSTIFICATION_TAG), Close(JUSTIFICATION_TAG));
    RemoveSpansUnmatched(t, Open(SCORE_TAG), Close(SCORE_TAG));
  }

  /** A tag needs a `<` to start it. */
  lemma NoAngleNoSpan(t: string, o: string, c: string)
    requires '<' !in t
    requires |o| > 0 && o[0] == '<'
    ensures !HasSpan(t, o, c)
  {
  }

  /** Text without any `<` at all (and so without tags). */
  lemma ParseNoTags(t: string)
    requires '<' !in t
    ensures Parse(t) == Segments(if IsBlank(t) then "" else t, "", "")
  {
    NoAngleNoSpan(t, Open(ANALYSIS_TAG), Close(ANALYSIS_TAG));
    NoAngleNoSpan(t, Open(JUSTIFICATION_TAG), Close(JUSTIFICATION_TAG));
    NoAngleNoSpan(t, Open(SCORE_TAG), Close(SCORE_TAG));
    ParseUntagged(t);
  }

  /** Without a justification nothing is taken out of the analysis block:
      the analysis is the block unchanged (score span included), or empty
      when only whitespace lies outside the spans. */
  lemma ParseWithoutJustification(t: string)
    requires Parse(t).justification == ""
    ensures Parse(t).analysis == FullAnalysis(t) || Parse(t).analysis == ""
    ensures Parse(t).analysis == "" <==> Residue(FullAnalysis(t)) == ""
  {
    var full := FullAnalysis(t);
    if Residue(full) != "" {
      NonEmptyResidueBlock(full);
    }
  }

  /** A non-empty residue means the block it came from is non-empty. */
  lemma NonEmptyResidueBlock(full: string)
    requires Residue(full) != ""
    ensures full != ""
  {
    var j := RemoveSpans(full, Open(JUSTIFICATION_TAG), Close(JUSTIFICATION_TAG));
    var s := RemoveSpans(j, Open(SCORE_TAG), Close(SCORE_TAG));
    assert Strip(s) != "";
    assert s != "";
  }

  /** With a justification, the analysis is the block with every
      justification span and every score span removed, then stripped. */
  lemma ParseWithJustification(t: string)
    requires Parse(t).justification != ""
    ensures Parse(t).analysis == Residue(FullAnalysis(t))
    ensures HasSpan(FullAnalysis(t), Open(JUSTIFICATION_TAG), Close(JUSTIFICATION_TAG))
  {
  }

  /** The analysis is shown exactly when some non-whitespace text lies
      outside the justification and score spans. */
  lemma ParseAnalysisNonEmpty(t: string)
    ensures Parse(t).analysis != "" <==> Residue(FullAnalysis(t)) != ""
  {
    if Residue(FullAnalysis(t)) != "" {
      NonEmptyResidueBlock(FullAnalysis(t));
    }
  }

  /** Justification and score come only from complete pairs inside the
      analysis block; each is stripped and holds no closing tag of its own.
      An opened but unclosed sub-tag yields nothing. */
  lemma ParseSubsections(t: string)
    ensures Parse(t).justification != "" ==>
              HasSpan(FullAnalysis(t), Open(JUSTIFICATION_TAG), Close(JUSTIFICATION_TAG))
    ensures Parse(t).score != "" ==> HasSpan(FullAnalysis(t), Open(SCORE_TAG), Close(SCORE_TAG))
    ensures !Contains(Parse(t).justification, Close(JUSTIFICATION_TAG))
    ensures !Contains(Parse(t).score, Close(SCORE_TAG))
    ensures Trimmed(Parse(t).justification) && Trimmed(Parse(t).score)
  {
  }
}
