/** The streaming display, `scrollable_stream_output` and its `update_stream`
    closure (app.py): the text received so far is kept in a buffer, and after
    every fragment the whole buffer is parsed again and each of the three
    placeholders of the page is either filled or emptied. */
module Reducer {
  import opened Text
  import opened TagExtract
  import opened Segmenter
  import opened HtmlText

  /** What one placeholder is told: show a header and an (escaped) body, or
      become empty. */
  datatype Instruction = Show(header: string, body: string) | Clear

  /** The instructions for the analysis, justification and score
      placeholders. */
  datatype Display = Display(analysis: Instruction, justification: Instruction, score: Instruction)

  const ANALYSIS_HEADER := "## Analysis"
  const JUSTIFICATION_HEADER := "## Justification"
  const SCORE_HEADER := "## Matching Score: "

  /** The page for one parse: a non-empty section is shown, escaped, under
      its header; the score is shown in its header line; an empty section
      empties its placeholder. */
  function Render(p: Segments): Display
  {
    Display(
      if p.analysis != "" then Show(ANALYSIS_HEADER, HtmlEscape(p.analysis)) else Clear,
      if p.justification != "" then Show(JUSTIFICATION_HEADER, HtmlEscape(p.justification)) else Clear,
      if p.score != "" then Show(SCORE_HEADER + p.score, "") else Clear)
  }

  /** What each placeholder shows: a section appears exactly when it is
      non-empty, its body is markup-free, every `&` in it starts an entity, it
      decodes back to the section, and the score line carries the score
      verbatim. */
  lemma RenderShows(p: Segments)
    ensures Render(p).analysis.Show? <==> p.analysis != ""
    ensures Render(p).justification.Show? <==> p.justification != ""
    ensures Render(p).score.Show? <==> p.score != ""
    ensures Render(p).analysis.Show? ==>
              Render(p).analysis.header == ANALYSIS_HEADER && Unescape(Render(p).analysis.body) == p.analysis
    ensures Render(p).justification.Show? ==>
              Render(p).justification.header == JUSTIFICATION_HEADER &&
              Unescape(Render(p).justification.body) == p.justification
    ensures Render(p).score.Show? ==> Render(p).score == Show(SCORE_HEADER + p.score, "")
    ensures Render(p).analysis.Show? ==>
              forall i :: 0 <= i < |Render(p).analysis.body| ==> !IsSpecial(Render(p).analysis.body[i])
    ensures Render(p).justification.Show? ==>
              forall i :: 0 <= i < |Render(p).justification.body| ==> !IsSpecial(Render(p).justification.body[i])
    ensures Render(p).analysis.Show? ==>
              forall i :: 0 <= i < |Render(p).analysis.body| && Render(p).analysis.body[i] == '&' ==>
                StartsEntity(Render(p).analysis.body, i)
    ensures Render(p).justification.Show? ==>
              forall i :: 0 <= i < |Render(p).justification.body| && Render(p).justification.body[i] == '&' ==>
                StartsEntity(Render(p).justification.body, i)
  {
    HtmlEscapeSafe(p.analysis);
    HtmlEscapeSafe(p.justification);
  }

  /** The empty buffer parses to nothing, so the page before the first
      fragment (every placeholder empty) is the page for the empty buffer. */
  lemma EmptyPage()
    ensures Parse("") == Segments("", "", "")
    ensures Page("") == Display(Clear, Clear, Clear)
  {
    var e: string := "";
    assert FindFrom(e, Open(ANALYSIS_TAG), 0).None?;
    assert FindFrom(e, Open(JUSTIFICATION_TAG), 0).None?;
    assert FindFrom(e, Open(SCORE_TAG), 0).None?;
  }

  /** The fragments joined in order: `stream_content += content`, repeated. */
  function Concat(fragments: seq<string>): string
  {
    if fragments == [] then "" else Concat(fragments[..|fragments| - 1]) + fragments[|fragments| - 1]
  }

  /** Joining distributes over splitting the list of fragments. */
  lemma {:induction false} ConcatAppend(a: seq<string>, b: seq<string>)
    ensures Concat(a + b) == Concat(a) + Concat(b)
    decreases |b|
  {
    if b == [] {
      assert a + b == a;
    } else {
      var b', last := b[..|b| - 1], b[|b| - 1];
      assert (a + b)[..|a + b| - 1] == a + b';
      assert (a + b)[|a + b| - 1] == last;
      ConcatAppend(a, b');
      calc {
        Concat(a + b);
        Concat(a + b') + last;
        (Concat(a) + Concat(b')) + last;
        Concat(a) + (Concat(b') + last);
      }
    }
  }

  /** How the text was cut into fragments does not matter: a fragment
      delivered in two pieces gives the same buffer as delivered whole. */
  lemma ConcatSplit(before: seq<string>, x: string, y: string, after: seq<string>)
    ensures Concat(before + [x, y] + after) == Concat(before + [x + y] + after)
  {
    ConcatAppend(before + [x, y], after);
    ConcatAppend(before + [x + y], after);
    assert (before + [x, y])[..|before| + 1] == before + [x];
    assert (before + [x])[..|before|] == before;
    assert (before + [x + y])[..|before|] == before;
  }

  /** The contents of the chunks that carry any: a chunk whose content is
      `None` is skipped. */
  function Present(chunks: seq<Option<string>>): seq<string>
  {
    if chunks == [] then []
    else Present(chunks[..|chunks| - 1]) + (if chunks[|chunks| - 1].Some? then [chunks[|chunks| - 1].value] else [])
  }

  /** The page `update_stream` draws for a buffer: it parses the whole
      buffer and renders the three sections. */
  function Page(buffer: string): Display
  {
    Render(Parse(buffer))
  }

  /** `scrollable_stream_output()` and the `update_stream` closure it
      returns: the buffer and the page drawn for it. The page function is
      fixed when the reducer is made (`ScoreStream` gives it `Page`). */
  class StreamReducer {
    /** How a buffer is drawn. */
    const page: string -> Display
    /** `stream_content`. */
    var buffer: string
    /** The fragments received so far. */
    ghost var fragments: seq<string>

    ghost predicate Valid()
      reads this
    {
      buffer == Concat(fragments)
    }

    /** `stream_content = ""`. */
    constructor(page: string -> Display)
      ensures Valid()
      ensures this.page == page
      ensures buffer == "" && fragments == []
    {
      this.page := page;
      buffer := "";
      fragments := [];
    }

    /** `update_stream(content)`: appends the fragment to the buffer and
        draws the page for the whole buffer. */
    method Feed(fragment: string) returns (d: Display)
      requires Valid()
      modifies this
      ensures Valid()
      ensures fragments == old(fragments) + [fragment]
      ensures buffer == old(buffer) + fragment
      ensures d == page(buffer)
    {
      buffer := buffer + fragment;
      fragments := fragments + [fragment];
      assert fragments[..|fragments| - 1] == old(fragments);
      d := page(buffer);
    }
  }

  /** The page after each fragment, in order. */
  function Frames(page: string -> Display, fragments: seq<string>): seq<Display>
  {
    if fragments == [] then []
    else Frames(page, fragments[..|fragments| - 1]) + [page(Concat(fragments))]
  }

  /** There is one page per fragment, and the `k`-th is the page for the
      first `k + 1` fragments. */
  lemma {:induction false} FramesAt(page: string -> Display, fragments: seq<string>, k: int)
    requires 0 <= k < |fragments|
    ensures |Frames(page, fragments)| == |fragments|
    ensures Frames(page, fragments)[k] == page(Concat(fragments[..k + 1]))
    decreases |fragments|
  {
    var init := fragments[..|fragments| - 1];
    if k == |fragments| - 1 {
      assert fragments[..k + 1] == fragments;
      if init != [] {
        FramesAt(page, init, 0);
      }
    } else {
      FramesAt(page, init, k);
      assert init[..k + 1] == fragments[..k + 1];
    }
  }

  /** The body of the scoring loop, `for chunk in scoring_stream`: every chunk
      with content is fed to the reducer, the others are skipped. `d` is the
      page shown at the end (every placeholder empty when no chunk had
      content) and `frames` the pages drawn, one per fed chunk. */
  method Drive(reducer: StreamReducer, chunks: seq<Option<string>>) returns (d: Display, frames: seq<Display>)
    requires reducer.Valid() && reducer.fragments == []
    modifies reducer
    ensures reducer.Valid()
    ensures reducer.fragments == Present(chunks)
    ensures d == if Present(chunks) == [] then Display(Clear, Clear, Clear) else reducer.page(reducer.buffer)
    ensures frames == Frames(reducer.page, Present(chunks))
  {
    d := Display(Clear, Clear, Clear);
    frames := [];
    var i := 0;
    while i < |chunks|
      invariant 0 <= i <= |chunks|
      invariant reducer.Valid()
      invariant reducer.fragments == Present(chunks[..i])
      invariant d == if reducer.fragments == [] then Display(Clear, Clear, Clear) else reducer.page(reducer.buffer)
      invariant frames == Frames(reducer.page, reducer.fragments)
    {
      assert chunks[..i + 1][..i] == chunks[..i];
      if chunks[i].Some? {
        d := reducer.Feed(chunks[i].value);
        assert reducer.fragments[..|reducer.fragments| - 1] == Present(chunks[..i]);
        frames := frames + [d];
      }
      i := i + 1;
    }
    assert chunks[..i] == chunks;
  }

  /** The "Check match" handler: a fresh reducer drawing `Page`, driven by
      the whole stream. The final page is the page for everything received,
      and the `k`-th page drawn is the page for the first `k + 1` fragments. */
  method ScoreStream(chunks: seq<Option<string>>) returns (d: Display, frames: seq<Display>)
    ensures d == Page(Concat(Present(chunks)))
    ensures |frames| == |Present(chunks)|
    ensures forall k :: 0 <= k < |frames| ==> frames[k] == Page(Concat(Present(chunks)[..k + 1]))
  {
    var reducer := new StreamReducer(Page);
    d, frames := Drive(reducer, chunks);
    EmptyPage();
    ghost var fragments := Present(chunks);
    if fragments != [] {
      FramesAt(Page, fragments, 0);
    }
    forall k | 0 <= k < |frames|
      ensures frames[k] == Page(Concat(fragments[..k + 1]))
    {
      FramesAt(Page, fragments, k);
    }
  }
}
