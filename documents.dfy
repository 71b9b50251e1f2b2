/** Responses in the layout of the example response, prose-only responses and
    cut-off responses, and what the segmenter makes of them. */
module Documents {
  import opened Text
  import opened TagExtract
  import opened Segmenter

  /** A delimiter: `<` first, `>` last, neither anywhere else. */
  predicate IsTag(t: string)
  {
    && |t| >= 2 && t[0] == '<' && t[|t| - 1] == '>'
    && (forall k :: 0 < k < |t| ==> t[k] != '<')
    && (forall k :: 0 <= k < |t| - 1 ==> t[k] != '>')
  }

  /** A tag name that makes `<name>` and `</name>` delimiters. */
  predicate TagName(n: string)
  {
    |n| > 0 && n[0] != '/' && '<' !in n && '>' !in n
  }

  function Delim(n: string, closing: bool): string
  {
    if closing then Close(n) else Open(n)
  }

  lemma TagNameDelims(n: string)
    requires TagName(n)
    ensures IsTag(Open(n)) && IsTag(Close(n))
  {
  }

  /** Two different delimiters never start at the same place: neither is a
      prefix of the other, as each has its only `>` at its end. */
  lemma TagsDistinct(s: string, t: string, p: string, m: int)
    requires IsTag(t) && IsTag(p) && t != p
    requires OccursAt(s, t, m)
    ensures !OccursAt(s, p, m)
  {
    if |p| < |t| {
      assert s[m..m + |p|][|p| - 1] == t[|p| - 1];
    } else if |t| < |p| {
      if m + |p| <= |s| {
        assert s[m..m + |p|][|t| - 1] == t[|t| - 1];
      }
    } else {
      assert s[m..m + |p|] == t;
    }
  }

  lemma DelimsDistinct(s: string, n1: string, c1: bool, n2: string, c2: bool, m: int)
    requires TagName(n1) && TagName(n2) && (n1 != n2 || c1 != c2)
    requires OccursAt(s, Delim(n1, c1), m)
    ensures !OccursAt(s, Delim(n2, c2), m)
  {
    var t, p := Delim(n1, c1), Delim(n2, c2);
    TagNameDelims(n1);
    TagNameDelims(n2);
    if c1 == c2 {
      assert n1 == t[|t| - |n1| - 1..|t| - 1];
      assert n2 == p[|p| - |n2| - 1..|p| - 1];
    } else {
      assert t[1] != p[1];
    }
    TagsDistinct(s, t, p, m);
  }

  /** A delimiter can only start at a `<`. */
  lemma NotAt(s: string, t: string, m: int)
    requires |t| > 0 && t[0] == '<'
    requires 0 <= m < |s| && s[m] != '<'
    ensures !OccursAt(s, t, m)
  {
    if m + |t| <= |s| {
      assert s[m..m + |t|][0] == s[m];
    }
  }

  /** A score span followed by trailing text. */
  function Tail(sn: string, s: string, x: string): string
  {
    Open(sn) + s + Close(sn) + x
  }

  /** A justification span, a score span and trailing text. */
  function Inner(jn: string, sn: string, j: string, s: string, x: string): string
  {
    Open(jn) + j + Close(jn) + Tail(sn, s, x)
  }

  lemma TailFacts(sn: string, s: string, x: string)
    requires TagName(sn) && '<' !in s && '<' !in x
    ensures var S0, S1 := Open(sn), Close(sn);
            var t := Tail(sn, s, x);
            && OccursAt(t, S0, 0) && OccursAt(t, S1, |S0| + |s|)
            && t[|S0|..|S0| + |s|] == s && t[|S0| + |s| + |S1|..] == x
            && (forall m :: 0 <= m < |t| && t[m] == '<' ==> m == 0 || m == |S0| + |s|)
  {
    TagNameDelims(sn);
  }

  lemma InnerFacts(jn: string, sn: string, j: string, s: string, x: string)
    requires TagName(jn) && '<' !in j
    ensures var J0, J1 := Open(jn), Close(jn);
            var inner := Inner(jn, sn, j, s, x);
            var p := |J0| + |j|;
            && OccursAt(inner, J0, 0) && OccursAt(inner, J1, p)
            && inner[|J0|..p] == j && inner[p + |J1|..] == Tail(sn, s, x)
            && (forall m :: 0 <= m < p + |J1| && inner[m] == '<' ==> m == 0 || m == p)
  {
    TagNameDelims(jn);
  }

  /** Where the four delimiters of `Inner` lie. */
  lemma InnerMarks(jn: string, sn: string, j: string, s: string, x: string)
    requires TagName(jn) && TagName(sn) && '<' !in j && '<' !in s && '<' !in x
    ensures var J0, J1, S0, S1 := Open(jn), Close(jn), Open(sn), Close(sn);
            var inner := Inner(jn, sn, j, s, x);
            var p := |J0| + |j|;
            var q := p + |J1|;
            var r := q + |S0| + |s|;
            && OccursAt(inner, J0, 0) && OccursAt(inner, J1, p) && OccursAt(inner, S0, q) && OccursAt(inner, S1, r)
            && inner[q + |S0|..r] == s
            && (forall m :: 0 <= m < |inner| && inner[m] == '<' ==> m == 0 || m == p || m == q || m == r)
  {
    var inner, t := Inner(jn, sn, j, s, x), Tail(sn, s, x);
    var q := |Open(jn)| + |j| + |Close(jn)|;
    InnerFacts(jn, sn, j, s, x);
    TailFacts(sn, s, x);
    assert inner[q..|inner|] == t;
    OccursInSlice(inner, Open(sn), q, |inner|, 0);
    OccursInSlice(inner, Close(sn), q, |inner|, |Open(sn)| + |s|);
    forall m | q <= m < |inner|
      ensures inner[m] == t[m - q]
    {
    }
  }

  lemma TailSpan(sn: string, s: string, x: string)
    requires TagName(sn) && '<' !in s && '<' !in x
    ensures FirstSpan(Tail(sn, s, x), Open(sn), Close(sn), 0, |Open(sn)| + |s|)
  {
    var S0, S1 := Open(sn), Close(sn);
    var t := Tail(sn, s, x);
    var e := |S0| + |s|;
    TailFacts(sn, s, x);
    forall m | |S0| <= m < e
      ensures !OccursAt(t, S1, m)
    {
      NotAt(t, S1, m);
    }
  }

  lemma ScoreInTail(sn: string, s: string, x: string)
    requires TagName(sn) && '<' !in s && '<' !in x
    ensures Extract(Tail(sn, s, x), sn) == Strip(s)
    ensures RemoveSpans(Tail(sn, s, x), Open(sn), Close(sn)) == x
  {
    var S0, S1 := Open(sn), Close(sn);
    var t := Tail(sn, s, x);
    var e := |S0| + |s|;
    TailFacts(sn, s, x);
    TailSpan(sn, s, x);
    ExtractAt(t, sn, 0, e);
    assert t[0 + |S0|..e] == s;
    RemoveSpansAt(t, S0, S1, 0, e);
    assert t[e + |S1|..] == x;
    NoAngleNoSpan(x, S0, S1);
    RemoveSpansUnmatched(x, S0, S1);
    assert t[..0] + x == x;
  }

  lemma JustificationSpan(jn: string, sn: string, j: string, s: string, x: string)
    requires TagName(jn) && '<' !in j
    ensures FirstSpan(Inner(jn, sn, j, s, x), Open(jn), Close(jn), 0, |Open(jn)| + |j|)
  {
    var inner := Inner(jn, sn, j, s, x);
    InnerFacts(jn, sn, j, s, x);
    forall m | |Open(jn)| <= m < |Open(jn)| + |j|
      ensures !OccursAt(inner, Close(jn), m)
    {
      NotAt(inner, Close(jn), m);
    }
  }

  lemma TailUnjustified(jn: string, sn: string, s: string, x: string)
    requires TagName(jn) && TagName(sn) && jn != sn && '<' !in s && '<' !in x
    ensures !HasSpan(Tail(sn, s, x), Open(jn), Close(jn))
  {
    var t := Tail(sn, s, x);
    TailFacts(sn, s, x);
    forall m | OccursAt(t, Open(jn), m)
      ensures false
    {
      assert t[m] == '<';
      DelimsDistinct(t, sn, m != 0, jn, false, m);
    }
  }

  lemma JustificationInInner(jn: string, sn: string, j: string, s: string, x: string)
    requires TagName(jn) && '<' !in j
    ensures Extract(Inner(jn, sn, j, s, x), jn) == Strip(j)
  {
    var inner := Inner(jn, sn, j, s, x);
    var p := |Open(jn)| + |j|;
    assert inner[0 + |Open(jn)|..p] == j;
    JustificationSpan(jn, sn, j, s, x);
    ExtractAt(inner, jn, 0, p);
  }

  lemma JustificationRemoved(jn: string, sn: string, j: string, s: string, x: string)
    requires TagName(jn) && TagName(sn) && jn != sn && '<' !in j && '<' !in s && '<' !in x
    ensures RemoveSpans(Inner(jn, sn, j, s, x), Open(jn), Close(jn)) == Tail(sn, s, x)
  {
    var inner := Inner(jn, sn, j, s, x);
    var p := |Open(jn)| + |j|;
    InnerFacts(jn, sn, j, s, x);
    JustificationSpan(jn, sn, j, s, x);
    var rest := inner[p + |Close(jn)|..];
    RemoveSpansAt(inner, Open(jn), Close(jn), 0, p);
    assert inner[..0] + RemoveSpans(rest, Open(jn), Close(jn)) == RemoveSpans(rest, Open(jn), Close(jn));
    TailUnjustified(jn, sn, s, x);
    RemoveSpansUnmatched(rest, Open(jn), Close(jn));
  }

  lemma ScoreSpan(jn: string, sn: string, j: string, s: string, x: string)
    requires TagName(jn) && TagName(sn) && jn != sn && '<' !in j && '<' !in s && '<' !in x
    ensures var q := |Open(jn)| + |j| + |Close(jn)|;
            FirstSpan(Inner(jn, sn, j, s, x), Open(sn), Close(sn), q, q + |Open(sn)| + |s|)
  {
    var inner := Inner(jn, sn, j, s, x);
    var p := |Open(jn)| + |j|;
    var q := p + |Close(jn)|;
    var r := q + |Open(sn)| + |s|;
    InnerMarks(jn, sn, j, s, x);
    forall i' | 0 <= i' < q
      ensures !OccursAt(inner, Open(sn), i')
    {
      if inner[i'] == '<' {
        DelimsDistinct(inner, jn, i' != 0, sn, false, i');
      }
    }
    forall m | q + |Open(sn)| <= m < r
      ensures !OccursAt(inner, Close(sn), m)
    {
      NotAt(inner, Close(sn), m);
    }
  }

  lemma ScoreInInner(jn: string, sn: string, j: string, s: string, x: string)
    requires TagName(jn) && TagName(sn) && jn != sn && '<' !in j && '<' !in s && '<' !in x
    ensures Extract(Inner(jn, sn, j, s, x), sn) == Strip(s)
  {
    var inner := Inner(jn, sn, j, s, x);
    var q := |Open(jn)| + |j| + |Close(jn)|;
    var r := q + |Open(sn)| + |s|;
    InnerMarks(jn, sn, j, s, x);
    var body := inner[q + |Open(sn)|..r];
    assert body == s;
    ScoreSpan(jn, sn, j, s, x);
    ExtractAt(inner, sn, q, r);
  }

  /** Each `<` in `Inner` starts one of its four delimiters. */
  lemma InnerDelimAt(jn: string, sn: string, j: string, s: string, x: string, k: int) returns (n: string, c: bool)
    requires TagName(jn) && TagName(sn) && '<' !in j && '<' !in s && '<' !in x
    requires 0 <= k < |Inner(jn, sn, j, s, x)| && Inner(jn, sn, j, s, x)[k] == '<'
    ensures n == jn || n == sn
    ensures OccursAt(Inner(jn, sn, j, s, x), Delim(n, c), k)
  {
    var p := |Open(jn)| + |j|;
    var q := p + |Close(jn)|;
    var r := q + |Open(sn)| + |s|;
    InnerMarks(jn, sn, j, s, x);
    n := if k == 0 || k == p then jn else sn;
    c := k == p || k == r;
  }

  /** An occurrence stays one when text is added around it. */
  lemma OccursInContext(pre: string, t: string, post: string, p: string, k: int)
    requires OccursAt(t, p, k)
    ensures OccursAt(pre + t + post, p, |pre| + k)
  {
    var u := pre + t + post;
    forall i | 0 <= i < |p|
      ensures u[|pre| + k + i] == p[i]
    {
      assert t[k..k + |p|][i] == p[i];
    }
    assert u[|pre| + k..|pre| + k + |p|] == p;
  }

  /** No `</an>` starts inside `Inner` once it is wrapped. */
  lemma NoCloseInside(an: string, jn: string, sn: string, j: string, s: string, x: string, m: int)
    requires TagName(an) && TagName(jn) && TagName(sn) && an != jn && an != sn
    requires '<' !in j && '<' !in s && '<' !in x
    requires |Open(an)| <= m < |Open(an)| + |Inner(jn, sn, j, s, x)|
    ensures !OccursAt(Open(an) + Inner(jn, sn, j, s, x) + Close(an), Close(an), m)
  {
    var inner := Inner(jn, sn, j, s, x);
    var doc := Open(an) + inner + Close(an);
    var k := m - |Open(an)|;
    if inner[k] == '<' {
      var n, c := InnerDelimAt(jn, sn, j, s, x, k);
      OccursInContext(Open(an), inner, Close(an), Delim(n, c), k);
      DelimsDistinct(doc, n, c, an, true, m);
    } else {
      assert doc[m] == inner[k];
      NotAt(doc, Close(an), m);
    }
  }

  lemma AnalysisSpan(an: string, jn: string, sn: string, j: string, s: string, x: string)
    requires TagName(an) && TagName(jn) && TagName(sn) && an != jn && an != sn
    requires '<' !in j && '<' !in s && '<' !in x
    ensures var doc := Open(an) + Inner(jn, sn, j, s, x) + Close(an);
            var e := |Open(an)| + |Inner(jn, sn, j, s, x)|;
            && FirstSpan(doc, Open(an), Close(an), 0, e)
            && doc[|Open(an)|..e] == Inner(jn, sn, j, s, x)
  {
    var inner := Inner(jn, sn, j, s, x);
    var doc := Open(an) + inner + Close(an);
    var e := |Open(an)| + |inner|;
    assert doc[|Open(an)|..e] == inner;
    assert OccursAt(doc, Open(an), 0);
    assert OccursAt(doc, Close(an), e);
    forall m | |Open(an)| <= m < e
      ensures !OccursAt(doc, Close(an), m)
    {
      NoCloseInside(an, jn, sn, j, s, x, m);
    }
  }

  /** Where the delimiters of `<an>t</an>` lie. */
  lemma WrapMarks(an: string, t: string)
    requires TagName(an) && '<' !in t
    ensures var doc := Open(an) + t + Close(an);
            && OccursAt(doc, Open(an), 0) && OccursAt(doc, Close(an), |Open(an)| + |t|)
            && doc[|Open(an)|..|Open(an)| + |t|] == t
            && (forall m :: 0 <= m < |doc| && doc[m] == '<' ==> m == 0 || m == |Open(an)| + |t|)
  {
    TagNameDelims(an);
    var doc := Open(an) + t + Close(an);
    assert doc[|Open(an)|..|Open(an)| + |t|] == t;
  }

  lemma ProseSpan(an: string, t: string)
    requires TagName(an) && '<' !in t
    ensures FirstSpan(Open(an) + t + Close(an), Open(an), Close(an), 0, |Open(an)| + |t|)
  {
    var doc := Open(an) + t + Close(an);
    WrapMarks(an, t);
    assert Close(an)[0] == '<';
    forall m | |Open(an)| <= m < |Open(an)| + |t|
      ensures !OccursAt(doc, Close(an), m)
    {
      NotAt(doc, Close(an), m);
    }
  }

  /** `<an>t</an>` holds no span of another tag. */
  lemma ProseOtherAbsent(an: string, n: string, t: string)
    requires TagName(an) && TagName(n) && an != n && '<' !in t
    ensures !HasSpan(Open(an) + t + Close(an), Open(n), Close(n))
  {
    var doc := Open(an) + t + Close(an);
    WrapMarks(an, t);
    forall m | 0 <= m < |doc| && doc[m] == '<'
      ensures !OccursAt(doc, Open(n), m)
    {
      DelimsDistinct(doc, an, m != 0, n, false, m);
    }
  }

  /** After `<an>t`, a fragment shorter than `</n>` cannot complete a span
      of `n`. */
  lemma CutOffAbsent(an: string, n: string, t: string, u: string)
    requires TagName(an) && TagName(n) && '<' !in t && |u| < |Close(n)|
    ensures !HasSpan(Open(an) + t + u, Open(n), Close(n))
  {
    var doc := Open(an) + t + u;
    TagNameDelims(an);
    forall m | 0 <= m < |Open(an)| + |t| && doc[m] == '<'
      ensures !OccursAt(doc, Close(n), m)
    {
      assert m == 0;
      assert OccursAt(doc, Open(an), 0);
      DelimsDistinct(doc, an, false, n, true, m);
    }
    assert Close(n)[0] == '<';
  }

  lemma FormatNames()
    ensures TagName(ANALYSIS_TAG) && TagName(JUSTIFICATION_TAG) && TagName(SCORE_TAG)
    ensures ANALYSIS_TAG != JUSTIFICATION_TAG && ANALYSIS_TAG != SCORE_TAG && JUSTIFICATION_TAG != SCORE_TAG
  {
  }

  /** A response in the layout of the example response: a justification
      span, a score span and closing remarks, all inside an analysis span. */
  function WellFormed(j: string, s: string, x: string): string
  {
    Open(ANALYSIS_TAG) + Inner(JUSTIFICATION_TAG, SCORE_TAG, j, s, x) + Close(ANALYSIS_TAG)
  }

  lemma InnerTrimmed(jn: string, sn: string, j: string, s: string, x: string)
    requires TagName(jn) && '<' !in j
    requires x == [] || !IsSpace(x[|x| - 1])
    ensures Strip(Inner(jn, sn, j, s, x)) == Inner(jn, sn, j, s, x)
  {
    var inner := Inner(jn, sn, j, s, x);
    InnerFacts(jn, sn, j, s, x);
    assert inner[0] == '<';
    assert inner[|inner| - 1] == if x == [] then '>' else x[|x| - 1];
    MarkupNotSpace();
    assert Trimmed(inner);
    StripTrimmed(inner);
  }

  lemma WellFormedBlock(j: string, s: string, x: string)
    requires '<' !in j && '<' !in s && '<' !in x
    requires x == [] || !IsSpace(x[|x| - 1])
    ensures FullAnalysis(WellFormed(j, s, x)) == Inner(JUSTIFICATION_TAG, SCORE_TAG, j, s, x)
  {
    var inner := Inner(JUSTIFICATION_TAG, SCORE_TAG, j, s, x);
    var doc := WellFormed(j, s, x);
    var e := |Open(ANALYSIS_TAG)| + |inner|;
    FormatNames();
    AnalysisSpan(ANALYSIS_TAG, JUSTIFICATION_TAG, SCORE_TAG, j, s, x);
    ExtractAt(doc, ANALYSIS_TAG, 0, e);
    assert doc[0 + |Open(ANALYSIS_TAG)|..e] == inner;
    InnerTrimmed(JUSTIFICATION_TAG, SCORE_TAG, j, s, x);
  }

  lemma WellFormedResidue(j: string, s: string, x: string)
    requires '<' !in j && '<' !in s && '<' !in x
    ensures Residue(Inner(JUSTIFICATION_TAG, SCORE_TAG, j, s, x)) == Strip(x)
  {
    FormatNames();
    JustificationRemoved(JUSTIFICATION_TAG, SCORE_TAG, j, s, x);
    ScoreInTail(SCORE_TAG, s, x);
  }

  lemma ParseWellFormed(j: string, s: string, x: string)
    requires '<' !in j && '<' !in s && '<' !in x
    requires x == [] || !IsSpace(x[|x| - 1])
    ensures Parse(WellFormed(j, s, x)) ==
              if !IsBlank(x) && IsBlank(j) then Segments(Inner(JUSTIFICATION_TAG, SCORE_TAG, j, s, x), "", Strip(s))
              else Segments(Strip(x), Strip(j), Strip(s))
  {
    FormatNames();
    WellFormedBlock(j, s, x);
    JustificationInInner(JUSTIFICATION_TAG, SCORE_TAG, j, s, x);
    ScoreInInner(JUSTIFICATION_TAG, SCORE_TAG, j, s, x);
    WellFormedResidue(j, s, x);
  }

  /** An analysis span holding plain prose. */
  function Wrapped(t: string): string
  {
    Open(ANALYSIS_TAG) + t + Close(ANALYSIS_TAG)
  }

  lemma WrappedBlock(t: string)
    requires '<' !in t
    ensures FullAnalysis(Wrapped(t)) == if IsBlank(t) then Wrapped(t) else Strip(t)
  {
    var doc := Wrapped(t);
    var e := |Open(ANALYSIS_TAG)| + |t|;
    FormatNames();
    ProseSpan(ANALYSIS_TAG, t);
    WrapMarks(ANALYSIS_TAG, t);
    ExtractAt(doc, ANALYSIS_TAG, 0, e);
    assert doc[0 + |Open(ANALYSIS_TAG)|..e] == t;
  }

  lemma WrappedBlank(t: string)
    requires '<' !in t && IsBlank(t)
    ensures Parse(Wrapped(t)) == Segments(Wrapped(t), "", "")
  {
    var doc := Wrapped(t);
    FormatNames();
    WrappedBlock(t);
    ProseOtherAbsent(ANALYSIS_TAG, JUSTIFICATION_TAG, t);
    ProseOtherAbsent(ANALYSIS_TAG, SCORE_TAG, t);
    assert Extract(doc, JUSTIFICATION_TAG) == "";
    assert Extract(doc, SCORE_TAG) == "";
    RemoveSpansUnmatched(doc, Open(JUSTIFICATION_TAG), Close(JUSTIFICATION_TAG));
    RemoveSpansUnmatched(doc, Open(SCORE_TAG), Close(SCORE_TAG));
    assert doc[0] == '<' && doc[|doc| - 1] == '>';
    MarkupNotSpace();
    assert Trimmed(doc);
    StripTrimmed(doc);
    assert Residue(doc) == doc;
  }

  lemma WrappedText(t: string)
    requires '<' !in t && !IsBlank(t)
    ensures Parse(Wrapped(t)) == Segments(Strip(t), "", "")
  {
    var r := Strip(t);
    WrappedBlock(t);
    StripKeepsOut('<', t);
    ParseNoTags(r);
    FullAnalysisUnwrappedText(r);
    ParseByBlock(Wrapped(t), r);
  }

  /** An analysis span holding only prose yields that prose, stripped, as
      the analysis; when the prose is blank the whole response is shown. */
  lemma ParseWrappedProse(t: string)
    requires '<' !in t
    ensures Parse(Wrapped(t)) ==
              if IsBlank(t) then Segments(Wrapped(t), "", "") else Segments(Strip(t), "", "")
  {
    if IsBlank(t) {
      WrappedBlank(t);
    } else {
      WrappedText(t);
    }
  }

  /** A response cut off inside a tag: `<analysis>`, prose, then a fragment
      too short to be a closing delimiter. */
  lemma ParseCutOff(t: string, u: string)
    requires '<' !in t && |u| < |Close(ANALYSIS_TAG)|
    ensures Parse(Open(ANALYSIS_TAG) + t + u) == Segments(Open(ANALYSIS_TAG) + t + u, "", "")
  {
    var doc := Open(ANALYSIS_TAG) + t + u;
    FormatNames();
    CutOffAbsent(ANALYSIS_TAG, ANALYSIS_TAG, t, u);
    CutOffAbsent(ANALYSIS_TAG, JUSTIFICATION_TAG, t, u);
    CutOffAbsent(ANALYSIS_TAG, SCORE_TAG, t, u);
    assert doc[0] == '<';
    ParseUntagged(doc);
  }

  /** The layout round-trips: trimmed sections without `<` come back as
      written, as long as a justification is present or nothing follows the
      score. */
  lemma ParseWellFormedTrimmed(j: string, s: string, x: string)
    requires '<' !in j && '<' !in s && '<' !in x
    requires Trimmed(j) && Trimmed(s) && Trimmed(x)
    requires j != [] || x == []
    ensures Parse(WellFormed(j, s, x)) == Segments(x, j, s)
  {
    StripTrimmed(j);
    StripTrimmed(s);
    StripTrimmed(x);
    ParseWellFormed(j, s, x);
  }

  /** `<analysis><justification>J</justification><matching_score>S</matching_score>Extra text</analysis>` */
  lemma ExampleWellFormed(j: string, s: string, x: string)
    requires j == "J" && s == "S" && x == "Extra text"
    ensures Parse(WellFormed(j, s, x)) == Segments(x, j, s)
  {
    assert '<' !in j && '<' !in s && '<' !in x;
    assert Trimmed(j) && Trimmed(s) && Trimmed(x);
    ParseWellFormedTrimmed(j, s, x);
  }

  /** Trimmed, non-empty prose in an analysis span comes back as written. */
  lemma WrappedTrimmed(t: string)
    requires '<' !in t && Trimmed(t) && t != []
    ensures Parse(Wrapped(t)) == Segments(t, "", "")
  {
    StripTrimmed(t);
    WrappedText(t);
  }

  /** The analysis tag's delimiters, spelt out. */
  lemma AnalysisDelims()
    ensures Open(ANALYSIS_TAG) == "<analysis>" && Close(ANALYSIS_TAG) == "</analysis>"
  {
  }

  /** The prose-only response `<analysis>Only prose, no sub-tags</analysis>`. */
  lemma ExampleProse(t: string)
    requires t == "Only prose, no sub-tags"
    ensures Wrapped(t) == "<analysis>" + t + "</analysis>"
    ensures Parse(Wrapped(t)) == Segments(t, "", "")
  {
    assert '<' !in t && Trimmed(t);
    WrappedTrimmed(t);
    AnalysisDelims();
  }

  lemma ExampleCutOff(doc: string)
    requires doc == "<analysis>Some text<justif"
    ensures Parse(doc) == Segments(doc, "", "")
  {
    var t, u := "Some text", "<justif";
    assert doc == Open(ANALYSIS_TAG) + t + u;
    ParseCutOff(t, u);
  }
}
