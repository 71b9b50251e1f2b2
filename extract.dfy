/** The tag extractor: `re.search` and `re.sub` with the pattern
    `<tag>.*?</tag>` under `re.DOTALL`, for a tag name without regular
    expression metacharacters, modelled as literal substring search. */
module TagExtract {
  import opened Text

  /** The opening delimiter `<tag>` of the pattern. */
  function Open(tag: string): string { "<" + tag + ">" }

  /** The closing delimiter `</tag>` of the pattern. */
  function Close(tag: string): string { "</" + tag + ">" }

  /** The pattern `o.*?c` can match `s[i..j + |c|]`, with `s[i + |o|..j]` the
      text between the delimiters. */
  predicate SpanAt(s: string, o: string, c: string, i: int, j: int)
  {
    0 <= i && i + |o| <= j && OccursAt(s, o, i) && OccursAt(s, c, j)
  }

  /** Some part of `s` matches the pattern. */
  ghost predicate HasSpan(s: string, o: string, c: string)
  {
    exists i, j :: SpanAt(s, o, c, i, j)
  }

  /** The match the regular expression engine reports: the leftmost start
      at which a match exists, and there the shortest (non-greedy) body. */
  ghost predicate FirstSpan(s: string, o: string, c: string, i: int, j: int)
  {
    && SpanAt(s, o, c, i, j)
    && (forall i', j' :: 0 <= i' < i ==> !SpanAt(s, o, c, i', j'))
    && (forall j' :: i + |o| <= j' < j ==> !OccursAt(s, c, j'))
  }

  /** The leftmost, non-greedy match of the pattern, as start of the opening
      delimiter and start of the closing one. If the first opening delimiter
      has no closing one after it, no later opening delimiter has one either. */
  function FindSpan(s: string, o: string, c: string): (r: Option<(nat, nat)>)
    ensures r.None? <==> !HasSpan(s, o, c)
    ensures r.Some? ==> FirstSpan(s, o, c, r.value.0, r.value.1)
  {
    match FindFrom(s, o, 0)
    case None => None
    case Some(i) =>
      match FindFrom(s, c, i + |o|)
      case None => None
      case Some(j) =>
        assert SpanAt(s, o, c, i, j);
        Some((i, j))
  }

  /** The reported match is unique. */
  lemma FirstSpanUnique(s: string, o: string, c: string, i: int, j: int, i2: int, j2: int)
    requires FirstSpan(s, o, c, i, j) && FirstSpan(s, o, c, i2, j2)
    ensures i == i2 && j == j2
  {
    assert !(i < i2) by { assert SpanAt(s, o, c, i, j); }
    assert !(i2 < i) by { assert SpanAt(s, o, c, i2, j2); }
    assert !(j < j2) by { assert OccursAt(s, c, j); }
    assert !(j2 < j) by { assert OccursAt(s, c, j2); }
  }

  /** `FindSpan` reports exactly the regular expression's match. */
  lemma FindSpanReports(s: string, o: string, c: string, i: int, j: int)
    requires FirstSpan(s, o, c, i, j)
    ensures FindSpan(s, o, c) == Some((i as nat, j as nat))
  {
    var r := FindSpan(s, o, c);
    FirstSpanUnique(s, o, c, i, j, r.value.0, r.value.1);
  }

  /** `extract_section(content, tag)`: the stripped text between the first
      `<tag>` and the first `</tag>` after it, or `""` when there is no such
      pair. */
  function Extract(content: string, tag: string): (r: string)
    ensures !HasSpan(content, Open(tag), Close(tag)) ==> r == ""
    ensures !Contains(r, Close(tag))
    ensures Trimmed(r)
  {
    match FindSpan(content, Open(tag), Close(tag))
    case None => ""
    case Some((i, j)) =>
      var body := content[i + |Open(tag)|..j];
      BodyLacksClose(content, Open(tag), Close(tag), i, j);
      StripKeepsAbsence(body, Close(tag));
      Strip(body)
  }

  /** The body of the reported match holds no closing delimiter. */
  lemma BodyLacksClose(s: string, o: string, c: string, i: int, j: int)
    requires |c| > 0
    requires FirstSpan(s, o, c, i, j)
    ensures !Contains(s[i + |o|..j], c)
  {
    var body := s[i + |o|..j];
    if m :| OccursAt(body, c, m) {
      OccursInSlice(s, c, i + |o|, j, m);
      assert false;
    }
  }

  /** Whenever there is a match, one of them is the reported one. */
  lemma FirstSpanExists(s: string, o: string, c: string) returns (i: nat, j: nat)
    requires HasSpan(s, o, c)
    ensures FirstSpan(s, o, c, i, j)
  {
    var r := FindSpan(s, o, c);
    i, j := r.value.0, r.value.1;
  }

  /** When there is a match, `Extract` is the stripped body of the reported
      one. */
  lemma ExtractAt(content: string, tag: string, i: int, j: int)
    requires FirstSpan(content, Open(tag), Close(tag), i, j)
    ensures Extract(content, tag) == Strip(content[i + |Open(tag)|..j])
  {
    FindSpanReports(content, Open(tag), Close(tag), i, j);
  }

  /** `Extract` is empty exactly when there is no match, or the body of the
      reported match is whitespace only. */
  lemma ExtractEmptyIff(content: string, tag: string)
    ensures Extract(content, tag) == "" <==>
              forall i, j :: FirstSpan(content, Open(tag), Close(tag), i, j) ==>
                IsBlank(content[i + |Open(tag)|..j])
  {
    var o, c := Open(tag), Close(tag);
    if HasSpan(content, o, c) {
      var i, j := FirstSpanExists(content, o, c);
      ExtractAt(content, tag, i, j);
      forall i2, j2 | FirstSpan(content, o, c, i2, j2)
        ensures i2 == i && j2 == j
      {
        FirstSpanUnique(content, o, c, i, j, i2, j2);
      }
    } else {
      assert forall i, j :: FirstSpan(content, o, c, i, j) ==> SpanAt(content, o, c, i, j);
    }
  }

  /** `re.sub(o.*?c, '', s, flags=re.DOTALL)`: every non-overlapping match,
      found left to right, removed. */
  function RemoveSpans(s: string, o: string, c: string): (r: string)
    requires |c| > 0
    decreases |s|
    ensures |r| <= |s|
    ensures HasSpan(s, o, c) ==> |r| + |o| + |c| <= |s|
  {
    match FindSpan(s, o, c)
    case None => s
    case Some((i, j)) => s[..i] + RemoveSpans(s[j + |c|..], o, c)
  }

  /** A string the pattern does not match is left unchanged. */
  lemma RemoveSpansUnmatched(s: string, o: string, c: string)
    requires |c| > 0
    requires !HasSpan(s, o, c)
    ensures RemoveSpans(s, o, c) == s
  {
  }

  /** Otherwise the text before the reported match is kept, the match is
      dropped, and the search resumes after it. */
  lemma RemoveSpansAt(s: string, o: string, c: string, i: int, j: int)
    requires |c| > 0
    requires FirstSpan(s, o, c, i, j)
    ensures RemoveSpans(s, o, c) == s[..i] + RemoveSpans(s[j + |c|..], o, c)
  {
    FindSpanReports(s, o, c, i, j);
  }
}
