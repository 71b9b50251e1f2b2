/** `html_escape`: Python's `html.escape(text)` (with its default
    `quote=True`) followed by `.replace('\n', '&#10;')`, so that a section can
    be placed inside a `<pre>` element of the page. */
module HtmlText {

  /** `s.replace(c, rep)` for a one-character pattern `c`. */
  function ReplaceChar(s: string, c: char, rep: string): string
  {
    if s == [] then []
    else (if s[0] == c then rep else [s[0]]) + ReplaceChar(s[1..], c, rep)
  }

  /** One single-character `str.replace`. */
  datatype Replacement = Replacement(target: char, text: string)

  /** The replacements of `html_escape`, in order: those of `html.escape`
      (`&` first, so that the ampersands of the entities it writes are not
      escaped again, then `<`, `>`, `"` and `'`), then the newline. */
  const ESCAPES: seq<Replacement> := [
    Replacement('&', "&amp;"), Replacement('<', "&lt;"), Replacement('>', "&gt;"),
    Replacement('"', "&quot;"), Replacement('\'', "&#x27;"), Replacement('\n', "&#10;")
  ]

  /** The replacements applied one after the other, each to the whole
      result of the previous one. */
  function ReplaceAll(s: string, rs: seq<Replacement>): string
    decreases |rs|
  {
    if rs == [] then s else ReplaceAll(ReplaceChar(s, rs[0].target, rs[0].text), rs[1..])
  }

  /** `html_escape(text)`. */
  function HtmlEscape(s: string): string
  {
    ReplaceAll(s, ESCAPES)
  }

  /** The entity that stands for `c`, or `c` itself. */
  function EncodeChar(c: char): string
  {
    match c
    case '&' => "&amp;"
    case '<' => "&lt;"
    case '>' => "&gt;"
    case '"' => "&quot;"
    case '\'' => "&#x27;"
    case '\n' => "&#10;"
    case _ => [c]
  }

  /** A character-by-character reference definition of the same encoding. */
  function Encode(s: string): string
  {
    if s == [] then [] else EncodeChar(s[0]) + Encode(s[1..])
  }

  /** The characters that may never appear raw in the escaped text. */
  predicate IsSpecial(c: char)
  {
    c == '<' || c == '>' || c == '"' || c == '\'' || c == '\n'
  }

  /** One of the six entities the encoding introduces starts at `i`. */
  predicate StartsEntity(r: string, i: int)
  {
    0 <= i <= |r| &&
    var t := r[i..];
    "&amp;" <= t || "&lt;" <= t || "&gt;" <= t || "&quot;" <= t || "&#x27;" <= t || "&#10;" <= t
  }

  /** The inverse of the encoding: each entity decodes to its character. */
  function Unescape(r: string): (s: string)
    ensures |s| <= |r|
  {
    if r == [] then []
    else if r[0] != '&' then [r[0]] + Unescape(r[1..])
    else if "&amp;" <= r then ['&'] + Unescape(r[5..])
    else if "&lt;" <= r then ['<'] + Unescape(r[4..])
    else if "&gt;" <= r then ['>'] + Unescape(r[4..])
    else if "&quot;" <= r then ['"'] + Unescape(r[6..])
    else if "&#x27;" <= r then ['\''] + Unescape(r[6..])
    else if "&#10;" <= r then ['\n'] + Unescape(r[5..])
    else [r[0]] + Unescape(r[1..])
  }

  /** `s.replace(c, rep)` leaves no `c` behind, unless `rep` holds one. */
  lemma {:induction false} ReplaceCharRemoves(s: string, c: char, rep: string)
    requires c !in rep
    ensures c !in ReplaceChar(s, c, rep)
  {
    if s != [] {
      ReplaceCharRemoves(s[1..], c, rep);
    }
  }

  /** `replace` works on each part of a concatenation separately. */
  lemma {:induction false} ReplaceCharAppend(a: string, b: string, c: char, rep: string)
    ensures ReplaceChar(a + b, c, rep) == ReplaceChar(a, c, rep) + ReplaceChar(b, c, rep)
  {
    if a != [] {
      var head := if a[0] == c then rep else [a[0]];
      assert (a + b)[0] == a[0] && (a + b)[1..] == a[1..] + b;
      ReplaceCharAppend(a[1..], b, c, rep);
      calc {
        ReplaceChar(a + b, c, rep);
        head + ReplaceChar(a[1..] + b, c, rep);
        head + (ReplaceChar(a[1..], c, rep) + ReplaceChar(b, c, rep));
        (head + ReplaceChar(a[1..], c, rep)) + ReplaceChar(b, c, rep);
      }
    } else {
      assert a + b == b;
    }
  }

  /** A chain of replacements distributes over concatenation. */
  lemma {:induction false} ReplaceAllAppend(a: string, b: string, rs: seq<Replacement>)
    ensures ReplaceAll(a + b, rs) == ReplaceAll(a, rs) + ReplaceAll(b, rs)
    decreases |rs|
  {
    if rs != [] {
      var c, rep := rs[0].target, rs[0].text;
      ReplaceCharAppend(a, b, c, rep);
      ReplaceAllAppend(ReplaceChar(a, c, rep), ReplaceChar(b, c, rep), rs[1..]);
    }
  }

  /** One replacement applied to a one-character string, or to a string
      that does not hold the replaced character. */
  lemma ReplaceStep(x: string, d: char, rep: string)
    requires |x| == 1 || d !in x
    ensures ReplaceChar(x, d, rep) == if x == [d] then rep else x
  {
    if |x| == 1 {
      assert x[1..] == [];
    }
  }

  /** A string without `c` is left unchanged by replacing `c`. */
  lemma ReplaceCharAbsent(s: string, c: char, rep: string)
    requires c !in s
    ensures ReplaceChar(s, c, rep) == s
  {
  }

  /** No replacement of `rs` has anything to replace in `t`. */
  predicate Untouched(t: string, rs: seq<Replacement>)
  {
    forall k :: 0 <= k < |rs| ==> rs[k].target !in t
  }

  lemma {:induction false} ReplaceAllUntouched(t: string, rs: seq<Replacement>)
    requires Untouched(t, rs)
    ensures ReplaceAll(t, rs) == t
    decreases |rs|
  {
    if rs != [] {
      ReplaceCharAbsent(t, rs[0].target, rs[0].text);
      assert forall k :: 0 <= k < |rs| - 1 ==> rs[1..][k] == rs[k + 1];
      ReplaceAllUntouched(t, rs[1..]);
    }
  }

  /** A character is turned into the text of the first replacement that
      targets it, provided no later replacement rewrites that text. */
  lemma {:induction false} ReplaceAllHit(c: char, rs: seq<Replacement>, k: nat)
    requires k < |rs| && rs[k].target == c
    requires forall i :: 0 <= i < k ==> rs[i].target != c
    requires Untouched(rs[k].text, rs[k + 1..])
    ensures ReplaceAll([c], rs) == rs[k].text
    decreases k
  {
    ReplaceStep([c], rs[0].target, rs[0].text);
    if k == 0 {
      ReplaceAllUntouched(rs[0].text, rs[1..]);
    } else {
      assert forall i :: 0 <= i < |rs| - 1 ==> rs[1..][i] == rs[i + 1];
      assert rs[1..][k - 1 + 1..] == rs[k + 1..];
      ReplaceAllHit(c, rs[1..], k - 1);
    }
  }

  /** The chain of replacements on a single character. */
  lemma HtmlEscapeChar(c: char)
    ensures HtmlEscape([c]) == EncodeChar(c)
  {
    if c == '&' || c == '<' || c == '>' {
      HtmlEscapeMarkup(c);
    } else if c == '"' || c == '\'' || c == '\n' {
      HtmlEscapeQuote(c);
    } else {
      ReplaceAllUntouched([c], ESCAPES);
    }
  }

  /** The characters `html.escape` always escapes. */
  lemma HtmlEscapeMarkup(c: char)
    requires c == '&' || c == '<' || c == '>'
    ensures HtmlEscape([c]) == EncodeChar(c)
  {
    match c
    case '&' => ReplaceAllHit(c, ESCAPES, 0);
    case '<' => ReplaceAllHit(c, ESCAPES, 1);
    case '>' => ReplaceAllHit(c, ESCAPES, 2);
  }

  /** The quotes, escaped because `quote=True`, and the newline. */
  lemma HtmlEscapeQuote(c: char)
    requires c == '"' || c == '\'' || c == '\n'
    ensures HtmlEscape([c]) == EncodeChar(c)
  {
    match c
    case '"' => ReplaceAllHit(c, ESCAPES, 3);
    case '\'' => ReplaceAllHit(c, ESCAPES, 4);
    case '\n' => ReplaceAllHit(c, ESCAPES, 5);
  }

  /** The chain of replacements of `html_escape` is the per-character
      encoding. */
  lemma {:induction false} HtmlEscapeIsEncode(s: string)
    ensures HtmlEscape(s) == Encode(s)
  {
    if s != [] {
      assert s == [s[0]] + s[1..];
      ReplaceAllAppend([s[0]], s[1..], ESCAPES);
      HtmlEscapeChar(s[0]);
      HtmlEscapeIsEncode(s[1..]);
    }
  }

  /** What one character encodes to: no special character, and an `&` only
      at the start of an entity. */
  lemma EncodeCharSafe(c: char, rest: string)
    ensures forall i :: 0 <= i < |EncodeChar(c)| ==> !IsSpecial(EncodeChar(c)[i])
    ensures forall i :: 0 < i < |EncodeChar(c)| ==> EncodeChar(c)[i] != '&'
    ensures EncodeChar(c)[0] == '&' ==> StartsEntity(EncodeChar(c) + rest, 0)
  {
    var t := EncodeChar(c) + rest;
    assert t[0..] == t;
  }

  lemma {:induction false} EncodeNoSpecial(s: string)
    ensures forall i :: 0 <= i < |Encode(s)| ==> !IsSpecial(Encode(s)[i])
  {
    if s != [] {
      EncodeNoSpecial(s[1..]);
      EncodeCharSafe(s[0], []);
      assert Encode(s) == EncodeChar(s[0]) + Encode(s[1..]);
    }
  }

  lemma {:induction false} EncodeEntities(s: string)
    ensures forall i :: 0 <= i < |Encode(s)| && Encode(s)[i] == '&' ==> StartsEntity(Encode(s), i)
  {
    if s != [] {
      EncodeEntities(s[1..]);
      var e, rest := EncodeChar(s[0]), Encode(s[1..]);
      EncodeCharSafe(s[0], rest);
      assert Encode(s) == e + rest;
      forall i | 0 <= i < |e + rest| && (e + rest)[i] == '&'
        ensures StartsEntity(e + rest, i)
      {
        if i >= |e| {
          assert (e + rest)[i..] == rest[i - |e|..];
          assert StartsEntity(rest, i - |e|);
        }
      }
    }
  }

  /** Decoding undoes the encoding of one character. */
  lemma UnescapeEncodeChar(c: char, rest: string)
    ensures Unescape(EncodeChar(c) + rest) == [c] + Unescape(rest)
  {
    var e := EncodeChar(c);
    assert (e + rest)[|e|..] == rest;
    assert forall k :: 0 <= k < |e| ==> (e + rest)[k] == e[k];
    if c == '&' {
      assert "&amp;" <= e + rest;
    } else if c == '<' {
      assert (e + rest)[1] == 'l';
      assert "&lt;" <= e + rest;
    } else if c == '>' {
      assert (e + rest)[1] == 'g';
      assert "&gt;" <= e + rest;
    } else if c == '"' {
      assert (e + rest)[1] == 'q';
      assert "&quot;" <= e + rest;
    } else if c == '\'' {
      assert (e + rest)[1] == '#' && (e + rest)[2] == 'x';
      assert "&#x27;" <= e + rest;
    } else if c == '\n' {
      assert (e + rest)[2] == '1';
      assert "&#10;" <= e + rest;
    } else {
      assert (e + rest)[0] == c;
    }
  }

  /** Decoding the escaped text gives back the original text. */
  lemma {:induction false} UnescapeEncode(s: string)
    ensures Unescape(Encode(s)) == s
  {
    if s != [] {
      UnescapeEncode(s[1..]);
      UnescapeEncodeChar(s[0], Encode(s[1..]));
    }
  }

  /** The properties of `html_escape` itself: its output holds no raw `<`,
      `>`, `"`, `'` or newline, every `&` in it begins an entity, and decoding
      it gives back its input. */
  lemma HtmlEscapeSafe(s: string)
    ensures forall i :: 0 <= i < |HtmlEscape(s)| ==> !IsSpecial(HtmlEscape(s)[i])
    ensures forall i :: 0 <= i < |HtmlEscape(s)| && HtmlEscape(s)[i] == '&' ==>
              StartsEntity(HtmlEscape(s), i)
    ensures Unescape(HtmlEscape(s)) == s
  {
    HtmlEscapeIsEncode(s);
    EncodeNoSpecial(s);
    EncodeEntities(s);
    UnescapeEncode(s);
  }
}
