/** Python string primitives the segmenter relies on: `str.isspace`, `str.strip`
    and searching for a literal substring. */
module Text {

  datatype Option<+T> = None | Some(value: T)

  /** The characters for which Python's `str.isspace` holds, and which
      `str.strip()` without arguments removes. */
  const WHITESPACE: set<char> := {
    '\t', '\n', '\U{0B}', '\U{0C}', '\r', '\U{1C}', '\U{1D}', '\U{1E}', '\U{1F}', ' ',
    '\U{85}', '\U{A0}', '\U{1680}',
    '\U{2000}', '\U{2001}', '\U{2002}', '\U{2003}', '\U{2004}', '\U{2005}',
    '\U{2006}', '\U{2007}', '\U{2008}', '\U{2009}', '\U{200A}',
    '\U{2028}', '\U{2029}', '\U{202F}', '\U{205F}', '\U{3000}'
  }

  predicate IsSpace(c: char)
  {
    c in WHITESPACE
  }

  /** Every character of `s` is whitespace (true of the empty string). */
  predicate IsBlank(s: string)
  {
    forall k :: 0 <= k < |s| ==> IsSpace(s[k])
  }

  /** The number of whitespace characters `s` starts with. */
  function LeadingSpaces(s: string): (n: nat)
    ensures n <= |s|
    ensures forall k :: 0 <= k < n ==> IsSpace(s[k])
    ensures n < |s| ==> !IsSpace(s[n])
  {
    if |s| > 0 && IsSpace(s[0]) then 1 + LeadingSpaces(s[1..]) else 0
  }

  /** The length of `s` once its trailing whitespace is dropped. */
  function TrailingEnd(s: string): (n: nat)
    ensures n <= |s|
    ensures forall k :: n <= k < |s| ==> IsSpace(s[k])
    ensures n > 0 ==> !IsSpace(s[n - 1])
  {
    if |s| > 0 && IsSpace(s[|s| - 1]) then TrailingEnd(s[..|s| - 1]) else |s|
  }

  /** Python's `s.strip()`: the slice of `s` left once leading and trailing
      whitespace is removed. */
  function Strip(s: string): (r: string)
    ensures r == [] <==> IsBlank(s)
    ensures Trimmed(r)
    ensures exists a :: 0 <= a <= |s| - |r| && r == s[a..a + |r|]
                        && IsBlank(s[..a]) && IsBlank(s[a + |r|..])
  {
    var a := LeadingSpaces(s);
    var b := a + TrailingEnd(s[a..]);
    StripBounds(s, a, b);
    s[a..b]
  }

  /** The slice `Strip` keeps has whitespace only around it and none at
      its ends. */
  lemma StripBounds(s: string, a: nat, b: nat)
    requires a == LeadingSpaces(s) && b == a + TrailingEnd(s[a..])
    ensures 0 <= a <= b <= |s|
    ensures s[a..b] == [] <==> IsBlank(s)
    ensures s[a..b] != [] ==> !IsSpace(s[a..b][0]) && !IsSpace(s[a..b][|s[a..b]| - 1])
    ensures IsBlank(s[..a]) && IsBlank(s[b..])
  {
    assert IsBlank(s[..a]) && IsBlank(s[b..]);
    assert a < |s| ==> b > a;
  }

  /** `p` occurs in `s` starting at index `i`. */
  predicate OccursAt(s: string, p: string, i: int)
  {
    0 <= i && i + |p| <= |s| && s[i..i + |p|] == p
  }

  /** `p` occurs somewhere in `s`. */
  ghost predicate Contains(s: string, p: string)
  {
    exists m :: OccursAt(s, p, m)
  }

  /** Python's `s.find(p, k)`: the first position at or after `k` where `p`
      occurs, or `None`. */
  function FindFrom(s: string, p: string, k: nat): (r: Option<nat>)
    decreases |s| - k
    ensures r.Some? ==> k <= r.value && OccursAt(s, p, r.value)
    ensures r.Some? ==> forall m :: k <= m < r.value ==> !OccursAt(s, p, m)
    ensures r.None? ==> forall m :: k <= m ==> !OccursAt(s, p, m)
  {
    if k + |p| > |s| then None
    else if s[k..k + |p|] == p then Some(k)
    else FindFrom(s, p, k + 1)
  }

  /** An occurrence inside a slice is an occurrence in the whole string. */
  lemma OccursInSlice(s: string, p: string, a: int, b: int, m: int)
    requires 0 <= a <= b <= |s|
    requires OccursAt(s[a..b], p, m)
    ensures OccursAt(s, p, a + m)
  {
    forall k | 0 <= k < |p|
      ensures s[a + m..a + m + |p|][k] == p[k]
    {
      assert s[a..b][m..m + |p|][k] == p[k];
    }
  }

  /** A slice holds no occurrence the whole string does not hold. */
  lemma SliceKeepsAbsence(s: string, p: string, a: int, b: int)
    requires 0 <= a <= b <= |s|
    requires !Contains(s, p)
    ensures !Contains(s[a..b], p)
  {
    forall m | 0 <= m
      ensures !OccursAt(s[a..b], p, m)
    {
      assert !OccursAt(s, p, a + m);
      if OccursAt(s[a..b], p, m) {
        OccursInSlice(s, p, a, b, m);
      }
    }
  }

  /** Stripping cannot create an occurrence of `p`. */
  lemma StripKeepsAbsence(s: string, p: string)
    requires !Contains(s, p)
    ensures !Contains(Strip(s), p)
  {
    var a := LeadingSpaces(s);
    var b := a + TrailingEnd(s[a..]);
    assert Strip(s) == s[a..b];
    SliceKeepsAbsence(s, p, a, b);
  }

  /** No whitespace at either end. */
  predicate Trimmed(t: string)
  {
    t == [] || (!IsSpace(t[0]) && !IsSpace(t[|t| - 1]))
  }

  /** The strings `strip` leaves unchanged are exactly the trimmed ones. */
  lemma StripTrimmed(t: string)
    ensures Strip(t) == t <==> Trimmed(t)
  {
  }

  /** The delimiters of markup are not whitespace. */
  lemma MarkupNotSpace()
    ensures !IsSpace('<') && !IsSpace('>')
  {
  }

  /** Stripping cannot introduce a character. */
  lemma StripKeepsOut(c: char, t: string)
    requires c !in t
    ensures c !in Strip(t)
  {
    forall m | 0 <= m < |t|
      ensures !OccursAt(t, [c], m)
    {
      assert t[m..m + 1] == [t[m]];
    }
    StripKeepsAbsence(t, [c]);
    var r := Strip(t);
    forall k | 0 <= k < |r|
      ensures r[k] != c
    {
      assert r[k..k + 1] == [r[k]];
      assert !OccursAt(r, [c], k);
    }
  }
}
