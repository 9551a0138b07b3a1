/** The filename sanitizer of pdf_splitter.py (`sanitize_filename`): it deletes
    the nine characters that are illegal in a path segment, strips leading and
    trailing whitespace, and turns every space character into an underscore. */
module Sanitizer {

  // The character class of the regular expression at line 11: backslash,
  // slash, star, question mark, colon, double quote, less-than, greater-than
  // and vertical bar.
  predicate IsIllegal(c: char) {
    c == '\\' || c == '/' || c == '*' || c == '?' || c == ':' ||
    c == '"' || c == '<' || c == '>' || c == '|'
  }

  /** The characters Python's `str.strip()` removes (those for which
      `str.isspace()` holds). */
  predicate IsWhitespace(c: char) {
    ('\t' <= c <= '\r') || ('\U{1C}' <= c <= ' ') || c == '\U{85}' || c == '\U{A0}' ||
    c == '\U{1680}' || ('\U{2000}' <= c <= '\U{200A}') || c == '\U{2028}' || c == '\U{2029}' ||
    c == '\U{202F}' || c == '\U{205F}' || c == '\U{3000}'
  }

  /** The regular-expression substitution: the input with every illegal character
      deleted; as the lemmas below show, the other characters keep their order. */
  function RemoveIllegal(s: string): (r: string)
    ensures |r| <= |s|
    ensures forall k :: 0 <= k < |r| ==> !IsIllegal(r[k])
  {
    if s == [] then []
    else if IsIllegal(s[0]) then RemoveIllegal(s[1..])
    else [s[0]] + RemoveIllegal(s[1..])
  }

  /** The leading half of `str.strip()`: drops the longest prefix made of whitespace. */
  function TrimLeft(s: string): (r: string)
    ensures |r| <= |s| && r == s[|s| - |r|..]
    ensures forall k :: 0 <= k < |s| - |r| ==> IsWhitespace(s[k])
    ensures r == [] || !IsWhitespace(r[0])
  {
    if s != [] && IsWhitespace(s[0]) then TrimLeft(s[1..]) else s
  }

  /** The trailing half of `str.strip()`: drops the longest suffix made of whitespace. */
  function TrimRight(s: string): (r: string)
    ensures |r| <= |s| && r == s[..|r|]
    ensures forall k :: |r| <= k < |s| ==> IsWhitespace(s[k])
    ensures r == [] || !IsWhitespace(r[|r| - 1])
  {
    if s != [] && IsWhitespace(s[|s| - 1]) then TrimRight(s[..|s| - 1]) else s
  }

  /** `str.strip()`: the result neither starts nor ends with whitespace;
      StripSurrounded below shows that only the surrounding whitespace goes. */
  function Strip(s: string): (r: string)
    ensures |r| <= |s|
    ensures r == [] || (!IsWhitespace(r[0]) && !IsWhitespace(r[|r| - 1]))
  {
    TrimRight(TrimLeft(s))
  }

  /** `str.replace(" ", "_")`: every space becomes an underscore, one for one;
      tabs, newlines and the other characters are left as they are. */
  function ReplaceSpaces(s: string): (r: string)
    ensures |r| == |s|
    ensures forall k :: 0 <= k < |s| ==> r[k] == if s[k] == ' ' then '_' else s[k]
  {
    if s == [] then [] else [if s[0] == ' ' then '_' else s[0]] + ReplaceSpaces(s[1..])
  }

  /** `sanitize_filename`: the three steps in the source's order. */
  function SanitizeFilename(title: string): (r: string)
    ensures |r| <= |title|
    ensures forall k :: 0 <= k < |r| ==> !IsIllegal(r[k]) && r[k] != ' '
    ensures r == [] || (!IsWhitespace(r[0]) && !IsWhitespace(r[|r| - 1]))
  {
    ReplaceSpaces(Strip(RemoveIllegal(title)))
  }

  // ---------------------------------------------------------------------------
  // Character filter: every legal character is kept, in order.

  /** Deleting illegal characters works separately on the two halves of a string. */
  lemma {:induction false} RemoveIllegalAppend(a: string, b: string)
    ensures RemoveIllegal(a + b) == RemoveIllegal(a) + RemoveIllegal(b)
  {
    if a == [] {
      assert a + b == b;
    } else {
      assert (a + b)[0] == a[0];
      assert (a + b)[1..] == a[1..] + b;
      RemoveIllegalAppend(a[1..], b);
    }
  }

  /** A character survives the filter exactly when it occurs in the input and
      is not illegal. */
  lemma {:induction false} RemoveIllegalMembers(s: string)
    ensures forall c :: c in RemoveIllegal(s) <==> c in s && !IsIllegal(c)
  {
    if s != [] {
      RemoveIllegalMembers(s[1..]);
      assert s == [s[0]] + s[1..];
    }
  }

  /** A string without illegal characters passes through the filter unchanged. */
  lemma {:induction false} RemoveIllegalKeepsLegal(s: string)
    requires forall k :: 0 <= k < |s| ==> !IsIllegal(s[k])
    ensures RemoveIllegal(s) == s
  {
    if s != [] {
      RemoveIllegalKeepsLegal(s[1..]);
    }
  }

  /** A string made only of whitespace and illegal characters filters to whitespace only. */
  lemma {:induction false} RemoveIllegalOfBlank(s: string)
    requires forall k :: 0 <= k < |s| ==> IsWhitespace(s[k]) || IsIllegal(s[k])
    ensures forall k :: 0 <= k < |RemoveIllegal(s)| ==> IsWhitespace(RemoveIllegal(s)[k])
  {
    RemoveIllegalMembers(s);
    var r := RemoveIllegal(s);
    forall k | 0 <= k < |r| ensures IsWhitespace(r[k]) {
      assert r[k] in r;
      var j :| 0 <= j < |s| && s[j] == r[k];
    }
  }

  // ---------------------------------------------------------------------------
  // Stripping.

  /** Strip removes exactly the surrounding whitespace: whatever whitespace is
      put around a string that neither starts nor ends with whitespace, Strip
      gives back that string. */
  lemma {:induction false} StripSurrounded(a: string, m: string, b: string)
    requires forall k :: 0 <= k < |a| ==> IsWhitespace(a[k])
    requires forall k :: 0 <= k < |b| ==> IsWhitespace(b[k])
    requires m == [] || (!IsWhitespace(m[0]) && !IsWhitespace(m[|m| - 1]))
    ensures Strip(a + m + b) == m
  {
    var t := m + b;
    assert a + m + b == a + t;
    TrimLeftSkipsPrefix(a, t);
    if m == [] {
      assert t == b;
      TrimLeftOfBlank(b);
    } else {
      assert t[0] == m[0];
      assert TrimLeft(t) == t;
      TrimRightSkipsSuffix(m, b);
    }
  }

  lemma {:induction false} TrimLeftSkipsPrefix(a: string, t: string)
    requires forall k :: 0 <= k < |a| ==> IsWhitespace(a[k])
    ensures TrimLeft(a + t) == TrimLeft(t)
  {
    if a == [] {
      assert a + t == t;
    } else {
      assert (a + t)[0] == a[0];
      assert (a + t)[1..] == a[1..] + t;
      TrimLeftSkipsPrefix(a[1..], t);
    }
  }

  lemma {:induction false} TrimLeftOfBlank(b: string)
    requires forall k :: 0 <= k < |b| ==> IsWhitespace(b[k])
    ensures TrimLeft(b) == []
  {
    if b != [] {
      TrimLeftOfBlank(b[1..]);
    }
  }

  lemma {:induction false} TrimRightSkipsSuffix(m: string, b: string)
    requires forall k :: 0 <= k < |b| ==> IsWhitespace(b[k])
    requires m != [] && !IsWhitespace(m[|m| - 1])
    ensures TrimRight(m + b) == m
  {
    if b != [] {
      assert (m + b)[|m + b| - 1] == b[|b| - 1];
      assert (m + b)[..|m + b| - 1] == m + b[..|b| - 1];
      TrimRightSkipsSuffix(m, b[..|b| - 1]);
    } else {
      assert m + b == m;
    }
  }

  // ---------------------------------------------------------------------------
  // Space replacement.

  /** A string without spaces is left unchanged by the replacement. */
  lemma {:induction false} ReplaceSpacesKeepsSpaceless(s: string)
    requires forall k :: 0 <= k < |s| ==> s[k] != ' '
    ensures ReplaceSpaces(s) == s
  {
    if s != [] {
      ReplaceSpacesKeepsSpaceless(s[1..]);
    }
  }

  // ---------------------------------------------------------------------------
  // The sanitizer as a whole.

  /** What the sanitizer keeps: take any title, split it as `a + m + b` where
      `a` and `b` hold only whitespace and illegal characters and the legal
      characters of `m` neither start nor end with whitespace; the result is
      the legal characters of `m`, in their original order, with spaces
      turned into underscores, one for one. */
  lemma SanitizeKeepsMiddle(a: string, m: string, b: string)
    requires forall k :: 0 <= k < |a| ==> IsWhitespace(a[k]) || IsIllegal(a[k])
    requires forall k :: 0 <= k < |b| ==> IsWhitespace(b[k]) || IsIllegal(b[k])
    requires RemoveIllegal(m) == [] ||
             (!IsWhitespace(RemoveIllegal(m)[0]) && !IsWhitespace(RemoveIllegal(m)[|RemoveIllegal(m)| - 1]))
    ensures SanitizeFilename(a + m + b) == ReplaceSpaces(RemoveIllegal(m))
  {
    RemoveIllegalAppend(a + m, b);
    RemoveIllegalAppend(a, m);
    RemoveIllegalOfBlank(a);
    RemoveIllegalOfBlank(b);
    StripSurrounded(RemoveIllegal(a), RemoveIllegal(m), RemoveIllegal(b));
  }

  /** A title made only of whitespace and illegal characters sanitizes to the
      empty string (the id prefix of the filename is then all that is left). */
  lemma SanitizeBlank(s: string)
    requires forall k :: 0 <= k < |s| ==> IsWhitespace(s[k]) || IsIllegal(s[k])
    ensures SanitizeFilename(s) == []
  {
    RemoveIllegalOfBlank(s);
    var f := RemoveIllegal(s);
    StripSurrounded(f, [], []);
    assert f + [] + [] == f;
  }

  /** Sanitizing twice is the same as sanitizing once. */
  lemma SanitizeIdempotent(s: string)
    ensures SanitizeFilename(SanitizeFilename(s)) == SanitizeFilename(s)
  {
    var r := SanitizeFilename(s);
    RemoveIllegalKeepsLegal(r);
    StripSurrounded([], r, []);
    assert [] + r + [] == r;
    ReplaceSpacesKeepsSpaceless(r);
  }
}
