/**
 * The few pieces of `java.lang.String` and `java.lang.Character` the core
 * relies on: `trim`, blankness, identifier characters, digits and lower case.
 */
module JavaChars {

  /** `Character.isWhitespace`: space, line and paragraph separators except the
      no-break ones, and the controls TAB, LF, VT, FF, CR and FS to US. */
  predicate IsWhitespace(c: char)
  {
    || c == ' ' || ('\t' <= c <= '\r') || ('\U{1C}' <= c <= '\U{1F}')
    || c == '\U{1680}' || ('\U{2000}' <= c <= '\U{2006}') || ('\U{2008}' <= c <= '\U{200A}')
    || c == '\U{2028}' || c == '\U{2029}' || c == '\U{205F}' || c == '\U{3000}'
  }

  /** `StringUtils.isBlank` on a non-null string: empty or whitespace only. */
  predicate IsBlank(s: string)
  {
    forall k :: 0 <= k < |s| ==> IsWhitespace(s[k])
  }

  /** The number of leading characters `trim` removes: those at or below U+0020. */
  function LeadingTrimmed(s: string): (n: nat)
    ensures n <= |s|
    ensures forall k :: 0 <= k < n ==> s[k] <= ' '
    ensures n < |s| ==> s[n] > ' '
  {
    if s == [] || s[0] > ' ' then 0 else 1 + LeadingTrimmed(s[1..])
  }

  /** The length that remains once `trim` has removed the trailing characters at or below U+0020. */
  function TrailingTrimmed(s: string): (n: nat)
    ensures n <= |s|
    ensures forall k :: n <= k < |s| ==> s[k] <= ' '
    ensures 0 < n ==> s[n - 1] > ' '
  {
    if s == [] || s[|s| - 1] > ' ' then |s| else TrailingTrimmed(s[..|s| - 1])
  }

  /** `String.trim`. */
  function Trim(s: string): (t: string)
    ensures |t| <= |s|
    ensures t == [] || (t[0] > ' ' && t[|t| - 1] > ' ')
    ensures t == [] <==> forall k :: 0 <= k < |s| ==> s[k] <= ' '
  {
    var e := TrailingTrimmed(s);
    s[..e][LeadingTrimmed(s[..e])..]
  }

  /** A string that neither starts nor ends with a character `trim` removes is its own trim. */
  lemma TrimKeeps(s: string)
    requires s == [] || (s[0] > ' ' && s[|s| - 1] > ' ')
    ensures Trim(s) == s
  {
  }

  /** Surrounding characters at or below U+0020 make no difference to `trim`. */
  lemma TrimPadded(pre: string, t: string, post: string)
    requires forall k :: 0 <= k < |pre| ==> pre[k] <= ' '
    requires forall k :: 0 <= k < |post| ==> post[k] <= ' '
    ensures Trim(pre + t + post) == Trim(t)
  {
    TrailingAfterPad(pre + t, post);
    if TrailingTrimmed(t) == 0 {
      TrimPaddedBlank(pre, t, post);
    } else {
      TrailingAfterPrefix(pre, t);
      LeadingAfterPad(pre, t[..TrailingTrimmed(t)]);
      TrimPaddedCore(pre, t, pre + t + post);
    }
  }

  lemma TrimPaddedBlank(pre: string, t: string, post: string)
    requires forall k :: 0 <= k < |pre| ==> pre[k] <= ' '
    requires forall k :: 0 <= k < |post| ==> post[k] <= ' '
    requires TrailingTrimmed(t) == 0
    ensures Trim(pre + t + post) == [] && Trim(t) == []
  {
    var s := pre + t + post;
    forall k | 0 <= k < |s| ensures s[k] <= ' ' {
      if |pre| <= k < |pre| + |t| { assert s[k] == t[k - |pre|]; }
    }
  }

  lemma TrimPaddedCore(pre: string, t: string, s: string)
    requires |pre| + |t| <= |s| && s[..|pre| + |t|] == pre + t
    requires TrailingTrimmed(t) > 0 && TrailingTrimmed(s) == |pre| + TrailingTrimmed(t)
    requires LeadingTrimmed(pre + t[..TrailingTrimmed(t)]) == |pre| + LeadingTrimmed(t[..TrailingTrimmed(t)])
    ensures Trim(s) == Trim(t)
  {
    var head := t[..TrailingTrimmed(t)];
    PrefixOfPrefix(pre, t, s, TrailingTrimmed(t));
    TrimFrom(s, pre + head, |pre| + LeadingTrimmed(head));
    TrimFrom(t, head, LeadingTrimmed(head));
    SuffixOfConcat(pre, head, LeadingTrimmed(head));
  }

  lemma PrefixOfPrefix(pre: string, t: string, s: string, n: nat)
    requires n <= |t| && |pre| + |t| <= |s| && s[..|pre| + |t|] == pre + t
    ensures s[..|pre| + n] == pre + t[..n]
  {
    assert s[..|pre| + n] == s[..|pre| + |t|][..|pre| + n];
    PrefixOfConcat(pre, t, n);
  }

  lemma SuffixOfConcat(a: string, b: string, n: nat)
    requires n <= |b|
    ensures (a + b)[|a| + n..] == b[n..]
  {
  }

  /** `trim` keeps what follows the leading trimmed characters of what precedes the trailing ones. */
  lemma TrimFrom(s: string, x: string, b: nat)
    requires x == s[..TrailingTrimmed(s)] && b == LeadingTrimmed(x)
    ensures Trim(s) == x[b..]
  {
  }

  lemma PrefixOfConcat(a: string, b: string, n: nat)
    requires n <= |b|
    ensures (a + b)[..|a| + n] == a + b[..n]
  {
  }

  lemma {:induction false} TrailingAfterPad(s: string, post: string)
    requires forall k :: 0 <= k < |post| ==> post[k] <= ' '
    ensures TrailingTrimmed(s + post) == TrailingTrimmed(s)
    decreases |post|
  {
    if post != [] {
      var u := s + post;
      assert u[..|u| - 1] == s + post[..|post| - 1];
      TrailingAfterPad(s, post[..|post| - 1]);
    } else {
      assert s + post == s;
    }
  }

  lemma {:induction false} TrailingAfterPrefix(pre: string, t: string)
    requires TrailingTrimmed(t) > 0
    ensures TrailingTrimmed(pre + t) == |pre| + TrailingTrimmed(t)
    decreases |t|
  {
    var u := pre + t;
    if t[|t| - 1] <= ' ' {
      assert u[..|u| - 1] == pre + t[..|t| - 1];
      TrailingAfterPrefix(pre, t[..|t| - 1]);
    }
  }

  lemma {:induction false} LeadingAfterPad(pre: string, t: string)
    requires forall k :: 0 <= k < |pre| ==> pre[k] <= ' '
    ensures LeadingTrimmed(pre + t) == |pre| + LeadingTrimmed(t)
    decreases |pre|
  {
    if pre != [] {
      assert (pre + t)[1..] == pre[1..] + t;
      LeadingAfterPad(pre[1..], t);
    } else {
      assert pre + t == t;
    }
  }

  predicate IsAsciiDigit(c: char)
  {
    '0' <= c <= '9'
  }

  predicate IsAsciiLetter(c: char)
  {
    ('A' <= c <= 'Z') || ('a' <= c <= 'z')
  }

  /** `Character.isIdentifierIgnorable`, restricted to the controls below U+00A0. */
  predicate IsIdentifierIgnorable(c: char)
  {
    c <= '\U{8}' || ('\U{E}' <= c <= '\U{1B}') || ('\U{7F}' <= c <= '\U{9F}')
  }

  /** `Character.isJavaIdentifierStart`: exact below U+00A0; every character from U+00A0 on counts as a letter. */
  predicate IsIdentifierStart(c: char)
  {
    IsAsciiLetter(c) || c == '_' || c == '$' || c >= '\U{A0}'
  }

  /** `Character.isJavaIdentifierPart`: exact below U+00A0; every character from U+00A0 on counts as a letter. */
  predicate IsIdentifierPart(c: char)
  {
    IsIdentifierStart(c) || IsAsciiDigit(c) || IsIdentifierIgnorable(c)
  }

  /** Lower case, for the ASCII letters. */
  function LowerAscii(c: char): (l: char)
    ensures 'A' <= c <= 'Z' ==> l as int == c as int + 32
    ensures !('A' <= c <= 'Z') ==> l == c
  {
    if 'A' <= c <= 'Z' then (c as int + 32) as char else c
  }

  /** `String.toLowerCase` on the ASCII letters. */
  function Lower(s: string): (r: string)
    ensures |r| == |s|
    ensures forall k :: 0 <= k < |s| ==> r[k] == LowerAscii(s[k])
  {
    seq(|s|, k requires 0 <= k < |s| => LowerAscii(s[k]))
  }

  /** `String.endsWith`. */
  predicate EndsWith(s: string, suffix: string)
  {
    |suffix| <= |s| && s[|s| - |suffix|..] == suffix
  }
}
