/** `String.prototype.trim`: removal of leading and trailing white space,
    where white space is what ECMAScript calls WhiteSpace or LineTerminator
    (sections 12.2 and 12.3 of ECMA-262). */
module Trimming {

  /** TAB, VT, FF, SPACE, NBSP, ZWNBSP, the space separators of Unicode
      category Zs, and the four line terminators LF, CR, LS, PS. */
  predicate IsWhitespace(c: char) {
    || c == '\t' || c == '\U{B}' || c == '\U{C}' || c == ' ' || c == '\U{A0}' || c == '\U{FEFF}'
    || c == '\U{1680}' || ('\U{2000}' <= c <= '\U{200A}') || c == '\U{202F}' || c == '\U{205F}' || c == '\U{3000}'
    || c == '\n' || c == '\r' || c == '\U{2028}' || c == '\U{2029}'
  }

  /** Every character of `s` from `lo` up to `hi` is white space. */
  predicate WhitespaceBetween(s: string, lo: int, hi: int) {
    forall k :: lo <= k < hi && 0 <= k < |s| ==> IsWhitespace(s[k])
  }

  predicate AllWhitespace(s: string) {
    forall i :: 0 <= i < |s| ==> IsWhitespace(s[i])
  }

  /** Neither end of `s` is white space (vacuously true of ""). */
  predicate Tight(s: string) {
    |s| == 0 || (!IsWhitespace(s[0]) && !IsWhitespace(s[|s| - 1]))
  }

  /** Where the text starts: the first index at or after `i` that is not
      white space, or the end of `s`. */
  function TextStart(s: string, i: nat): (n: nat)
    requires i <= |s|
    ensures i <= n <= |s| && WhitespaceBetween(s, i, n)
    ensures n == |s| || !IsWhitespace(s[n])
    decreases |s| - i
  {
    if i < |s| && IsWhitespace(s[i]) then TextStart(s, i + 1) else i
  }

  /** Where the text ends: the last index at or below `j`, but not below
      `lo`, that is not preceded by white space. */
  function TextEnd(s: string, lo: nat, j: nat): (n: nat)
    requires lo <= j <= |s|
    ensures lo <= n <= j && WhitespaceBetween(s, n, j)
    ensures n == lo || !IsWhitespace(s[n - 1])
  {
    if lo < j && IsWhitespace(s[j - 1]) then TextEnd(s, lo, j - 1) else j
  }

  /** `r` sits at index `i` of `s` with nothing but white space around it. */
  predicate PaddedAt(s: string, r: string, i: int) {
    && 0 <= i && i + |r| <= |s| && r == s[i..i + |r|]
    && WhitespaceBetween(s, 0, i) && WhitespaceBetween(s, i + |r|, |s|)
  }

  /** `s.trim()`: the middle of `s` once white space is stripped from both
      ends. */
  function Trim(s: string): (r: string)
    ensures Tight(r)
    ensures exists i :: PaddedAt(s, r, i)
  {
    var a := TextStart(s, 0);
    var b := TextEnd(s, a, |s|);
    var r := s[a..b];
    assert PaddedAt(s, r, a);
    r
  }

  /** The text starts at the first non-white character after white space. */
  lemma {:induction false} TextStartAt(s: string, i: nat, n: nat)
    requires i <= n <= |s| && WhitespaceBetween(s, i, n)
    requires n == |s| || !IsWhitespace(s[n])
    ensures TextStart(s, i) == n
    decreases n - i
  {
    if i < n {
      TextStartAt(s, i + 1, n);
    }
  }

  /** The text ends after the last non-white character before white space. */
  lemma {:induction false} TextEndAt(s: string, lo: nat, j: nat, n: nat)
    requires lo <= n <= j <= |s| && WhitespaceBetween(s, n, j)
    requires n == lo || !IsWhitespace(s[n - 1])
    ensures TextEnd(s, lo, j) == n
    decreases j - n
  {
    if n < j {
      TextEndAt(s, lo, j - 1, n);
    }
  }

  /** Stripping white space off a text that has a tight middle and white
      padding yields that middle: trim is determined by its contract. */
  lemma TrimOfPadded(pre: string, mid: string, post: string)
    requires AllWhitespace(pre) && AllWhitespace(post) && Tight(mid)
    ensures Trim(pre + mid + post) == mid
  {
    var s := pre + mid + post;
    var a := |pre|;
    var b := |pre| + |mid|;
    assert WhitespaceBetween(s, 0, a) by {
      assert forall k :: 0 <= k < a ==> s[k] == pre[k];
    }
    assert WhitespaceBetween(s, b, |s|) by {
      assert forall k :: b <= k < |s| ==> s[k] == post[k - b];
    }
    if |mid| == 0 {
      TextStartAt(s, 0, |s|);
      TextEndAt(s, |s|, |s|, |s|);
      assert s[|s|..|s|] == mid;
    } else {
      assert s[a] == mid[0] && s[b - 1] == mid[|mid| - 1];
      TextStartAt(s, 0, a);
      TextEndAt(s, a, |s|, b);
      assert s[a..b] == mid;
    }
  }

  /** Trimming twice is trimming once. */
  lemma TrimIdempotent(s: string)
    ensures Trim(Trim(s)) == Trim(s)
  {
    var r := Trim(s);
    assert r == "" + r + "";
    TrimOfPadded("", r, "");
  }
}
