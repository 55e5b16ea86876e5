/** The part of JavaScript's string behaviour the transfer page relies on:
    `String.prototype.trim`, which strips white space and line terminators
    from both ends of a string.

    Everything proved here about `Trim` depends only on `IsWhitespace` being
    some predicate on characters; the concrete set is the one ECMA-262 lists
    under its WhiteSpace and LineTerminator productions. */
module JsString {

  /** White space (TAB, VT, FF, SP, NBSP, ZWNBSP, the Zs space separators)
      and line terminators (LF, CR, LS, PS), as `trim` recognises them. */
  predicate IsWhitespace(c: char) {
    || c == '\t' || c == '\U{000B}' || c == '\U{000C}' || c == ' '
    || c == '\U{00A0}' || c == '\U{FEFF}'
    || c == '\n' || c == '\r' || c == '\U{2028}' || c == '\U{2029}'
    || c == '\U{1680}' || ('\U{2000}' <= c <= '\U{200A}')
    || c == '\U{202F}' || c == '\U{205F}' || c == '\U{3000}'
  }

  predicate AllWhitespace(s: string) {
    forall i :: 0 <= i < |s| ==> IsWhitespace(s[i])
  }

  /** Nothing left to strip at the front. */
  predicate StartsClean(s: string) {
    s == [] || !IsWhitespace(s[0])
  }

  /** Nothing left to strip at the back. */
  predicate EndsClean(s: string) {
    s == [] || !IsWhitespace(s[|s| - 1])
  }

  /** The first position at or after `i` that does not hold white space,
      or `|s|` if there is none. */
  function SkipLeading(s: string, i: nat): (k: nat)
    requires i <= |s|
    ensures i <= k <= |s|
    ensures forall m :: i <= m < k ==> IsWhitespace(s[m])
    ensures k < |s| ==> !IsWhitespace(s[k])
    decreases |s| - i
  {
    if i < |s| && IsWhitespace(s[i]) then SkipLeading(s, i + 1) else i
  }

  /** The end of `s[lo..j]` once the white space at its back is dropped. */
  function SkipTrailing(s: string, lo: nat, j: nat): (k: nat)
    requires lo <= j <= |s|
    ensures lo <= k <= j
    ensures forall m :: k <= m < j ==> IsWhitespace(s[m])
    ensures lo < k ==> !IsWhitespace(s[k - 1])
    decreases j - lo
  {
    if lo < j && IsWhitespace(s[j - 1]) then SkipTrailing(s, lo, j - 1) else j
  }

  /** Where the trimmed text starts inside `s`. */
  function Lead(s: string): nat {
    SkipLeading(s, 0)
  }

  /** Where the trimmed text ends inside `s`. */
  function Tail(s: string): nat {
    SkipTrailing(s, Lead(s), |s|)
  }

  /** `s.trim()`: the text between the leading and the trailing white space. */
  function Trim(s: string): string {
    s[Lead(s)..Tail(s)]
  }

  /** `a.trim() === b.trim()`: the comparison the page uses for one-time
      passwords. */
  predicate SameTrimmed(a: string, b: string) {
    Trim(a) == Trim(b)
  }

  /** What `Trim` produces: `s` is white space, then `Trim(s)`, then white
      space, and `Trim(s)` neither starts nor ends with white space. */
  lemma TrimDecomposes(s: string)
    ensures s == s[..Lead(s)] + Trim(s) + s[Tail(s)..]
    ensures AllWhitespace(s[..Lead(s)]) && AllWhitespace(s[Tail(s)..])
    ensures StartsClean(Trim(s)) && EndsClean(Trim(s))
  {
    assert s == s[..Lead(s)] + s[Lead(s)..Tail(s)] + s[Tail(s)..];
  }

  /** Uniqueness: any way of writing `s` as white space, a core that is clean
      at both ends, and white space again, has `Trim(s)` as its core. With
      `TrimDecomposes`, this characterises `trim` completely. */
  lemma TrimIsTheCleanCore(s: string, pre: string, core: string, post: string)
    requires s == pre + core + post
    requires AllWhitespace(pre) && AllWhitespace(post)
    requires StartsClean(core) && EndsClean(core)
    ensures Trim(s) == core
  {
    var i, j := |pre|, |pre| + |core|;
    assert forall m :: 0 <= m < i ==> s[m] == pre[m];
    assert forall m :: j <= m < |s| ==> s[m] == post[m - j];
    if core == [] {
      assert forall m :: 0 <= m < |s| ==> IsWhitespace(s[m]);
      assert Lead(s) == |s|;
    } else {
      assert !IsWhitespace(s[i]) && !IsWhitespace(s[j - 1]);
      assert Lead(s) == i;
      assert Tail(s) == j;
    }
  }

  /** A string trims to nothing exactly when it is all white space. */
  lemma TrimEmptyIffBlank(s: string)
    ensures Trim(s) == [] <==> AllWhitespace(s)
  {
    TrimDecomposes(s);
    if Trim(s) == [] {
      assert s == s[..Lead(s)] + s[Tail(s)..];
      AllWhitespaceConcat(s[..Lead(s)], s[Tail(s)..]);
    }
    if AllWhitespace(s) {
      assert s == s + [] + [];
      TrimIsTheCleanCore(s, s, [], []);
    }
  }

  /** Trimming twice is trimming once. */
  lemma TrimIdempotent(s: string)
    ensures Trim(Trim(s)) == Trim(s)
  {
    var r := Trim(s);
    TrimDecomposes(s);
    assert r == [] + r + [];
    TrimIsTheCleanCore(r, [], r, []);
  }

  lemma AllWhitespaceConcat(a: string, b: string)
    requires AllWhitespace(a) && AllWhitespace(b)
    ensures AllWhitespace(a + b)
  {
    forall i | 0 <= i < |a + b|
      ensures IsWhitespace((a + b)[i])
    {
      if i >= |a| {
        assert (a + b)[i] == b[i - |a|];
      }
    }
  }

  lemma Regroup(a: string, b: string, c: string, d: string, e: string)
    ensures a + (b + c + d) + e == (a + b) + c + (d + e)
  {
    assert a + (b + c + d) == (a + b) + c + d;
  }

  /** Padding with white space on either side does not change what `trim`
      sees, so such an entry matches exactly what the unpadded entry
      matches. */
  lemma PaddingIsInvisible(pre: string, s: string, post: string)
    requires AllWhitespace(pre) && AllWhitespace(post)
    ensures Trim(pre + s + post) == Trim(s)
  {
    TrimDecomposes(s);
    var r := Trim(s);
    var lead := s[..Lead(s)];
    var tail := s[Tail(s)..];
    Regroup(pre, lead, r, tail, post);
    AllWhitespaceConcat(pre, lead);
    AllWhitespaceConcat(tail, post);
    TrimIsTheCleanCore(pre + s + post, pre + lead, r, tail + post);
  }
}
