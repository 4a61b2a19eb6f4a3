/** Small pieces of string behaviour shared by the back ends and the page:
    Python's `lower()`, white-space trimming (Python's `strip()` and
    JavaScript's `trim()` differ only in what counts as white space), the
    substring test of Python's `in` operator, and the subsequence relation
    used to describe list comprehensions. */
module Text {

  /** Python `str.lower()` on one character (ASCII letters only). */
  function LowerChar(c: char): char {
    if 'A' <= c <= 'Z' then (c as int + 32) as char else c
  }

  /** Python `str.lower()`, character by character: no capital letter is
      left, capitals become their small letters, and every other character
      (Bengali script among them) is kept. */
  function Lower(s: string): (r: string)
    ensures |r| == |s|
    ensures forall i | 0 <= i < |r| :: !('A' <= r[i] <= 'Z')
    ensures forall i | 0 <= i < |s| :: !('A' <= s[i] <= 'Z') ==> r[i] == s[i]
    ensures forall i | 0 <= i < |s| :: 'A' <= s[i] <= 'Z' ==> r[i] as int == s[i] as int + 32
  {
    seq(|s|, i requires 0 <= i < |s| => LowerChar(s[i]))
  }

  /** Lower-casing twice is lower-casing once. */
  lemma LowerIdempotent(s: string)
    ensures Lower(Lower(s)) == Lower(s)
  {
  }

  /** The characters for which Python's `str.isspace()` holds; `str.strip()`
      with no argument removes exactly these. */
  predicate IsPySpace(c: char) {
    || '\t' <= c <= '\r'
    || '\U{001C}' <= c <= '\U{001F}'
    || c == ' ' || c == '\U{0085}' || c == '\U{00A0}' || c == '\U{1680}'
    || '\U{2000}' <= c <= '\U{200A}'
    || c == '\U{2028}' || c == '\U{2029}' || c == '\U{202F}' || c == '\U{205F}'
    || c == '\U{3000}'
  }

  /** Every character of `s` is white space. */
  predicate AllSpace(s: string, isSpace: char -> bool) {
    forall i | 0 <= i < |s| :: isSpace(s[i])
  }

  lemma AllSpaceConcat(a: string, b: string, isSpace: char -> bool)
    requires AllSpace(a, isSpace) && AllSpace(b, isSpace)
    ensures AllSpace(a + b, isSpace)
  {
    forall i | 0 <= i < |a + b|
      ensures isSpace((a + b)[i])
    {
      if i < |a| {
        assert (a + b)[i] == a[i];
      } else {
        assert (a + b)[i] == b[i - |a|];
      }
    }
  }

  /** `lstrip()`: the longest suffix that does not start with white space. */
  function TrimStart(s: string, isSpace: char -> bool): (r: string)
    ensures |r| <= |s| && r == s[|s| - |r|..]
    ensures AllSpace(s[..|s| - |r|], isSpace)
    ensures r != [] ==> !isSpace(r[0])
  {
    if s != [] && isSpace(s[0]) then
      var r := TrimStart(s[1..], isSpace);
      DropLeadingSpace(s, r, isSpace);
      r
    else s
  }

  /** A suffix of `s[1..]` past white space is a suffix of `s` past white
      space when `s[0]` is white space too. */
  lemma DropLeadingSpace(s: string, r: string, isSpace: char -> bool)
    requires s != [] && isSpace(s[0])
    requires |r| <= |s| - 1 && r == s[1..][|s| - 1 - |r|..] && AllSpace(s[1..][..|s| - 1 - |r|], isSpace)
    ensures r == s[|s| - |r|..] && AllSpace(s[..|s| - |r|], isSpace)
  {
    var n := |s| - |r|;
    assert s[..n] == [s[0]] + s[1..][..n - 1];
    AllSpaceConcat([s[0]], s[1..][..n - 1], isSpace);
  }

  /** `rstrip()`: the longest prefix that does not end with white space. */
  function TrimEnd(s: string, isSpace: char -> bool): (r: string)
    ensures |r| <= |s| && r == s[..|r|]
    ensures AllSpace(s[|r|..], isSpace)
    ensures r != [] ==> !isSpace(r[|r| - 1])
  {
    if s != [] && isSpace(s[|s| - 1]) then
      var r := TrimEnd(s[..|s| - 1], isSpace);
      assert s[|r|..] == s[..|s| - 1][|r|..] + [s[|s| - 1]];
      r
    else s
  }

  /** `strip()` / `trim()`: `rstrip()` of `lstrip()`. */
  function Trim(s: string, isSpace: char -> bool): string {
    TrimEnd(TrimStart(s, isSpace), isSpace)
  }

  /** What trimming leaves is a contiguous slice of `s`, only white space was
      cut on either side, the result neither starts nor ends with white
      space, and it is empty exactly when `s` is all white space. */
  lemma TrimIsSpaceFreeSlice(s: string, isSpace: char -> bool)
    ensures var r := Trim(s, isSpace);
            exists i, j | 0 <= i <= j <= |s| ::
              r == s[i..j] && AllSpace(s[..i], isSpace) && AllSpace(s[j..], isSpace)
    ensures var r := Trim(s, isSpace);
            r != [] ==> !isSpace(r[0]) && !isSpace(r[|r| - 1])
    ensures Trim(s, isSpace) == [] <==> AllSpace(s, isSpace)
  {
    var t := TrimStart(s, isSpace);
    var r := TrimEnd(t, isSpace);
    assert Trim(s, isSpace) == r;
    TrimSlice(s, t, r, isSpace);
  }

  /** `r` is what `Trim` leaves of `s`, given what `TrimStart` and `TrimEnd` promise. */
  lemma TrimSlice(s: string, t: string, r: string, isSpace: char -> bool)
    requires |t| <= |s| && t == s[|s| - |t|..] && AllSpace(s[..|s| - |t|], isSpace)
    requires t != [] ==> !isSpace(t[0])
    requires |r| <= |t| && r == t[..|r|] && AllSpace(t[|r|..], isSpace)
    requires r != [] ==> !isSpace(r[|r| - 1])
    ensures exists i, j | 0 <= i <= j <= |s| ::
              r == s[i..j] && AllSpace(s[..i], isSpace) && AllSpace(s[j..], isSpace)
    ensures r != [] ==> !isSpace(r[0])
    ensures r == [] <==> AllSpace(s, isSpace)
  {
    var i := |s| - |t|;
    PrefixOfSuffix(s, i, |r|);
    assert s[i + |r|..] == t[|r|..];
    assert r == s[i..i + |r|] && AllSpace(s[..i], isSpace) && AllSpace(s[i + |r|..], isSpace);
    if r == [] {
      assert s == s[..i] + t;
      AllSpaceConcat(s[..i], t, isSpace);
    } else {
      assert r[0] == t[0] == s[i];
    }
  }

  lemma PrefixOfSuffix(s: string, i: int, n: int)
    requires 0 <= i <= i + n <= |s|
    ensures s[i..][..n] == s[i..i + n]
  {
  }

  /** Python's `strip()` with no argument. */
  function Strip(s: string): string {
    Trim(s, IsPySpace)
  }

  /** White space around a string does not change what trimming leaves. */
  lemma {:induction false} TrimIgnoresPadding(pre: string, s: string, post: string, isSpace: char -> bool)
    requires AllSpace(pre, isSpace) && AllSpace(post, isSpace)
    ensures Trim(pre + s + post, isSpace) == Trim(s, isSpace)
  {
    assert pre + s + post == pre + (s + post);
    TrimStartSkips(pre, s + post, isSpace);
    var t := TrimStart(s, isSpace);
    if t == [] {
      TrimIsSpaceFreeSlice(s, isSpace);
      AllSpaceConcat(s, post, isSpace);
      TrimStartOfSpace(s + post, isSpace);
    } else {
      TrimStartAppend(s, post, isSpace);
      TrimEndSkips(t, post, isSpace);
    }
  }

  lemma TrimStartOfSpace(s: string, isSpace: char -> bool)
    requires AllSpace(s, isSpace)
    ensures TrimStart(s, isSpace) == []
  {
  }

  lemma {:induction false} TrimStartSkips(pre: string, s: string, isSpace: char -> bool)
    requires AllSpace(pre, isSpace)
    ensures TrimStart(pre + s, isSpace) == TrimStart(s, isSpace)
    decreases |pre|
  {
    if pre == [] {
      assert pre + s == s;
    } else {
      assert (pre + s)[0] == pre[0];
      assert (pre + s)[1..] == pre[1..] + s;
      TrimStartSkips(pre[1..], s, isSpace);
    }
  }

  lemma {:induction false} TrimStartAppend(s: string, post: string, isSpace: char -> bool)
    requires TrimStart(s, isSpace) != []
    ensures TrimStart(s + post, isSpace) == TrimStart(s, isSpace) + post
    decreases |s|
  {
    assert (s + post)[0] == s[0];
    if isSpace(s[0]) {
      assert (s + post)[1..] == s[1..] + post;
      TrimStartAppend(s[1..], post, isSpace);
    }
  }

  lemma {:induction false} TrimEndSkips(t: string, post: string, isSpace: char -> bool)
    requires AllSpace(post, isSpace)
    ensures TrimEnd(t + post, isSpace) == TrimEnd(t, isSpace)
    decreases |post|
  {
    if post == [] {
      assert t + post == t;
    } else {
      var p := post[..|post| - 1];
      assert (t + post)[|t + post| - 1] == post[|post| - 1];
      assert (t + post)[..|t + post| - 1] == t + p;
      TrimEndSkips(t, p, isSpace);
    }
  }

  /** Python `w in s` for two strings: `w` occurs as a contiguous substring of `s`
      (the empty string occurs in every string). */
  predicate IsSubstring(w: string, s: string) {
    exists i | 0 <= i <= |s| - |w| :: OccursAt(w, s, i)
  }

  predicate OccursAt(w: string, s: string, i: int) {
    0 <= i <= |s| - |w| && s[i..i + |w|] == w
  }

  /** For a one-character string the substring test is membership. */
  lemma SingleCharSubstring(c: char, s: string)
    ensures IsSubstring([c], s) <==> c in s
  {
    if c in s {
      var i :| 0 <= i < |s| && s[i] == c;
      assert OccursAt([c], s, i);
    }
    if IsSubstring([c], s) {
      var i :| 0 <= i <= |s| - 1 && OccursAt([c], s, i);
      assert s[i..i + 1][0] == s[i];
    }
  }

  /** `a` can be obtained from `b` by deleting elements, keeping the order. */
  predicate IsSubsequence<T(==)>(a: seq<T>, b: seq<T>)
    decreases |b|
  {
    a == [] || (b != [] && ((a[0] == b[0] && IsSubsequence(a[1..], b[1..])) || IsSubsequence(a, b[1..])))
  }
}
