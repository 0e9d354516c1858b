/**
 * The Python string built-ins the script relies on: `str.strip()`,
 * case-insensitive substring search, `str.replace(pat, '')` and the
 * code-point ordering that `<` uses on `str`.
 */
module Text {

  /** Python's `str.isspace` for one character: the ASCII controls TAB..CR and
      FS..US, space, NEL, NO-BREAK SPACE, the Unicode space separators, and
      LINE SEPARATOR and PARAGRAPH SEPARATOR. */
  predicate IsSpace(c: char) {
    c == ' ' || ('\t' <= c <= '\r') || ('\U{1C}' <= c <= '\U{1F}')
    || c == '\U{85}' || c == '\U{A0}' || c == '\U{1680}'
    || ('\U{2000}' <= c <= '\U{200A}') || c == '\U{2028}' || c == '\U{2029}'
    || c == '\U{202F}' || c == '\U{205F}' || c == '\U{3000}'
  }

  predicate AllSpace(s: string) {
    forall i :: 0 <= i < |s| ==> IsSpace(s[i])
  }

  /** Neither the first nor the last character is whitespace. */
  predicate NoEdgeSpace(s: string) {
    s == [] || (!IsSpace(s[0]) && !IsSpace(s[|s| - 1]))
  }

  /** `str.lstrip()`: drops leading whitespace. */
  function TrimStart(s: string): string {
    if s != [] && IsSpace(s[0]) then TrimStart(s[1..]) else s
  }

  /** `str.rstrip()`: drops trailing whitespace. */
  function TrimEnd(s: string): string {
    if s != [] && IsSpace(s[|s| - 1]) then TrimEnd(s[..|s| - 1]) else s
  }

  /** `str.strip()` with no argument. */
  function Strip(s: string): string {
    TrimEnd(TrimStart(s))
  }

  /** What `lstrip()` leaves is a suffix, what it cuts off is whitespace, and
      it does not start with whitespace. */
  lemma {:induction false} TrimStartSuffix(s: string)
    ensures |TrimStart(s)| <= |s| && TrimStart(s) == s[|s| - |TrimStart(s)|..]
    ensures AllSpace(s[..|s| - |TrimStart(s)|])
    ensures TrimStart(s) == [] || !IsSpace(TrimStart(s)[0])
  {
    if s != [] && IsSpace(s[0]) {
      TrimStartSuffix(s[1..]);
      var k := |s| - |TrimStart(s)|;
      assert s[..k] == [s[0]] + s[1..][..k - 1];
    }
  }

  /** What `rstrip()` leaves is a prefix, what it cuts off is whitespace, and
      it does not end with whitespace. */
  lemma {:induction false} TrimEndPrefix(s: string)
    ensures |TrimEnd(s)| <= |s| && TrimEnd(s) == s[..|TrimEnd(s)|]
    ensures AllSpace(s[|TrimEnd(s)|..])
    ensures TrimEnd(s) == [] || !IsSpace(TrimEnd(s)[|TrimEnd(s)| - 1])
  {
    if s != [] && IsSpace(s[|s| - 1]) {
      var s' := s[..|s| - 1];
      TrimEndPrefix(s');
      var k := |TrimEnd(s)|;
      assert s[k..] == s'[k..] + [s[|s| - 1]];
    }
  }

  /** A stripped string is a slice of the original with only whitespace cut
      off, and has no whitespace left at either end. */
  lemma StripTrimmed(s: string)
    ensures exists i, j :: 0 <= i <= j <= |s| && Strip(s) == s[i..j] && AllSpace(s[..i]) && AllSpace(s[j..])
    ensures NoEdgeSpace(Strip(s))
  {
    var t := TrimStart(s);
    TrimStartSuffix(s);
    TrimEndPrefix(t);
    var i := |s| - |t|;
    var j := i + |TrimEnd(t)|;
    assert s[i..j] == t[..|TrimEnd(t)|];
    assert s[j..] == t[|TrimEnd(t)|..];
  }

  lemma {:induction false} TrimStartPadded(pre: string, rest: string)
    requires AllSpace(pre)
    requires rest == [] || !IsSpace(rest[0])
    ensures TrimStart(pre + rest) == rest
  {
    if pre != [] {
      assert (pre + rest)[1..] == pre[1..] + rest;
      TrimStartPadded(pre[1..], rest);
    }
  }

  lemma {:induction false} TrimEndPadded(rest: string, post: string)
    requires AllSpace(post)
    requires rest == [] || !IsSpace(rest[|rest| - 1])
    ensures TrimEnd(rest + post) == rest
  {
    if post != [] {
      assert (rest + post)[..|rest + post| - 1] == rest + post[..|post| - 1];
      TrimEndPadded(rest, post[..|post| - 1]);
    } else {
      assert rest + post == rest;
    }
  }

  /** Stripping undoes any whitespace padding around a string that has no
      whitespace at either end. */
  lemma StripPadded(pre: string, core: string, post: string)
    requires AllSpace(pre) && AllSpace(post) && NoEdgeSpace(core)
    ensures Strip(pre + core + post) == core
  {
    if core == [] {
      TrimEndPrefix([]);
      assert pre + core + post == pre + post;
      assert AllSpace(pre + post);
      TrimStartPadded(pre + post, []);
      assert pre + post + [] == pre + post;
    } else {
      assert pre + core + post == pre + (core + post);
      TrimStartPadded(pre, core + post);
      TrimEndPadded(core, post);
    }
  }

  /** Stripping twice is stripping once. */
  lemma StripIdempotent(s: string)
    ensures Strip(Strip(s)) == Strip(s)
  {
    var r := Strip(s);
    StripTrimmed(s);
    assert [] + r + [] == r;
    StripPadded([], r, []);
  }

  /** ASCII-only lower-casing of one character. */
  function LowerChar(c: char): char {
    if 'A' <= c <= 'Z' then (c as int + 32) as char else c
  }

  /** `str.lower()` restricted to ASCII letters. */
  function ToLower(s: string): string {
    seq(|s|, i requires 0 <= i < |s| => LowerChar(s[i]))
  }

  /** `pat` occurs in `s` starting at index `i`. */
  predicate OccursAt(s: string, pat: string, i: nat) {
    i + |pat| <= |s| && s[i..i + |pat|] == pat
  }

  /** `pat in s`: `pat` occurs in `s` at some position. */
  predicate Contains(s: string, pat: string) {
    exists i: nat :: i <= |s| && OccursAt(s, pat, i)
  }

  /** `s.replace(pat, '')`: every non-overlapping occurrence of `pat`, found
      left to right, is removed in one pass. */
  function RemoveAll(s: string, pat: string): (r: string)
    requires pat != []
    ensures |r| <= |s|
    decreases |s|
  {
    if |s| < |pat| then s
    else if s[..|pat|] == pat then RemoveAll(s[|pat|..], pat)
    else [s[0]] + RemoveAll(s[1..], pat)
  }

  /** A string without any occurrence of the pattern is left as it is. */
  lemma {:induction false} RemoveAllAbsent(s: string, pat: string)
    requires pat != [] && !Contains(s, pat)
    ensures RemoveAll(s, pat) == s
    decreases |s|
  {
    if |s| >= |pat| {
      assert !OccursAt(s, pat, 0);
      forall i: nat | i <= |s[1..]|
        ensures !OccursAt(s[1..], pat, i)
      {
        assert !OccursAt(s, pat, i + 1);
        if i + |pat| <= |s[1..]| {
          assert s[1..][i..i + |pat|] == s[i + 1..i + 1 + |pat|];
        }
      }
      RemoveAllAbsent(s[1..], pat);
    }
  }

  /** Scanning left to right: the first occurrence of the pattern is removed,
      the text before it is kept, and the rest is handled alike. */
  lemma {:induction false} RemoveAllSplit(a: string, pat: string, b: string)
    requires pat != []
    requires !Contains(a + pat[..|pat| - 1], pat)
    ensures RemoveAll(a + pat + b, pat) == a + RemoveAll(b, pat)
    decreases |a|
  {
    var s := a + pat + b;
    if a == [] {
      assert s == pat + b;
      assert s[..|pat|] == pat && s[|pat|..] == b;
    } else {
      var c := a + pat[..|pat| - 1];
      assert !OccursAt(c, pat, 0);
      assert s[..|pat|] == c[..|pat|];
      var c' := a[1..] + pat[..|pat| - 1];
      forall i: nat | i <= |c'|
        ensures !OccursAt(c', pat, i)
      {
        assert !OccursAt(c, pat, i + 1);
        if i + |pat| <= |c'| {
          assert c'[i..i + |pat|] == c[i + 1..i + 1 + |pat|];
        }
      }
      assert s[1..] == a[1..] + pat + b;
      RemoveAllSplit(a[1..], pat, b);
      assert [a[0]] + (a[1..] + RemoveAll(b, pat)) == a + RemoveAll(b, pat);
    }
  }

  /** Appending the pattern to a string that does not use the pattern's first
      character, and then removing the pattern, gives the string back. */
  lemma {:induction false} RemoveAllSuffix(d: string, pat: string)
    requires pat != []
    requires forall k :: 0 <= k < |d| ==> d[k] != pat[0]
    ensures RemoveAll(d + pat, pat) == d
    decreases |d|
  {
    var s := d + pat;
    if d == [] {
      assert s[..|pat|] == pat && s[|pat|..] == [];
    } else {
      assert s[..|pat|][0] == d[0];
      assert s[1..] == d[1..] + pat;
      RemoveAllSuffix(d[1..], pat);
      assert [d[0]] + d[1..] == d;
    }
  }

  /** `a <= b` on Python strings: code-point lexicographic order, in which a
      proper prefix comes first. */
  predicate LexLe(a: string, b: string) {
    a == [] || (b != [] && (a[0] < b[0] || (a[0] == b[0] && LexLe(a[1..], b[1..]))))
  }

  lemma {:induction false} LexLeTotal(a: string, b: string)
    ensures LexLe(a, b) || LexLe(b, a)
  {
    if a != [] && b != [] && a[0] == b[0] {
      LexLeTotal(a[1..], b[1..]);
    }
  }

  lemma {:induction false} LexLeTransitive(a: string, b: string, c: string)
    requires LexLe(a, b) && LexLe(b, c)
    ensures LexLe(a, c)
  {
    if a != [] && a[0] == b[0] && b[0] == c[0] {
      LexLeTransitive(a[1..], b[1..], c[1..]);
    }
  }

  lemma {:induction false} LexLeAntisymmetric(a: string, b: string)
    requires LexLe(a, b) && LexLe(b, a)
    ensures a == b
  {
    if a != [] {
      LexLeAntisymmetric(a[1..], b[1..]);
      assert a == [a[0]] + a[1..] && b == [b[0]] + b[1..];
    }
  }
}
