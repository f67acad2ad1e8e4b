/** Character classes and the whitespace stripping that Python's `str.strip()`
    performs, shared by filename sanitising, integer parsing and form handling. */
module Text {

  /** The characters CPython treats as whitespace (`str.isspace()`, `str.strip()`
      with no argument, and the regular-expression class `\s` on `str` patterns). */
  predicate IsSpace(c: char) {
    || ('\U{9}' <= c <= '\U{D}')
    || ('\U{1C}' <= c <= '\U{1F}')
    || c == ' '
    || c == '\U{85}'
    || c == '\U{A0}'
    || c == '\U{1680}'
    || ('\U{2000}' <= c <= '\U{200A}')
    || c == '\U{2028}'
    || c == '\U{2029}'
    || c == '\U{202F}'
    || c == '\U{205F}'
    || c == '\U{3000}'
  }

  predicate AllSpace(s: string) {
    forall i :: 0 <= i < |s| ==> IsSpace(s[i])
  }

  /** Neither the first nor the last character is whitespace. */
  predicate Trimmed(s: string) {
    |s| == 0 || (!IsSpace(s[0]) && !IsSpace(s[|s| - 1]))
  }

  predicate IsAsciiLetter(c: char) {
    ('a' <= c <= 'z') || ('A' <= c <= 'Z')
  }

  predicate IsDigit(c: char) {
    '0' <= c <= '9'
  }

  predicate EndsWith(s: string, suffix: string) {
    |suffix| <= |s| && s[|s| - |suffix|..] == suffix
  }

  /** Number of whitespace characters at the front of `s`. */
  function LeadingSpaces(s: string): (n: nat)
    ensures n <= |s|
    ensures AllSpace(s[..n])
    ensures n < |s| ==> !IsSpace(s[n])
  {
    if |s| == 0 || !IsSpace(s[0]) then 0
    else
      var m := LeadingSpaces(s[1..]);
      assert s[1..][..m] == s[1..m + 1];
      1 + m
  }

  /** Python's `s.strip()`: whitespace is dropped from the front, then from
      the back, until neither end is whitespace. */
  function Strip(s: string): (r: string)
    ensures Trimmed(r)
    ensures AllSpace(s) <==> r == []
    ensures Trimmed(s) ==> r == s
    decreases |s|
  {
    if |s| > 0 && IsSpace(s[0]) then
      assert AllSpace(s) <==> AllSpace(s[1..]) by {
        if AllSpace(s[1..]) {
          assert forall i :: 1 <= i < |s| ==> s[i] == s[1..][i - 1];
        }
      }
      Strip(s[1..])
    else if |s| > 0 && IsSpace(s[|s| - 1]) then
      assert s[..|s| - 1][0] == s[0];
      Strip(s[..|s| - 1])
    else s
  }

  /** The stripped string is the window of `s` after its leading
      whitespace, and everything outside that window is whitespace. */
  lemma {:induction false} StripIsWindow(s: string)
    ensures IsWindow(s, Strip(s), LeadingSpaces(s))
    decreases |s|
  {
    if |s| > 0 && IsSpace(s[0]) {
      StripIsWindow(s[1..]);
      WindowAfterFront(s, Strip(s), LeadingSpaces(s[1..]));
    } else if |s| > 0 && IsSpace(s[|s| - 1]) {
      var t := s[..|s| - 1];
      StripIsWindow(t);
      NoLeadingSpaces(s);
      NoLeadingSpaces(t);
      WindowBeforeBack(s, Strip(s));
    } else {
      assert LeadingSpaces(s) == 0;
    }
  }

  lemma NoLeadingSpaces(s: string)
    requires |s| > 0 && !IsSpace(s[0])
    ensures LeadingSpaces(s) == 0
  {
  }

  /** `r` sits in `s` at `l` with only whitespace around it. */
  predicate IsWindow(s: string, r: string, l: nat) {
    && l + |r| <= |s|
    && r == s[l..l + |r|]
    && AllSpace(s[..l])
    && AllSpace(s[l + |r|..])
  }

  /** A window of `s[1..]` is one place further along in `s` when `s[0]` is whitespace. */
  lemma WindowAfterFront(s: string, r: string, l: nat)
    requires |s| > 0 && IsSpace(s[0])
    requires IsWindow(s[1..], r, l)
    ensures IsWindow(s, r, l + 1)
  {
    var u := s[1..];
    assert u[l..l + |r|] == s[l + 1..l + 1 + |r|];
    assert s[l + 1 + |r|..] == u[l + |r|..];
    assert forall i :: 1 <= i < l + 1 ==> s[i] == u[..l][i - 1];
  }

  /** A window of `s` without its last character is a window of `s` when that character is whitespace. */
  lemma WindowBeforeBack(s: string, r: string)
    requires |s| > 0 && IsSpace(s[|s| - 1])
    requires IsWindow(s[..|s| - 1], r, 0)
    ensures IsWindow(s, r, 0)
  {
    var t := s[..|s| - 1];
    assert t[0..|r|] == s[0..|r|];
    assert s[|r|..] == t[|r|..] + [s[|s| - 1]];
  }

  /** Whitespace around a trimmed string is exactly what `strip` removes. */
  lemma {:induction false} StripOfPadded(p: string, r: string, q: string)
    requires AllSpace(p) && AllSpace(q) && Trimmed(r)
    ensures Strip(p + r + q) == r
    decreases |p| + |q|
  {
    var x := p + r + q;
    if r == [] {
      assert x == p + q;
      AllSpaceConcat(p, q);
    } else if |p| > 0 {
      assert x[0] == p[0];
      assert x[1..] == p[1..] + r + q;
      assert AllSpace(p[1..]) by {
        forall i | 0 <= i < |p| - 1
          ensures IsSpace(p[1..][i])
        {
          assert p[1..][i] == p[i + 1];
        }
      }
      StripOfPadded(p[1..], r, q);
    } else if |q| > 0 {
      assert x == r + q;
      assert x[0] == r[0];
      assert x[|x| - 1] == q[|q| - 1];
      assert x[..|x| - 1] == [] + r + q[..|q| - 1];
      StripOfPadded([], r, q[..|q| - 1]);
    } else {
      assert x == r;
    }
  }

  /** `strip` ignores whitespace added on either side of its argument. */
  lemma StripPadded(a: string, s: string, b: string)
    requires AllSpace(a) && AllSpace(b)
    ensures Strip(a + s + b) == Strip(s)
  {
    StripIsWindow(s);
    var l := LeadingSpaces(s);
    var j := l + |Strip(s)|;
    Regroup(a, s, b, l, j);
    AllSpaceConcat(a, s[..l]);
    AllSpaceConcat(s[j..], b);
    StripOfPadded(a + s[..l], s[l..j], s[j..] + b);
  }

  lemma Regroup(a: string, s: string, b: string, i: nat, j: nat)
    requires i <= j <= |s|
    ensures a + s + b == (a + s[..i]) + s[i..j] + (s[j..] + b)
  {
    assert s == s[..i] + s[i..j] + s[j..];
  }

  lemma AllSpaceConcat(x: string, y: string)
    requires AllSpace(x) && AllSpace(y)
    ensures AllSpace(x + y)
  {
    forall i | 0 <= i < |x + y|
      ensures IsSpace((x + y)[i])
    {
      if i < |x| {
        assert (x + y)[i] == x[i];
      } else {
        assert (x + y)[i] == y[i - |x|];
      }
    }
  }

  /** Stripping twice is stripping once. */
  lemma StripIdempotent(s: string)
    ensures Strip(Strip(s)) == Strip(s)
  {
  }

  /** Every character of a window of `s` is a character of `s`. */
  lemma InWindow(s: string, i: nat, j: nat, c: char)
    requires i <= j <= |s|
    requires c in s[i..j]
    ensures c in s
  {
    var k :| 0 <= k < j - i && s[i..j][k] == c;
    assert s[i + k] == c;
  }
}
