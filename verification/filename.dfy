/** `sanitize_filename` (identical in 102303437.py and webapp/mashup.py) and the
    `.mp3` suffixing the command-line driver applies to its output name. */
module Filename {
  import opened Text

  /** The characters the sanitiser refuses in a file name: \ / : * ? " < > | */
  predicate IsForbidden(c: char) {
    c == '\\' || c == '/' || c == ':' || c == '*' || c == '?' || c == '"' || c == '<' || c == '>' || c == '|'
  }

  predicate NoForbidden(s: string) {
    forall i :: 0 <= i < |s| ==> !IsForbidden(s[i])
  }

  /** The two character classes whose runs the sanitiser collapses. */
  datatype CharClass = Forbidden | Whitespace

  predicate InClass(k: CharClass, c: char) {
    match k
    case Forbidden => IsForbidden(c)
    case Whitespace => IsSpace(c)
  }

  /** What one run of the class is replaced by. */
  function Replacement(k: CharClass): char {
    match k
    case Forbidden => '_'
    case Whitespace => ' '
  }

  /** Every class-`k` character of `s` is the replacement character, and no
      class-`k` character follows it. */
  predicate Squeezed(s: string, k: CharClass) {
    forall i :: 0 <= i < |s| && InClass(k, s[i]) ==>
      s[i] == Replacement(k) && (i + 1 < |s| ==> !InClass(k, s[i + 1]))
  }

  predicate NoneInClass(s: string, k: CharClass) {
    forall i :: 0 <= i < |s| ==> !InClass(k, s[i])
  }

  /** The left-to-right scan behind `re.sub(<class>+, <replacement>, s)`;
      `inRun` says whether the character just before `s` was of the class,
      so that its run has already been replaced. */
  function SqueezeFrom(s: string, k: CharClass, inRun: bool): (r: string)
    ensures |r| <= |s|
  {
    if |s| == 0 then []
    else if !InClass(k, s[0]) then [s[0]] + SqueezeFrom(s[1..], k, false)
    else if inRun then SqueezeFrom(s[1..], k, true)
    else [Replacement(k)] + SqueezeFrom(s[1..], k, true)
  }

  /** `re.sub(<class>+, <replacement>, s)`: every maximal run of class-`k`
      characters becomes a single replacement character. */
  function Squeeze(s: string, k: CharClass): string {
    SqueezeFrom(s, k, false)
  }

  /** Whether the scan is inside a run after reading `s`. */
  function StateAfter(s: string, k: CharClass, inRun: bool): bool {
    if |s| == 0 then inRun else InClass(k, s[|s| - 1])
  }

  /** The scan of a concatenation is the scan of the first part followed by
      the scan of the second part, started in the state the first part left. */
  lemma {:induction false} SqueezeFromAppend(x: string, y: string, k: CharClass, inRun: bool)
    ensures SqueezeFrom(x + y, k, inRun) == SqueezeFrom(x, k, inRun) + SqueezeFrom(y, k, StateAfter(x, k, inRun))
    decreases |x|
  {
    if x == [] {
      assert x + y == y;
    } else {
      var next := InClass(k, x[0]);
      var e := Emit(x[0], k, inRun);
      assert (x + y)[0] == x[0];
      assert (x + y)[1..] == x[1..] + y;
      SqueezeFromStep(x + y, k, inRun);
      SqueezeFromStep(x, k, inRun);
      SqueezeFromAppend(x[1..], y, k, next);
      assert StateAfter(x[1..], k, next) == StateAfter(x, k, inRun);
      var a := SqueezeFrom(x[1..], k, next);
      var b := SqueezeFrom(y, k, StateAfter(x, k, inRun));
      assert e + (a + b) == (e + a) + b;
    }
  }

  /** What the scan writes for one character `c`, given the state before it. */
  function Emit(c: char, k: CharClass, inRun: bool): string {
    if !InClass(k, c) then [c] else if inRun then [] else [Replacement(k)]
  }

  /** One step of the scan: the first character's output, then the scan of
      the rest in the state that character leaves. */
  lemma SqueezeFromStep(s: string, k: CharClass, inRun: bool)
    requires |s| > 0
    ensures SqueezeFrom(s, k, inRun) == Emit(s[0], k, inRun) + SqueezeFrom(s[1..], k, InClass(k, s[0]))
  {
  }

  /** A character outside the class ends any run, so the starting state no
      longer matters. */
  lemma SqueezeFromReset(s: string, k: CharClass)
    requires s == [] || !InClass(k, s[0])
    ensures SqueezeFrom(s, k, true) == SqueezeFrom(s, k, false)
  {
  }

  /** A whole run yields one replacement, or nothing if the run was already
      entered. */
  lemma {:induction false} SqueezeFromRun(run: string, k: CharClass, inRun: bool)
    requires |run| > 0 && forall i :: 0 <= i < |run| ==> InClass(k, run[i])
    ensures SqueezeFrom(run, k, inRun) == if inRun then [] else [Replacement(k)]
    decreases |run|
  {
    if |run| > 1 {
      SqueezeFromRun(run[1..], k, true);
    }
  }

  /** Each maximal run of class-`k` characters becomes exactly one
      replacement character, and the text on either side is squeezed on its own. */
  lemma RunBecomesOneReplacement(a: string, run: string, b: string, k: CharClass)
    requires a == [] || !InClass(k, a[|a| - 1])
    requires |run| > 0 && forall i :: 0 <= i < |run| ==> InClass(k, run[i])
    requires b == [] || !InClass(k, b[0])
    ensures Squeeze(a + run + b, k) == Squeeze(a, k) + [Replacement(k)] + Squeeze(b, k)
  {
    var sa := SqueezeFrom(a, k, false);
    var sb := SqueezeFrom(b, k, false);
    var rep := [Replacement(k)];
    SqueezeFromRun(run, k, false);
    SqueezeFromReset(b, k);
    SqueezeFromAppend(run, b, k, false);
    assert StateAfter(run, k, false);
    assert SqueezeFrom(run + b, k, false) == rep + sb;
    SqueezeFromAppend(a, run + b, k, false);
    assert !StateAfter(a, k, false);
    assert a + run + b == a + (run + b);
    assert Squeeze(a + run + b, k) == sa + (rep + sb);
    assert sa + (rep + sb) == sa + rep + sb;
  }

  /** The result of the scan is squeezed; started inside a run it does not
      begin with a class character; and each of its characters is the
      replacement or a character of the input outside the class. */
  lemma {:induction false} SqueezeShape(s: string, k: CharClass, inRun: bool)
    ensures Squeezed(SqueezeFrom(s, k, inRun), k)
    ensures inRun && |SqueezeFrom(s, k, inRun)| > 0 ==> !InClass(k, SqueezeFrom(s, k, inRun)[0])
    ensures forall i :: 0 <= i < |SqueezeFrom(s, k, inRun)| ==>
      SqueezeFrom(s, k, inRun)[i] == Replacement(k)
      || (!InClass(k, SqueezeFrom(s, k, inRun)[i]) && SqueezeFrom(s, k, inRun)[i] in s)
    decreases |s|
  {
    if |s| > 0 {
      var r := SqueezeFrom(s, k, inRun);
      var next := InClass(k, s[0]);
      SqueezeShape(s[1..], k, next);
      var q := SqueezeFrom(s[1..], k, next);
      forall i | 0 <= i < |q|
        ensures q[i] in s[1..] ==> q[i] in s
      {
        if q[i] in s[1..] {
          InWindow(s, 1, |s|, q[i]);
        }
      }
      if next && inRun {
        assert r == q;
      } else {
        assert r == [r[0]] + q;
        forall i | 0 <= i < |r|
          ensures r[i] == Replacement(k) || (!InClass(k, r[i]) && r[i] in s)
          ensures InClass(k, r[i]) ==> r[i] == Replacement(k) && (i + 1 < |r| ==> !InClass(k, r[i + 1]))
        {
          if i > 0 {
            assert r[i] == q[i - 1];
          } else if InClass(k, r[0]) && 1 < |r| {
            assert r[1] == q[0];
          }
        }
      }
    }
  }

  /** A string that is already squeezed comes back unchanged. */
  lemma {:induction false} SqueezeFixesSqueezed(s: string, k: CharClass)
    requires Squeezed(s, k)
    ensures Squeeze(s, k) == s
    decreases |s|
  {
    if |s| > 0 {
      assert Squeezed(s[1..], k) by {
        forall i | 0 <= i < |s[1..]| && InClass(k, s[1..][i])
          ensures s[1..][i] == Replacement(k) && (i + 1 < |s[1..]| ==> !InClass(k, s[1..][i + 1]))
        {
          assert s[1..][i] == s[i + 1];
        }
      }
      SqueezeFixesSqueezed(s[1..], k);
      if InClass(k, s[0]) {
        SqueezeFromReset(s[1..], k);
      }
      assert s == [s[0]] + s[1..];
    }
  }

  /** Squeezing is idempotent. */
  lemma SqueezeIdempotent(s: string, k: CharClass)
    ensures Squeeze(Squeeze(s, k), k) == Squeeze(s, k)
  {
    SqueezeShape(s, k, false);
    SqueezeFixesSqueezed(Squeeze(s, k), k);
  }

  /** A character outside the class always survives the scan. */
  lemma {:induction false} SqueezeKeepsOthers(s: string, k: CharClass, inRun: bool, i: nat)
    requires i < |s| && !InClass(k, s[i])
    ensures s[i] in SqueezeFrom(s, k, inRun)
    decreases |s|
  {
    if i > 0 {
      assert s[i] == s[1..][i - 1];
      SqueezeKeepsOthers(s[1..], k, InClass(k, s[0]), i - 1);
    }
  }

  /** Outside a run, any class character of the input shows up as a
      replacement character in the output. */
  lemma {:induction false} SqueezeMarksRuns(s: string, k: CharClass, i: nat)
    requires i < |s| && InClass(k, s[i])
    ensures Replacement(k) in Squeeze(s, k)
    decreases |s|
  {
    if !InClass(k, s[0]) {
      assert s[i] == s[1..][i - 1];
      SqueezeMarksRuns(s[1..], k, i - 1);
    }
  }

  /** Input without class characters is left unchanged. */
  lemma {:induction false} SqueezeNoneInClass(s: string, k: CharClass, inRun: bool)
    requires NoneInClass(s, k)
    ensures SqueezeFrom(s, k, inRun) == s
    decreases |s|
  {
    if |s| > 0 {
      assert NoneInClass(s[1..], k) by {
        assert forall i :: 0 <= i < |s[1..]| ==> s[1..][i] == s[i + 1];
      }
      SqueezeNoneInClass(s[1..], k, false);
      assert s == [s[0]] + s[1..];
    }
  }

  /** Squeezing neither creates nor removes the only-whitespace shape. */
  lemma SqueezeBlank(s: string, k: CharClass)
    ensures AllSpace(Squeeze(s, k)) <==> AllSpace(s)
  {
    var r := Squeeze(s, k);
    if !AllSpace(s) {
      var i :| 0 <= i < |s| && !IsSpace(s[i]);
      if InClass(k, s[i]) {
        assert k == Forbidden;
        SqueezeMarksRuns(s, k, i);
      } else {
        SqueezeKeepsOthers(s, k, false, i);
      }
    } else if k == Forbidden {
      SqueezeNoneInClass(s, k, false);
    } else {
      SqueezeShape(s, k, false);
      forall i | 0 <= i < |r|
        ensures IsSpace(r[i])
      {
        if r[i] != Replacement(k) {
          assert r[i] in s;
        }
      }
    }
  }

  /** The placeholder `sanitize_filename` returns when nothing is left. */
  const Fallback: string := "output"

  /** The two substitutions and the strips of `sanitize_filename`, before the
      fallback to the placeholder. */
  function Clean(name: string): string {
    Strip(Squeeze(Squeeze(Strip(name), Forbidden), Whitespace))
  }

  /** The shape every sanitised name has. */
  predicate IsCleanName(s: string) {
    s != [] && NoForbidden(s) && Trimmed(s) && Squeezed(s, Whitespace)
  }

  lemma CleanIsClean(name: string)
    ensures NoForbidden(Clean(name))
    ensures Trimmed(Clean(name))
    ensures Squeezed(Clean(name), Whitespace)
  {
    var s1 := Squeeze(Strip(name), Forbidden);
    var s2 := Squeeze(s1, Whitespace);
    ForbiddenSqueezed(Strip(name));
    SpacesSqueezedKeepNoForbidden(s1);
    var l := LeadingSpaces(s2);
    var c := Strip(s2);
    StripIsWindow(s2);
    WindowKeepsShape(s2, l, l + |c|);
  }

  lemma ForbiddenSqueezed(s: string)
    ensures NoForbidden(Squeeze(s, Forbidden))
  {
    var s1 := Squeeze(s, Forbidden);
    SqueezeShape(s, Forbidden, false);
    forall i | 0 <= i < |s1|
      ensures !IsForbidden(s1[i])
    {
      assert !InClass(Forbidden, s1[i]);
    }
  }

  lemma SpacesSqueezedKeepNoForbidden(s1: string)
    requires NoForbidden(s1)
    ensures NoForbidden(Squeeze(s1, Whitespace))
    ensures Squeezed(Squeeze(s1, Whitespace), Whitespace)
  {
    var s2 := Squeeze(s1, Whitespace);
    SqueezeShape(s1, Whitespace, false);
    forall i | 0 <= i < |s2|
      ensures !IsForbidden(s2[i])
    {
      if s2[i] != ' ' {
        var j :| 0 <= j < |s1| && s1[j] == s2[i];
      }
    }
  }

  lemma WindowKeepsShape(s: string, i: nat, j: nat)
    requires i <= j <= |s|
    requires NoForbidden(s) && Squeezed(s, Whitespace)
    ensures NoForbidden(s[i..j]) && Squeezed(s[i..j], Whitespace)
  {
    assert forall m :: 0 <= m < j - i ==> s[i..j][m] == s[i + m];
  }

  /** `sanitize_filename`: forbidden-character runs become `_`, whitespace runs
      become one space, the ends are stripped, and an empty result becomes the
      placeholder. */
  function Sanitize(name: string): (r: string)
    ensures r != []
    ensures NoForbidden(r)
    ensures Trimmed(r)
    ensures Squeezed(r, Whitespace)
  {
    CleanIsClean(name);
    var c := Clean(name);
    if c == [] then FallbackIsClean(); Fallback else c
  }

  lemma FallbackIsClean()
    ensures IsCleanName(Fallback)
  {
    assert Fallback == ['o', 'u', 't', 'p', 'u', 't'];
  }

  /** A name that already has the sanitised shape is returned unchanged. */
  lemma SanitizeFixesClean(s: string)
    requires IsCleanName(s)
    ensures Sanitize(s) == s
  {
    assert Squeezed(s, Forbidden);
    SqueezeFixesSqueezed(s, Forbidden);
    SqueezeFixesSqueezed(s, Whitespace);
  }

  /** Sanitising twice is sanitising once. */
  lemma SanitizeIdempotent(name: string)
    ensures Sanitize(Sanitize(name)) == Sanitize(name)
  {
    SanitizeFixesClean(Sanitize(name));
  }

  /** Cleaning leaves nothing exactly when the name is empty or all
      whitespace, and then the placeholder is returned. */
  lemma SanitizeBlank(name: string)
    ensures Clean(name) == [] <==> AllSpace(name)
    ensures AllSpace(name) ==> Sanitize(name) == Fallback
  {
    var s0 := Strip(name);
    var s1 := Squeeze(s0, Forbidden);
    SqueezeBlank(s0, Forbidden);
    SqueezeBlank(s1, Whitespace);
  }

  /** Python's `str.lower()` on the characters that can lower to one of
      `.mp3`; no other character lowers to `m`, `p`, `3` or `.`. */
  function LowerAscii(c: char): char {
    if 'A' <= c <= 'Z' then (c as int + 32) as char else c
  }

  /** `name.lower().endswith(".mp3")` */
  predicate HasMp3Suffix(name: string) {
    && |name| >= 4
    && name[|name| - 4] == '.'
    && LowerAscii(name[|name| - 3]) == 'm'
    && LowerAscii(name[|name| - 2]) == 'p'
    && name[|name| - 1] == '3'
  }

  /** The output-name step of the command-line driver: append `.mp3` unless
      the name already ends with it in any letter case. */
  function WithMp3Suffix(name: string): (r: string)
    ensures HasMp3Suffix(r)
    ensures |name| <= |r| && r[..|name|] == name
    ensures r == name <==> HasMp3Suffix(name)
    ensures r != name ==> r[|name|..] == ".mp3"
  {
    if HasMp3Suffix(name) then name else name + ".mp3"
  }

  /** Suffixing twice is suffixing once. */
  lemma WithMp3SuffixIdempotent(name: string)
    ensures WithMp3Suffix(WithMp3Suffix(name)) == WithMp3Suffix(name)
  {
  }

  /** Suffixing keeps a sanitised name sanitised: still non-empty, free of
      forbidden characters, trimmed and with single spaces. */
  lemma WithMp3SuffixKeepsClean(name: string)
    requires IsCleanName(name)
    ensures IsCleanName(WithMp3Suffix(name))
  {
    var r := WithMp3Suffix(name);
    if r != name {
      assert r == name + ".mp3";
      forall i | 0 <= i < |r|
        ensures !IsForbidden(r[i]) && (IsSpace(r[i]) ==> i < |name| - 1)
      {
        if i < |name| {
          assert r[i] == name[i];
        } else {
          assert r[i] == ".mp3"[i - |name|];
        }
      }
    }
  }
}
