/** The address check of the web form: `EMAIL_RE.match(email)` for
    `EMAIL_RE = ^[A-Za-z0-9._%+\-]+@[A-Za-z0-9.\-]+\.[A-Za-z]{2,}$`. */
module Email {
  import opened Wrappers
  import opened Text

  /** The local-part class `[A-Za-z0-9._%+\-]`. */
  predicate IsLocalChar(c: char) {
    IsAsciiLetter(c) || IsDigit(c) || c == '.' || c == '_' || c == '%' || c == '+' || c == '-'
  }

  /** The domain class `[A-Za-z0-9.\-]`. */
  predicate IsDomainChar(c: char) {
    IsAsciiLetter(c) || IsDigit(c) || c == '.' || c == '-'
  }

  /** The regular expression read as a language: `s` is a non-empty local
      part, `@` at `at`, a non-empty domain run, `.` at `dot`, and two or more
      letters. */
  predicate SplitsAt(s: string, at: nat, dot: nat) {
    && 0 < at
    && at + 1 < dot
    && dot + 2 < |s|
    && s[at] == '@'
    && s[dot] == '.'
    && (forall i :: 0 <= i < at ==> IsLocalChar(s[i]))
    && (forall i :: at < i < dot ==> IsDomainChar(s[i]))
    && (forall i :: dot < i < |s| ==> IsAsciiLetter(s[i]))
  }

  ghost predicate RegexMatches(s: string) {
    exists at: nat, dot: nat :: SplitsAt(s, at, dot)
  }

  /** Position of the first `c` in `s`. */
  function IndexOf(s: string, c: char): (r: Option<nat>)
    ensures r.Some? ==> r.value < |s| && s[r.value] == c && forall i :: 0 <= i < r.value ==> s[i] != c
    ensures r.None? ==> forall i :: 0 <= i < |s| ==> s[i] != c
  {
    if |s| == 0 then None
    else if s[0] == c then Some(0)
    else
      match IndexOf(s[1..], c)
      case None => None
      case Some(i) => Some(i + 1)
  }

  /** Position of the last `c` in `s`. */
  function LastIndexOf(s: string, c: char): (r: Option<nat>)
    ensures r.Some? ==> r.value < |s| && s[r.value] == c && forall i :: r.value < i < |s| ==> s[i] != c
    ensures r.None? ==> forall i :: 0 <= i < |s| ==> s[i] != c
  {
    if |s| == 0 then None
    else if s[|s| - 1] == c then Some(|s| - 1)
    else LastIndexOf(s[..|s| - 1], c)
  }

  /** The address check computed directly: everything before the first `@`
      is a non-empty local part, everything after it is domain characters,
      and the last `.` has a domain character before it and two or more
      letters after it. */
  predicate IsEmail(s: string) {
    match IndexOf(s, '@')
    case None => false
    case Some(at) =>
      match LastIndexOf(s, '.')
      case None => false
      case Some(dot) =>
        && 0 < at
        && at + 1 < dot
        && dot + 2 < |s|
        && (forall i :: 0 <= i < at ==> IsLocalChar(s[i]))
        && (forall i :: at < i < |s| ==> IsDomainChar(s[i]))
        && (forall i :: dot < i < |s| ==> IsAsciiLetter(s[i]))
  }

  /** The direct check accepts exactly the strings of the regular expression. */
  lemma IsEmailIffRegex(s: string)
    ensures IsEmail(s) <==> RegexMatches(s)
  {
    if IsEmail(s) {
      var at := IndexOf(s, '@').value;
      var dot := LastIndexOf(s, '.').value;
      assert SplitsAt(s, at, dot);
    }
    if RegexMatches(s) {
      var at: nat, dot: nat :| SplitsAt(s, at, dot);
      assert IndexOf(s, '@') == Some(at);
      assert LastIndexOf(s, '.') == Some(dot);
      forall i | at < i < |s|
        ensures IsDomainChar(s[i])
      {
        if dot < i {
          assert IsAsciiLetter(s[i]);
        }
      }
    }
  }

  /** An accepted address has exactly one `@`, with something before it;
      its last dot is followed by at least two letters, and it is at least
      six characters long, as `a@b.cc` is. */
  lemma EmailShape(s: string)
    requires IsEmail(s)
    ensures exists at :: 0 < at < |s| && s[at] == '@'
    ensures forall i, j :: 0 <= i < j < |s| && s[i] == '@' ==> s[j] != '@'
    ensures LastIndexOf(s, '.').Some? && |s| - LastIndexOf(s, '.').value >= 3
    ensures forall i :: LastIndexOf(s, '.').value < i < |s| ==> IsAsciiLetter(s[i])
    ensures |s| >= 6
  {
    var at := IndexOf(s, '@').value;
    assert s[at] == '@';
  }

  /** `EMAIL_RE.match(s)`: the pattern is anchored at the start by `match`,
      and its `$` also matches just before a final newline. */
  predicate MatchesEmailRe(s: string): (b: bool)
    ensures b <==> || RegexMatches(s)
                   || (|s| > 0 && s[|s| - 1] == '\n' && RegexMatches(s[..|s| - 1]))
  {
    IsEmailIffRegex(s);
    if |s| > 0 && s[|s| - 1] == '\n' then
      IsEmailIffRegex(s[..|s| - 1]);
      IsEmail(s) || IsEmail(s[..|s| - 1])
    else
      IsEmail(s)
  }

  /** On a stripped string, as the form handler passes, the trailing-newline
      allowance never applies. */
  lemma MatchesEmailReTrimmed(s: string)
    requires Trimmed(s)
    ensures MatchesEmailRe(s) <==> RegexMatches(s)
  {
    IsEmailIffRegex(s);
  }

  /** A few addresses as the pattern treats them. */
  lemma EmailExamples()
    ensures IsEmail("a@b.cc")
    ensures !IsEmail("a@b.c")
    ensures !IsEmail("@b.cc")
    ensures !IsEmail("a@.cc")
    ensures !IsEmail("a@b@c.cc")
  {
    assert IndexOf("a@b.cc", '@') == Some(1);
    assert LastIndexOf("a@b.cc", '.') == Some(3);
    assert LastIndexOf("a@b.c", '.') == Some(3);
    assert IndexOf("@b.cc", '@') == Some(0);
    assert IndexOf("a@.cc", '@') == Some(1);
    assert LastIndexOf("a@.cc", '.') == Some(2);
    assert IndexOf("a@b@c.cc", '@') == Some(1);
    assert !IsDomainChar("a@b@c.cc"[3]);
  }
}
