/** Python's `int(s)` on a string, as `is_positive_int` (102303437.py) and
    `valid_int` (webapp/app.py) use it: surrounding whitespace, an optional
    sign, and decimal digits with single underscores between them. A string
    Python would refuse with ValueError parses to None. */
module IntParse {
  import opened Wrappers
  import opened Text

  function DigitValue(c: char): nat
    requires IsDigit(c)
  {
    c as int - '0' as int
  }

  function DigitChar(d: nat): (c: char)
    requires d < 10
    ensures IsDigit(c) && DigitValue(c) == d
  {
    ('0' as int + d) as char
  }

  predicate AllDigits(s: string) {
    forall i :: 0 <= i < |s| ==> IsDigit(s[i])
  }

  /** The digits of a decimal integer literal: it starts and ends with a
      digit, and every underscore is followed by a digit. */
  predicate IsDigitGroups(s: string) {
    && |s| > 0
    && IsDigit(s[0])
    && IsDigit(s[|s| - 1])
    && forall i :: 0 <= i < |s| ==> GroupChar(s, i)
  }

  /** Position `i` holds a digit, or an underscore with a digit after it. */
  predicate GroupChar(s: string, i: nat)
    requires i < |s|
  {
    IsDigit(s[i]) || (s[i] == '_' && i + 1 < |s| && IsDigit(s[i + 1]))
  }

  lemma GroupChars(s: string)
    requires IsDigitGroups(s)
    ensures forall i :: 0 <= i < |s| ==> IsDigit(s[i]) || s[i] == '_'
  {
    forall i | 0 <= i < |s|
      ensures IsDigit(s[i]) || s[i] == '_'
    {
      assert GroupChar(s, i);
    }
  }

  /** The digits of `s` with the underscores taken out. */
  function Digits(s: string): (ds: string)
    requires forall i :: 0 <= i < |s| ==> IsDigit(s[i]) || s[i] == '_'
    ensures AllDigits(ds)
    ensures AllDigits(s) ==> ds == s
  {
    if |s| == 0 then []
    else
      var init := s[..|s| - 1];
      assert forall i :: 0 <= i < |init| ==> init[i] == s[i];
      var ds' := Digits(init);
      assert AllDigits(s) ==> s == init + [s[|s| - 1]];
      if s[|s| - 1] == '_' then ds' else ds' + [s[|s| - 1]]
  }

  /** The number a string of decimal digits denotes. */
  function Value(ds: string): nat
    requires AllDigits(ds)
  {
    if |ds| == 0 then 0
    else
      var init := ds[..|ds| - 1];
      assert forall i :: 0 <= i < |init| ==> init[i] == ds[i];
      Value(init) * 10 + DigitValue(ds[|ds| - 1])
  }

  /** The number a digit-group body denotes. */
  function BodyValue(body: string): nat
    requires IsDigitGroups(body)
  {
    GroupChars(body);
    Value(Digits(body))
  }

  /** The ASCII information separators U+001C..U+001F. `str.strip` treats
      them as whitespace, but `int` does not: it skips only the ASCII blanks
      around a numeral (and the non-ASCII whitespace it first turns into
      spaces), so a separator anywhere in the text makes it raise. */
  predicate IsInfoSeparator(c: char) {
    '\U{1C}' <= c <= '\U{1F}'
  }

  predicate HasInfoSeparator(s: string) {
    exists i :: 0 <= i < |s| && IsInfoSeparator(s[i])
  }

  /** `int(s)`, with None where Python raises ValueError: the text is a
      numeral with whitespace around it, and no information separator. */
  function ParseInt(s: string): (r: Option<int>)
    ensures HasInfoSeparator(s) ==> r.None?
    ensures AllSpace(s) ==> r.None?
  {
    if HasInfoSeparator(s) then None else ParseNumeral(Strip(s))
  }

  /** A numeral without surrounding whitespace: an optional sign, then digit groups. */
  function ParseNumeral(t: string): (r: Option<int>)
    ensures t == [] ==> r.None?
  {
    if |t| > 0 && (t[0] == '+' || t[0] == '-') then
      var body := t[1..];
      if IsDigitGroups(body) then
        GroupChars(body);
        var v: int := if t[0] == '-' then 0 - BodyValue(body) else BodyValue(body);
        Some(v)
      else None
    else if IsDigitGroups(t) then
      GroupChars(t);
      Some(BodyValue(t))
    else None
  }

  /** What an accepted string looks like once stripped: a digit last, an
      optional sign first, and only digits and underscores in between; a
      negative result comes from a leading minus. */
  lemma ParseIntShape(s: string)
    requires ParseInt(s).Some?
    ensures !HasInfoSeparator(s)
    ensures |Strip(s)| > 0 && IsDigit(Strip(s)[|Strip(s)| - 1])
    ensures ParseInt(s).value < 0 ==> Strip(s)[0] == '-'
    ensures Strip(s)[0] == '-' ==> ParseInt(s).value <= 0
    ensures forall i :: 0 < i < |Strip(s)| ==> IsDigit(Strip(s)[i]) || Strip(s)[i] == '_'
  {
    var t := Strip(s);
    if t[0] == '+' || t[0] == '-' {
      var body := t[1..];
      GroupChars(body);
      assert forall i :: 0 < i < |t| ==> t[i] == body[i - 1];
    } else {
      GroupChars(t);
    }
  }

  /** `str(n)` for a natural number. */
  function NatString(n: nat): (ds: string)
    ensures |ds| > 0 && AllDigits(ds)
    ensures Value(ds) == n
  {
    if n < 10 then [DigitChar(n)]
    else
      var init := NatString(n / 10);
      var ds := init + [DigitChar(n % 10)];
      assert ds[..|ds| - 1] == init;
      ds
  }

  /** `str(k)` for an integer. */
  function Show(k: int): string {
    if k < 0 then "-" + NatString(-k) else NatString(k)
  }

  /** Parsing what Python prints for an integer gives that integer back. */
  lemma ParseShow(k: int)
    ensures ParseInt(Show(k)) == Some(k)
  {
    var t := Show(k);
    ShowTrimmed(k);
    ShowHasNoSeparator(k);
    assert Strip(t) == t;
    if k < 0 {
      var ds := NatString(-k);
      DigitsAreGroups(ds);
      assert t[0] == '-' && t[1..] == ds;
      assert BodyValue(ds) == -k;
    } else {
      var ds := NatString(k);
      DigitsAreGroups(ds);
      assert t == ds && t[0] != '-' && t[0] != '+';
      assert BodyValue(ds) == k;
    }
  }

  lemma ShowHasNoSeparator(k: int)
    ensures !HasInfoSeparator(Show(k))
  {
    var t := Show(k);
    forall i | 0 <= i < |t|
      ensures !IsInfoSeparator(t[i])
    {
      if k < 0 {
        assert t[i] == '-' || t[i] == NatString(-k)[i - 1];
      }
    }
  }

  /** A plain run of digits is a single digit group. */
  lemma DigitsAreGroups(ds: string)
    requires |ds| > 0 && AllDigits(ds)
    ensures IsDigitGroups(ds)
  {
    forall i | 0 <= i < |ds|
      ensures GroupChar(ds, i)
    {
    }
  }

  lemma ShowTrimmed(k: int)
    ensures Trimmed(Show(k))
  {
    var n := if k < 0 then -k else k;
    var ds := NatString(n);
    var t := Show(k);
    assert t[|t| - 1] == ds[|ds| - 1];
    assert t[0] == '-' || t[0] == ds[0];
  }

  /** A parse result that is a number above zero. */
  predicate Positive(v: Option<int>) {
    match v
    case Some(k) => k > 0
    case None => false
  }

  /** `is_positive_int`: `int(s) > 0`, false wherever `int` raises. A
      string that passes is, once stripped, a numeral ending in a digit and
      without a minus sign. */
  predicate IsPositiveInt(s: string): (b: bool)
    ensures b <==> Positive(ParseInt(s))
    ensures b ==> !HasInfoSeparator(s) && |Strip(s)| > 0 && Strip(s)[0] != '-'
    ensures b ==> IsDigit(Strip(s)[|Strip(s)| - 1])
  {
    if ParseInt(s).Some? then
      ParseIntShape(s);
      ParseInt(s).value > 0
    else false
  }

  /** Exactly the printed form of a positive number passes the positivity check. */
  lemma IsPositiveIntShow(k: int)
    ensures IsPositiveInt(Show(k)) <==> k > 0
  {
    ParseShow(k);
  }

  /** `int` reads the stripped text, unless the text holds an information
      separator, which it refuses wherever it stands. */
  lemma ParseIgnoresPadding(s: string)
    ensures ParseInt(s) == if HasInfoSeparator(s) then None else ParseInt(Strip(s))
  {
    if !HasInfoSeparator(s) {
      StripIsWindow(s);
      var l := LeadingSpaces(s);
      var t := Strip(s);
      forall i | 0 <= i < |t|
        ensures !IsInfoSeparator(t[i])
      {
        assert t[i] == s[l + i];
      }
      StripIdempotent(s);
    }
  }

  /** Whitespace other than the information separators, added around any
      text, does not change what `int` makes of it. */
  lemma ParseIntPadded(a: string, s: string, b: string)
    requires AllSpace(a) && AllSpace(b)
    requires !HasInfoSeparator(a) && !HasInfoSeparator(b)
    ensures ParseInt(a + s + b) == ParseInt(s)
  {
    StripPadded(a, s, b);
    SeparatorIn(a, s, b);
  }

  lemma SeparatorIn(a: string, s: string, b: string)
    requires !HasInfoSeparator(a) && !HasInfoSeparator(b)
    ensures HasInfoSeparator(a + s + b) <==> HasInfoSeparator(s)
  {
    var x := a + s + b;
    if HasInfoSeparator(x) {
      forall j | 0 <= j < |a|
        ensures x[j] == a[j]
      {
      }
      forall j | 0 <= j < |b|
        ensures x[|a| + |s| + j] == b[j]
      {
      }
      var i :| 0 <= i < |x| && IsInfoSeparator(x[i]);
      if |a| <= i < |a| + |s| {
        assert x[i] == s[i - |a|];
      }
    }
    if HasInfoSeparator(s) {
      var i :| 0 <= i < |s| && IsInfoSeparator(s[i]);
      assert x[|a| + i] == s[i];
    }
  }

  /** `str.strip` removes a leading U+001C, but `int` refuses it. */
  lemma ParseRefusesSeparatorPadding()
    ensures Strip("\U{1C}5") == "5"
    ensures ParseInt("\U{1C}5") == None
  {
    var s := "\U{1C}5";
    assert IsSpace(s[0]) && IsInfoSeparator(s[0]);
    assert s[1..] == "5";
    assert Trimmed("5");
  }

  lemma ParseTen()
    ensures ParseInt("10") == Some(10)
  {
    ParseShow(10);
    assert Show(10) == "10";
  }

  /** A leading plus sign is accepted. */
  lemma ParsePlusSign()
    ensures ParseInt("+12") == Some(12)
  {
    PlusGroups();
    PlusBody();
    assert "+12"[0] == '+';
  }

  lemma PlusGroups()
    ensures Strip("+12") == "+12" && "+12"[1..] == "12" && IsDigitGroups("12")
    ensures !HasInfoSeparator("+12")
  {
    var b := "12";
    assert Trimmed("+12");
    NoSeparatorIn3("+12");
    forall i | 0 <= i < |b|
      ensures GroupChar(b, i)
    {
      assert i == 0 || i == 1;
    }
  }

  lemma PlusBody()
    requires IsDigitGroups("12")
    ensures BodyValue("12") == 12
  {
    var b := "12";
    GroupChars(b);
    assert Digits(b) == b;
    assert Value(b) == 12 by {
      assert b[..1] == "1";
      assert "1"[..0] == "";
      assert Value("1") == 1;
    }
  }

  /** A single underscore between digits is accepted. */
  lemma ParseUnderscore()
    ensures ParseInt("1_0") == Some(10)
  {
    UnderscoreGroups();
    UnderscoreBody();
    assert "1_0"[0] == '1';
  }

  lemma UnderscoreGroups()
    ensures IsDigitGroups("1_0") && Strip("1_0") == "1_0"
    ensures !HasInfoSeparator("1_0")
  {
    var g := "1_0";
    assert Trimmed(g);
    NoSeparatorIn3(g);
    forall i | 0 <= i < |g|
      ensures GroupChar(g, i)
    {
      assert i == 0 || i == 1 || i == 2;
    }
  }

  lemma NoSeparatorIn3(s: string)
    requires |s| == 3 && !IsInfoSeparator(s[0]) && !IsInfoSeparator(s[1]) && !IsInfoSeparator(s[2])
    ensures !HasInfoSeparator(s)
  {
    forall i | 0 <= i < 3
      ensures !IsInfoSeparator(s[i])
    {
      assert i == 0 || i == 1 || i == 2;
    }
  }

  lemma UnderscoreBody()
    requires IsDigitGroups("1_0")
    ensures BodyValue("1_0") == 10
  {
    var g := "1_0";
    GroupChars(g);
    assert Digits(g) == "10" by {
      assert "1_"[..1] == "1";
      assert g[..2] == "1_";
    }
    assert Value("10") == 10 by {
      assert "10"[..1] == "1";
    }
  }

  /** Text that is not a number, and the empty string, are refused. */
  lemma ParseRefusesText()
    ensures ParseInt("") == None
    ensures ParseInt("abc") == None
  {
    ParseRefusesEmpty();
    assert Trimmed("abc");
    assert Strip("abc") == "abc";
    assert !IsDigit("abc"[0]);
  }

  lemma ParseRefusesEmpty()
    ensures ParseInt("") == None
  {
    assert AllSpace("");
    assert Strip("") == [];
  }

  /** Doubled and leading underscores are refused. */
  lemma ParseRefusesLooseUnderscores()
    ensures ParseInt("1__0") == None
    ensures ParseInt("_1") == None
  {
    assert Trimmed("1__0");
    assert !GroupChar("1__0", 1);
    assert Trimmed("_1");
  }

  /** A decimal point is refused. */
  lemma ParseRefusesDecimalPoint()
    ensures ParseInt("2.5") == None
  {
    assert Trimmed("2.5");
    assert !GroupChar("2.5", 1);
  }

  /** A two-digit numeral is already stripped and parses to its value. */
  lemma TwoDigitText(k: nat, text: string)
    requires 10 <= k < 100 && text == [DigitChar(k / 10), DigitChar(k % 10)]
    ensures Strip(text) == text && ParseInt(text) == Some(k)
  {
    ShowTrimmed(k);
    ParseShow(k);
    assert NatString(k / 10) == [DigitChar(k / 10)];
    assert Show(k) == text;
  }

  /** A three-digit numeral is already stripped and parses to its value. */
  lemma ThreeDigitText(k: nat, text: string)
    requires 100 <= k < 1000 && text == [DigitChar(k / 100), DigitChar(k / 10 % 10), DigitChar(k % 10)]
    ensures Strip(text) == text && ParseInt(text) == Some(k)
  {
    ShowTrimmed(k);
    ParseShow(k);
    assert NatString(k / 100) == [DigitChar(k / 100)];
    assert NatString(k / 10) == [DigitChar(k / 100), DigitChar(k / 10 % 10)];
    assert Show(k) == text;
  }
}
