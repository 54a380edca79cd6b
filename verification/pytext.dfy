/**
 * The two pieces of Python's string handling that account registration relies
 * on: `str.strip()` with no argument, and `int(text)` in base 10.
 */
module PyText {
  import opened Options

  /** The code points Python's `str.isspace()` accepts. */
  const Whitespace: set<char> := {
    '\t', '\n', '\U{0B}', '\U{0C}', '\r', '\U{1C}', '\U{1D}', '\U{1E}', '\U{1F}', ' ',
    '\U{85}', '\U{A0}', '\U{1680}',
    '\U{2000}', '\U{2001}', '\U{2002}', '\U{2003}', '\U{2004}', '\U{2005}',
    '\U{2006}', '\U{2007}', '\U{2008}', '\U{2009}', '\U{200A}',
    '\U{2028}', '\U{2029}', '\U{202F}', '\U{205F}', '\U{3000}'
  }

  /**
   * The characters `int()` skips around its digits. An ASCII text reaches
   * the digit parser unchanged, and that parser skips only tab, line feed,
   * vertical tab, form feed, carriage return and space; other whitespace is
   * first mapped to a space. So the four ASCII separators U+001C to U+001F,
   * which `str.isspace()` accepts, are not skipped.
   */
  const IntWhitespace: set<char> := Whitespace - {'\U{1C}', '\U{1D}', '\U{1E}', '\U{1F}'}

  /** Python's `str.isspace()` on one character. */
  predicate IsSpace(c: char) {
    c in Whitespace
  }

  /** Every character of `s` is whitespace (true of the empty string). */
  predicate AllSpace(s: string) {
    AllIn(Whitespace, s)
  }

  /** Every character of `s` is in `ws`. */
  predicate AllIn(ws: set<char>, s: string) {
    forall i :: 0 <= i < |s| ==> s[i] in ws
  }

  /** The first index at or after `i` that holds a character outside `ws`, or `|s|` if there is none. */
  function SkipSpaces(ws: set<char>, s: string, i: nat): (k: nat)
    requires i <= |s|
    ensures i <= k <= |s|
    ensures forall j :: i <= j < k ==> s[j] in ws
    ensures k < |s| ==> s[k] !in ws
    decreases |s| - i
  {
    if i < |s| && s[i] in ws then SkipSpaces(ws, s, i + 1) else i
  }

  /** Walking back from `j`, but not below `lo`: the end of `s[lo..j]` once its trailing `ws` characters are dropped. */
  function SkipSpacesBack(ws: set<char>, s: string, lo: nat, j: nat): (k: nat)
    requires lo <= j <= |s|
    ensures lo <= k <= j
    ensures forall m :: k <= m < j ==> s[m] in ws
    ensures k > lo ==> s[k - 1] !in ws
    decreases j
  {
    if j > lo && s[j - 1] in ws then SkipSpacesBack(ws, s, lo, j - 1) else j
  }

  /** Where the text kept by trimming `ws` from both ends starts. */
  function TrimStart(ws: set<char>, s: string): nat
    ensures TrimStart(ws, s) <= |s|
  {
    SkipSpaces(ws, s, 0)
  }

  /** Where the text kept by trimming `ws` from both ends ends (exclusive). */
  function TrimEnd(ws: set<char>, s: string): nat
    ensures TrimStart(ws, s) <= TrimEnd(ws, s) <= |s|
  {
    SkipSpacesBack(ws, s, TrimStart(ws, s), |s|)
  }

  /**
   * Trimming the characters of `ws` from both ends of `s`: the result is
   * one slice of `s`, everything outside it is in `ws`, it is empty exactly
   * when all of `s` is, and otherwise it starts and ends outside `ws`.
   */
  function TrimBoth(ws: set<char>, s: string): (r: string)
    ensures |r| == TrimEnd(ws, s) - TrimStart(ws, s)
    ensures forall j :: 0 <= j < |r| ==> r[j] == s[TrimStart(ws, s) + j]
    ensures forall i :: 0 <= i < |s| && !(TrimStart(ws, s) <= i < TrimEnd(ws, s)) ==> s[i] in ws
    ensures r == [] <==> AllIn(ws, s)
    ensures r != [] ==> r[0] !in ws && r[|r| - 1] !in ws
  {
    s[TrimStart(ws, s)..TrimEnd(ws, s)]
  }

  /** Where the text kept by `strip()` starts. */
  function StripStart(s: string): nat {
    TrimStart(Whitespace, s)
  }

  /** Where the text kept by `strip()` ends (exclusive). */
  function StripEnd(s: string): nat {
    TrimEnd(Whitespace, s)
  }

  /**
   * Python's `s.strip()`. It keeps one slice of `s` and everything outside
   * that slice is whitespace; the result is empty exactly when `s` is all
   * whitespace, and otherwise starts and ends with a non-space.
   */
  function Strip(s: string): (r: string)
    ensures StripStart(s) <= StripEnd(s) <= |s|
    ensures |r| == StripEnd(s) - StripStart(s)
    ensures forall j :: 0 <= j < |r| ==> r[j] == s[StripStart(s) + j]
    ensures forall i :: 0 <= i < |s| && !(StripStart(s) <= i < StripEnd(s)) ==> IsSpace(s[i])
    ensures r == [] <==> AllSpace(s)
    ensures r != [] ==> !IsSpace(r[0]) && !IsSpace(r[|r| - 1])
  {
    TrimBoth(Whitespace, s)
  }

  /** What `int()` ignores around its digits: `ws` is `IntWhitespace` rather than all of `str.isspace()`. */
  function IntStrip(s: string): (r: string)
    ensures |r| == TrimEnd(IntWhitespace, s) - TrimStart(IntWhitespace, s)
    ensures forall j :: 0 <= j < |r| ==> r[j] == s[TrimStart(IntWhitespace, s) + j]
    ensures forall i :: 0 <= i < |s| && !(TrimStart(IntWhitespace, s) <= i < TrimEnd(IntWhitespace, s)) ==> s[i] in IntWhitespace
    ensures r == [] <==> AllIn(IntWhitespace, s)
    ensures r != [] ==> r[0] !in IntWhitespace && r[|r| - 1] !in IntWhitespace
  {
    TrimBoth(IntWhitespace, s)
  }

  /** `SkipSpaces` stops at the first character outside `ws` and nowhere else. */
  lemma SkipSpacesAt(ws: set<char>, s: string, i: nat, k: nat)
    requires i <= k <= |s|
    requires forall j :: i <= j < k ==> s[j] in ws
    requires k < |s| ==> s[k] !in ws
    ensures SkipSpaces(ws, s, i) == k
  {
  }

  /** `SkipSpacesBack` stops after the last character outside `ws` and nowhere else. */
  lemma SkipSpacesBackAt(ws: set<char>, s: string, lo: nat, j: nat, k: nat)
    requires lo <= k <= j <= |s|
    requires forall m :: k <= m < j ==> s[m] in ws
    requires k > lo ==> s[k - 1] !in ws
    ensures SkipSpacesBack(ws, s, lo, j) == k
  {
  }

  /**
   * The reference description of trimming: surrounding a text that neither
   * starts nor ends with a character of `ws` by characters of `ws` on both
   * sides, and trimming, gives back exactly that text.
   */
  lemma TrimPadded(ws: set<char>, a: string, t: string, b: string)
    requires AllIn(ws, a) && AllIn(ws, b)
    requires t == [] || (t[0] !in ws && t[|t| - 1] !in ws)
    ensures TrimBoth(ws, a + t + b) == t
  {
    var s := a + t + b;
    if t == [] {
      assert AllIn(ws, s) by {
        forall i | 0 <= i < |s|
          ensures s[i] in ws
        {
          if i < |a| {
            assert s[i] == a[i];
          } else {
            assert s[i] == b[i - |a|];
          }
        }
      }
    } else {
      forall j | 0 <= j < |a|
        ensures s[j] in ws
      {
        assert s[j] == a[j];
      }
      assert s[|a|] == t[0];
      SkipSpacesAt(ws, s, 0, |a|);
      forall m | |a| + |t| <= m < |s|
        ensures s[m] in ws
      {
        assert s[m] == b[m - |a| - |t|];
      }
      assert s[|a| + |t| - 1] == t[|t| - 1];
      SkipSpacesBackAt(ws, s, |a|, |s|, |a| + |t|);
      assert s[|a|..|a| + |t|] == t;
    }
  }

  /** A text that neither starts nor ends with a character of `ws` is left as it is. */
  lemma TrimUntrimmed(ws: set<char>, t: string)
    requires t == [] || (t[0] !in ws && t[|t| - 1] !in ws)
    ensures TrimBoth(ws, t) == t
  {
    assert [] + t + [] == t;
    TrimPadded(ws, [], t, []);
  }

  /**
   * The reference description of `strip()`: surrounding a text that neither
   * starts nor ends with whitespace by whitespace on both sides, and
   * stripping, gives back exactly that text.
   */
  lemma StripPadded(a: string, t: string, b: string)
    requires AllSpace(a) && AllSpace(b)
    requires t == [] || (!IsSpace(t[0]) && !IsSpace(t[|t| - 1]))
    ensures Strip(a + t + b) == t
  {
    TrimPadded(Whitespace, a, t, b);
  }

  /** A text that neither starts nor ends with whitespace is left as it is. */
  lemma StripUntrimmed(t: string)
    requires t == [] || (!IsSpace(t[0]) && !IsSpace(t[|t| - 1]))
    ensures Strip(t) == t
  {
    TrimUntrimmed(Whitespace, t);
  }

  /** Stripping twice strips nothing more. */
  lemma StripIdempotent(s: string)
    ensures Strip(Strip(s)) == Strip(s)
  {
    StripUntrimmed(Strip(s));
  }

  /**
   * The reference description of what `int()` ignores: characters of
   * `IntWhitespace` on both sides of a text that neither starts nor ends
   * with one, and nothing else.
   */
  lemma IntStripPadded(a: string, t: string, b: string)
    requires AllIn(IntWhitespace, a) && AllIn(IntWhitespace, b)
    requires t == [] || (t[0] !in IntWhitespace && t[|t| - 1] !in IntWhitespace)
    ensures IntStrip(a + t + b) == t
  {
    TrimPadded(IntWhitespace, a, t, b);
  }

  /** Trimming for `int()` twice trims nothing more. */
  lemma IntStripIdempotent(s: string)
    ensures IntStrip(IntStrip(s)) == IntStrip(s)
  {
    TrimUntrimmed(IntWhitespace, IntStrip(s));
  }

  /** The separators U+001C to U+001F are whitespace to `strip()` but not to `int()`. */
  lemma SeparatorsDiffer()
    ensures Strip("\U{1C}1") == "1"
    ensures IntStrip("\U{1C}1") == "\U{1C}1"
  {
    var s := "\U{1C}1";
    assert IsSpace(s[0]) && !IsSpace(s[1]);
    assert [s[0]] + "1" + [] == s;
    StripPadded([s[0]], "1", []);
    TrimUntrimmed(IntWhitespace, s);
  }

  /** `c.lower()` for ASCII letters; every other character is left as it is. */
  function LowerChar(c: char): (r: char)
    ensures 'A' <= c <= 'Z' ==> 'a' <= r <= 'z'
    ensures !('A' <= c <= 'Z') ==> r == c
    ensures r == '@' <==> c == '@'
    ensures IsSpace(r) <==> IsSpace(c)
  {
    if 'A' <= c <= 'Z' then (c as int + 32) as char else c
  }

  /** `s.lower()`, restricted to ASCII letters: same length, each character lowered in place. */
  function Lower(s: string): (r: string)
    ensures |r| == |s|
    ensures forall i :: 0 <= i < |s| ==> r[i] == LowerChar(s[i])
  {
    seq(|s|, i requires 0 <= i < |s| => LowerChar(s[i]))
  }

  /** The index of the last occurrence of `c` in `s`, as `s.rsplit(c, 1)` finds it. */
  function LastIndexOf(s: string, c: char): (r: Option<nat>)
    ensures r.None? <==> (forall j :: 0 <= j < |s| ==> s[j] != c)
    ensures r.Some? ==> r.value < |s| && s[r.value] == c
    ensures r.Some? ==> forall j :: r.value < j < |s| ==> s[j] != c
  {
    if |s| == 0 then None
    else if s[|s| - 1] == c then Some(|s| - 1)
    else LastIndexOf(s[..|s| - 1], c)
  }

  predicate IsDigit(c: char) {
    '0' <= c <= '9'
  }

  /**
   * The base-10 digit text `int()` accepts after its sign: ASCII digits, with
   * single underscores allowed between two digits.
   */
  predicate WellFormedDigits(s: string) {
    && |s| > 0
    && IsDigit(s[0])
    && IsDigit(s[|s| - 1])
    && (forall i :: 0 <= i < |s| ==> IsDigit(s[i]) || s[i] == '_')
    && (forall i :: 0 <= i < |s| - 1 ==> IsDigit(s[i]) || IsDigit(s[i + 1]))
  }

  /** The number written by the digits of `s`, underscores skipped. */
  function DigitsValue(s: string): nat {
    if |s| == 0 then 0
    else if IsDigit(s[|s| - 1]) then 10 * DigitsValue(s[..|s| - 1]) + (s[|s| - 1] - '0') as int
    else DigitsValue(s[..|s| - 1])
  }

  /** Some character of `s` is one of the digits 1 to 9. */
  predicate HasNonzeroDigit(s: string) {
    exists i :: 0 <= i < |s| && '1' <= s[i] <= '9'
  }

  /** The digits of a text spell zero exactly when none of them is 1 to 9. */
  lemma {:induction false} DigitsValueZero(s: string)
    ensures DigitsValue(s) == 0 <==> !HasNonzeroDigit(s)
  {
    if |s| > 0 {
      var init := s[..|s| - 1];
      DigitsValueZero(init);
      assert forall i :: 0 <= i < |init| ==> init[i] == s[i];
      if HasNonzeroDigit(init) {
        var i :| 0 <= i < |init| && '1' <= init[i] <= '9';
        assert '1' <= s[i] <= '9';
      }
      if HasNonzeroDigit(s) && !HasNonzeroDigit(init) {
        var i :| 0 <= i < |s| && '1' <= s[i] <= '9';
        assert i == |s| - 1;
      }
    }
  }

  function ParseUnsigned(s: string): (r: Option<nat>)
    ensures r.Some? <==> WellFormedDigits(s)
    ensures r.Some? ==> r.value == DigitsValue(s)
    ensures r.Some? ==> (r.value == 0 <==> !HasNonzeroDigit(s))
  {
    DigitsValueZero(s);
    if WellFormedDigits(s) then Some(DigitsValue(s)) else None
  }

  /** The text starts with a `+` or `-` sign. */
  predicate HasSign(t: string) {
    |t| > 0 && (t[0] == '-' || t[0] == '+')
  }

  /** The text after its sign, if it has one. */
  function Magnitude(t: string): string {
    if HasSign(t) then t[1..] else t
  }

  /** -1 for a text that starts with `-`, and 1 otherwise. */
  function SignOf(t: string): int {
    if |t| > 0 && t[0] == '-' then -1 else 1
  }

  /** The trimmed texts `int()` accepts in base 10: an optional sign, then well-formed digits. */
  predicate WellFormedInt(t: string) {
    WellFormedDigits(Magnitude(t))
  }

  /** `int()` on an already trimmed text: one optional sign, then digits. */
  function ParseSigned(t: string): (r: Option<int>)
    ensures r.Some? <==> WellFormedInt(t)
    ensures r.Some? ==> r.value == SignOf(t) * DigitsValue(Magnitude(t))
    ensures r.Some? ==> (r.value == 0 <==> !HasNonzeroDigit(t))
  {
    if HasSign(t) then
      SignDoesNotCount(t);
      match ParseUnsigned(t[1..])
      case None => None
      case Some(n) => Some(if t[0] == '-' then -(n as int) else n as int)
    else
      match ParseUnsigned(t)
      case None => None
      case Some(n) => Some(n as int)
  }

  /**
   * Python's `int(text)` in base 10: the characters of `IntWhitespace` around
   * the number are ignored, then one optional `+` or `-` sign and well-formed
   * digits. The parsed value is zero exactly when no digit 1 to 9 occurs in
   * the text, and a text of whitespace alone is refused.
   */
  function ParseInt(text: string): (r: Option<int>)
    ensures r.Some? <==> WellFormedInt(IntStrip(text))
    ensures r.Some? ==> r.value == SignOf(IntStrip(text)) * DigitsValue(Magnitude(IntStrip(text)))
    ensures r.Some? ==> (r.value == 0 <==> !HasNonzeroDigit(text))
    ensures AllSpace(text) ==> r.None?
  {
    IntStripKeepsNonzeroDigits(text);
    SpaceIsNoNumber(text);
    ParseSigned(IntStrip(text))
  }

  /** A text of whitespace alone, trimmed for `int()`, is not a signed number. */
  lemma SpaceIsNoNumber(text: string)
    ensures AllSpace(text) ==> !WellFormedInt(IntStrip(text))
  {
    var t := IntStrip(text);
    if AllSpace(text) && t != [] {
      assert t[0] == text[TrimStart(IntWhitespace, text)];
      assert IsSpace(t[0]);
      assert !HasSign(t) && !IsDigit(t[0]);
    }
  }

  /** Trimming a text for `int()` keeps all of its nonzero digits. */
  lemma IntStripKeepsNonzeroDigits(s: string)
    ensures HasNonzeroDigit(s) <==> HasNonzeroDigit(IntStrip(s))
  {
    if HasNonzeroDigit(s) {
      NonzeroDigitSurvives(s);
    }
    if HasNonzeroDigit(IntStrip(s)) {
      NonzeroDigitWasThere(s);
    }
  }

  lemma NonzeroDigitSurvives(s: string)
    requires HasNonzeroDigit(s)
    ensures HasNonzeroDigit(IntStrip(s))
  {
    var i :| 0 <= i < |s| && '1' <= s[i] <= '9';
    assert s[i] !in IntWhitespace;
    KeptByTrim(IntWhitespace, s, i);
  }

  /** A character of `s` outside `ws` is kept by trimming, shifted by the dropped prefix. */
  lemma KeptByTrim(ws: set<char>, s: string, i: nat)
    requires i < |s| && s[i] !in ws
    ensures TrimStart(ws, s) <= i < TrimStart(ws, s) + |TrimBoth(ws, s)|
    ensures TrimBoth(ws, s)[i - TrimStart(ws, s)] == s[i]
  {
  }

  lemma NonzeroDigitWasThere(s: string)
    requires HasNonzeroDigit(IntStrip(s))
    ensures HasNonzeroDigit(s)
  {
    var j :| 0 <= j < |IntStrip(s)| && '1' <= IntStrip(s)[j] <= '9';
    TrimCharAt(IntWhitespace, s, j);
  }

  /** The `j`-th character trimming keeps sits past the dropped prefix. */
  lemma TrimCharAt(ws: set<char>, s: string, j: nat)
    requires j < |TrimBoth(ws, s)|
    ensures TrimStart(ws, s) + j < |s| && s[TrimStart(ws, s) + j] == TrimBoth(ws, s)[j]
  {
  }

  lemma SignDoesNotCount(t: string)
    requires HasSign(t)
    ensures HasNonzeroDigit(t) <==> HasNonzeroDigit(t[1..])
  {
    if HasNonzeroDigit(t) {
      var i :| 0 <= i < |t| && '1' <= t[i] <= '9';
      assert t[1..][i - 1] == t[i];
    }
    if HasNonzeroDigit(t[1..]) {
      var i :| 0 <= i < |t| - 1 && '1' <= t[1..][i] <= '9';
      assert t[i + 1] == t[1..][i];
    }
  }

  function DigitChar(d: nat): (c: char)
    requires d < 10
    ensures IsDigit(c) && (c - '0') as int == d
  {
    ('0' as int + d) as char
  }

  /** Python's `str(n)` for a non-negative `n`: its decimal digits, no leading zeros. */
  function ShowNat(n: nat): (r: string)
    ensures |r| > 0
    ensures forall i :: 0 <= i < |r| ==> IsDigit(r[i])
  {
    if n < 10 then [DigitChar(n)] else ShowNat(n / 10) + [DigitChar(n % 10)]
  }

  /** Python's `str(n)` for any integer. */
  function ShowInt(n: int): (r: string)
    ensures |r| > 0
  {
    if n < 0 then "-" + ShowNat(-n) else ShowNat(n)
  }

  lemma {:induction false} DigitsValueShowNat(n: nat)
    ensures WellFormedDigits(ShowNat(n))
    ensures DigitsValue(ShowNat(n)) == n
  {
    var r := ShowNat(n);
    if n >= 10 {
      DigitsValueShowNat(n / 10);
      assert r[..|r| - 1] == ShowNat(n / 10);
    }
  }

  lemma ParseSignedShowInt(n: int)
    ensures ParseSigned(ShowInt(n)) == Some(n)
  {
    if n < 0 {
      ParseSignedNegative(n);
    } else {
      ParseSignedNonNegative(n);
    }
  }

  lemma ParseSignedNegative(n: int)
    requires n < 0
    ensures ParseSigned(ShowInt(n)) == Some(n)
  {
    var m := ShowNat(-n);
    NegativeShown(n);
    DigitsValueShowNat(-n);
    assert ParseUnsigned(m) == Some(-n);
  }

  lemma NegativeShown(n: int)
    requires n < 0
    ensures ShowInt(n)[0] == '-' && ShowInt(n)[1..] == ShowNat(-n)
  {
  }

  lemma ParseSignedNonNegative(n: int)
    requires n >= 0
    ensures ParseSigned(ShowInt(n)) == Some(n)
  {
    var s := ShowInt(n);
    assert IsDigit(s[0]) && !HasSign(s);
    DigitsValueShowNat(n);
  }

  /** `int(str(n)) == n`: the parser reads back every integer Python prints. */
  lemma ParseShowRoundTrip(n: int)
    ensures ParseInt(ShowInt(n)) == Some(n)
  {
    var s := ShowInt(n);
    assert s[0] !in IntWhitespace && s[|s| - 1] !in IntWhitespace;
    TrimUntrimmed(IntWhitespace, s);
    ParseSignedShowInt(n);
  }

  lemma ZeroHasNoNonzeroDigit()
    ensures !HasNonzeroDigit("0")
  {
  }

  /** `int("0") == 0` and `int("1") == 1`: the two values the form is meant to send. */
  lemma ParseZeroAndOne()
    ensures ParseInt("0") == Some(0) && ParseInt("1") == Some(1)
  {
    ParseShowRoundTrip(0);
    ParseShowRoundTrip(1);
    assert ShowInt(0) == "0" && ShowInt(1) == "1";
  }

  /** `int(" 2 ") == 2`: surrounding whitespace is ignored and any integer is accepted. */
  lemma ParsePaddedTwo()
    ensures ParseInt(" 2 ") == Some(2)
  {
    IntStripPaddedTwo();
    ParseIgnoresPadding(" 2 ");
    ParseShowRoundTrip(2);
    assert ShowInt(2) == "2";
  }

  /** `int()` sees only what survives trimming the characters of `IntWhitespace`. */
  lemma ParseIgnoresPadding(text: string)
    ensures ParseInt(text) == ParseInt(IntStrip(text))
  {
    IntStripIdempotent(text);
  }

  lemma IntStripPaddedTwo()
    ensures IntStrip(" 2 ") == "2"
  {
    IntStripPadded(" ", "2", " ");
    assert " " + "2" + " " == " 2 ";
  }

  /** `int("yes")` and `int("")` raise `ValueError`. */
  lemma ParseRejectsNonNumbers()
    ensures ParseInt("yes").None? && ParseInt("").None?
  {
    TrimUntrimmed(IntWhitespace, "yes");
    assert !IsDigit('y');
    ParseRejectsEmpty();
  }

  lemma ParseRejectsEmpty()
    ensures ParseInt("").None?
  {
    assert AllSpace("");
  }

  /**
   * `int("\x1c1")` raises `ValueError` although `"\x1c1".strip()` is `"1"`:
   * the file separator is whitespace to `strip()` but not to `int()`.
   */
  lemma ParseRejectsSeparatorPadding()
    ensures Strip("\U{1C}1") == "1"
    ensures ParseInt("\U{1C}1").None?
  {
    SeparatorsDiffer();
    SeparatorIsNoNumber();
  }

  lemma SeparatorIsNoNumber()
    ensures !WellFormedInt("\U{1C}1")
  {
    var s := "\U{1C}1";
    assert !HasSign(s) && !IsDigit(s[0]);
  }
}
