/** Decimal integer literals as Python 2's `int()` reads them from a `str`.

    `int(s)` skips leading whitespace, reads an optional sign, skips any
    whitespace after the sign, and then needs one or more decimal digits
    followed by nothing but whitespace; anything else raises `ValueError`.
    `float()` reads the same literals except that it does not allow
    whitespace between the sign and the digits (`IsCompactLiteral`).
    `ShowInt` renders an integer canonically, and `ParseShowInt` proves
    that parsing undoes rendering.
 */
module Numerals {
  import opened Outcome

  /** Python 2's whitespace for `str.strip()`: space, \t, \n, \v, \f, \r. */
  predicate IsSpace(c: char) {
    c == ' ' || 9 <= c as int <= 13
  }

  predicate IsDigit(c: char) {
    '0' <= c <= '9'
  }

  predicate AllDigits(s: string) {
    forall i :: 0 <= i < |s| ==> IsDigit(s[i])
  }

  function DigitValue(c: char): (d: nat)
    requires IsDigit(c)
    ensures d < 10
  {
    c as int - '0' as int
  }

  function DigitChar(d: nat): (c: char)
    requires d < 10
    ensures IsDigit(c) && DigitValue(c) == d
  {
    ('0' as int + d) as char
  }

  /** The value of a string of decimal digits, most significant first. */
  function DigitsValue(s: string): nat
    requires AllDigits(s)
  {
    if |s| == 0 then 0 else 10 * DigitsValue(s[..|s| - 1]) + DigitValue(s[|s| - 1])
  }

  /** Drops leading whitespace. */
  function StripLeft(s: string): (t: string)
    ensures |t| <= |s|
  {
    if |s| > 0 && IsSpace(s[0]) then StripLeft(s[1..]) else s
  }

  /** Drops trailing whitespace. */
  function StripRight(s: string): (t: string)
    ensures |t| <= |s|
  {
    if |s| > 0 && IsSpace(s[|s| - 1]) then StripRight(s[..|s| - 1]) else s
  }

  function Strip(s: string): string {
    StripRight(StripLeft(s))
  }

  predicate AllSpace(s: string) {
    forall i :: 0 <= i < |s| ==> IsSpace(s[i])
  }

  predicate IsSign(c: char) {
    c == '-' || c == '+'
  }

  /** At least one digit, optionally behind a sign; whitespace may separate
      the sign from the digits. */
  predicate IsSignedDigits(t: string) {
    || (|t| >= 1 && AllDigits(t))
    || (|t| >= 2 && IsSign(t[0]) && |StripLeft(t[1..])| >= 1 && AllDigits(StripLeft(t[1..])))
  }

  /** The strings `int()` accepts. */
  predicate IsIntLiteral(s: string) {
    IsSignedDigits(Strip(s))
  }

  function SignedDigitsValue(t: string): int
    requires IsSignedDigits(t)
  {
    if AllDigits(t) then DigitsValue(t)
    else if t[0] == '-' then -(DigitsValue(StripLeft(t[1..])) as int)
    else DigitsValue(StripLeft(t[1..]))
  }

  /** An integer literal with no whitespace between its sign and its
      digits. Of the strings `int()` accepts, exactly these are accepted by
      `float()` as well. */
  predicate IsCompactLiteral(s: string) {
    var t := Strip(s);
    IsSignedDigits(t) && (AllDigits(t) || !IsSpace(t[1]))
  }

  /** `int(s)`: `None` where Python raises `ValueError`. */
  function ParseInt(s: string): (r: Option<int>)
    ensures r.Some? <==> IsIntLiteral(s)
  {
    var t := Strip(s);
    if IsSignedDigits(t) then Some(SignedDigitsValue(t)) else None
  }

  /** The shortest decimal rendering of a natural number. */
  function ShowNat(n: nat): (s: string)
    ensures |s| >= 1 && AllDigits(s)
    ensures |s| > 1 ==> s[0] != '0'
  {
    if n < 10 then [DigitChar(n)] else ShowNat(n / 10) + [DigitChar(n % 10)]
  }

  /** The canonical rendering of an integer, as Python's `str()` writes it. */
  function ShowInt(n: int): string {
    if n < 0 then "-" + ShowNat(-n) else ShowNat(n)
  }

  lemma {:induction false} DigitsValueShowNat(n: nat)
    ensures DigitsValue(ShowNat(n)) == n
  {
    if n >= 10 {
      var s := ShowNat(n);
      assert s[..|s| - 1] == ShowNat(n / 10);
      DigitsValueShowNat(n / 10);
    }
  }

  lemma StripNoSpace(s: string)
    requires |s| > 0 && !IsSpace(s[0]) && !IsSpace(s[|s| - 1])
    ensures Strip(s) == s
  {
  }

  /** Reading back a rendered integer gives the integer, and `float()`
      reads the rendering too. */
  lemma ParseShowInt(n: int)
    ensures ParseInt(ShowInt(n)) == Some(n)
    ensures IsCompactLiteral(ShowInt(n))
  {
    var s := ShowInt(n);
    if n < 0 {
      assert s[1..] == ShowNat(-n);
      StripNoSpace(s);
      StripLeftNoSpace(ShowNat(-n));
      DigitsValueShowNat(-n);
      assert !AllDigits(s) by { assert !IsDigit(s[0]); }
    } else {
      StripNoSpace(s);
      DigitsValueShowNat(n);
    }
  }

  lemma StripLeftNoSpace(s: string)
    requires |s| > 0 && !IsSpace(s[0])
    ensures StripLeft(s) == s
  {
  }

  /** Whitespace in front is skipped. */
  lemma {:induction false} StripLeftSpaces(pre: string, s: string)
    requires AllSpace(pre)
    ensures StripLeft(pre + s) == StripLeft(s)
  {
    if pre == [] {
      assert pre + s == s;
    } else {
      assert (pre + s)[1..] == pre[1..] + s;
      assert AllSpace(pre[1..]) by {
        assert forall i :: 0 <= i < |pre[1..]| ==> pre[1..][i] == pre[i + 1];
      }
      StripLeftSpaces(pre[1..], s);
    }
  }

  /** Whitespace behind is dropped. */
  lemma {:induction false} StripRightSpaces(s: string, post: string)
    requires AllSpace(post)
    ensures StripRight(s + post) == StripRight(s)
  {
    if post == [] {
      assert s + post == s;
    } else {
      var n := |post| - 1;
      assert (s + post)[..|s + post| - 1] == s + post[..n];
      assert AllSpace(post[..n]);
      StripRightSpaces(s, post[..n]);
    }
  }

  /** Only whitespace strips away to nothing. */
  lemma {:induction false} StripLeftEmpty(s: string)
    requires StripLeft(s) == []
    ensures AllSpace(s)
  {
    if s != [] {
      StripLeftEmpty(s[1..]);
      assert forall i :: 1 <= i < |s| ==> s[i] == s[1..][i - 1];
    }
  }

  /** Once the leading whitespace is gone, what follows is kept as it is. */
  lemma {:induction false} StripLeftAppend(s: string, x: string)
    requires StripLeft(s) != []
    ensures StripLeft(s + x) == StripLeft(s) + x
  {
    assert (s + x)[0] == s[0];
    if IsSpace(s[0]) {
      assert (s + x)[1..] == s[1..] + x;
      StripLeftAppend(s[1..], x);
    }
  }

  /** Surrounding whitespace does not change what `int()` reads, whatever
      the string in between. */
  lemma PaddingIgnored(pre: string, s: string, post: string)
    requires AllSpace(pre) && AllSpace(post)
    ensures ParseInt(pre + s + post) == ParseInt(s)
    ensures IsCompactLiteral(pre + s + post) == IsCompactLiteral(s)
  {
    StripPadding(pre, s, post);
  }

  lemma StripPadding(pre: string, s: string, post: string)
    requires AllSpace(pre) && AllSpace(post)
    ensures Strip(pre + s + post) == Strip(s)
  {
    assert pre + s + post == pre + (s + post);
    StripLeftSpaces(pre, s + post);
    if StripLeft(s) != [] {
      StripLeftAppend(s, post);
      StripRightSpaces(StripLeft(s), post);
    } else {
      StripLeftEmpty(s);
      assert AllSpace(s + post);
      StripLeftSpaces(s + post, []);
      assert s + post + [] == s + post;
    }
  }

  /** `int()` skips whitespace between the sign and the digits: a sign,
      whitespace and digits read as the signed value of the digits. */
  lemma SpaceAfterSign(c: char, sp: string, d: string)
    requires IsSign(c) && AllSpace(sp) && |d| >= 1 && AllDigits(d)
    ensures ParseInt([c] + sp + d) == Some(if c == '-' then -(DigitsValue(d) as int) else DigitsValue(d))
  {
    var t := [c] + sp + d;
    SignedShape(t, c, sp, d);
    SignedValue(t, d);
  }

  /** A stripped string made of a sign, whitespace and the digits `d` reads
      as the signed value of `d`. */
  lemma SignedValue(t: string, d: string)
    requires Strip(t) == t && |t| >= 2 && IsSign(t[0]) && !AllDigits(t)
    requires StripLeft(t[1..]) == d && |d| >= 1 && AllDigits(d)
    ensures ParseInt(t) == Some(if t[0] == '-' then -(DigitsValue(d) as int) else DigitsValue(d))
  {
    assert IsSignedDigits(t) by {
      assert |StripLeft(t[1..])| >= 1;
    }
    assert SignedDigitsValue(t) == if t[0] == '-' then -(DigitsValue(d) as int) else DigitsValue(d);
  }

  /** A sign, whitespace and digits: nothing to strip around it, and the
      digits follow the whitespace. */
  lemma SignedShape(t: string, c: char, sp: string, d: string)
    requires IsSign(c) && AllSpace(sp) && |d| >= 1 && AllDigits(d)
    requires t == [c] + sp + d
    ensures Strip(t) == t && |t| >= 2 && IsSign(t[0]) && t[0] == c && !AllDigits(t)
    ensures StripLeft(t[1..]) == d
  {
    assert t[|t| - 1] == d[|d| - 1];
    StripNoSpace(t);
    assert t[1..] == sp + d;
    StripLeftSpaces(sp, d);
    StripLeftNoSpace(d);
    assert !AllDigits(t) by { assert !IsDigit(t[0]); }
  }

  /** `int()` rejects a decimal point and letters: there is no float fallback. */
  lemma RejectsNonIntegers()
    ensures ParseInt("1.5").None?
    ensures ParseInt("abc").None?
  {
    assert StripLeft("1.5") == "1.5";
    assert StripRight("1.5") == "1.5";
    assert !IsDigit("1.5"[0]) || !IsDigit("1.5"[1]);
    assert StripLeft("abc") == "abc";
    assert StripRight("abc") == "abc";
    assert !IsDigit("abc"[0]);
  }

  /** A blank cell is not an integer either. */
  lemma RejectsBlank()
    ensures ParseInt(" ").None?
  {
    assert StripLeft(" ") == StripLeft(" "[1..]);
    assert " "[1..] == "";
  }

  /** Surrounding whitespace is stripped before the sign is read. */
  lemma AcceptsPadding()
    ensures ParseInt(" -1\t") == Some(-1)
  {
    assert " -1\t" == " " + ShowInt(-1) + "\t";
    PaddingIgnored(" ", ShowInt(-1), "\t");
    ParseShowInt(-1);
  }

  /** An explicit plus sign is accepted. */
  lemma AcceptsSign()
    ensures ParseInt("+7") == Some(7)
  {
    assert DigitsValue("7") == 7 by { assert "7"[..0] == ""; }
    assert "+7" == ['+'] + "" + "7";
    SpaceAfterSign('+', "", "7");
  }
}
