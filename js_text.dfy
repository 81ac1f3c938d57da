/**
 * The JavaScript string built-ins that the timer relies on:
 * `String.prototype.trim`, `String.prototype.padStart(2, '0')` and
 * `Number.prototype.toString()` on integers.
 */
module JsText {

  // ---------------------------------------------------------------- trim

  /**
   * The characters `trim` removes: ECMAScript WhiteSpace (tab, vertical tab,
   * form feed, space, no-break space, byte order mark and every Unicode
   * space separator) and LineTerminator (LF, CR, LS, PS).
   */
  predicate IsWhitespace(c: char) {
    c == '\t' || c == '\n' || c == '\U{000B}' || c == '\U{000C}' || c == '\r' ||
    c == ' ' || c == '\U{00A0}' || c == '\U{1680}' ||
    ('\U{2000}' <= c <= '\U{200A}') ||
    c == '\U{2028}' || c == '\U{2029}' || c == '\U{202F}' || c == '\U{205F}' ||
    c == '\U{3000}' || c == '\U{FEFF}'
  }

  /** Every character of `s` is whitespace (the empty string included). */
  predicate IsBlank(s: string) {
    forall i :: 0 <= i < |s| ==> IsWhitespace(s[i])
  }

  /** `s` with its leading whitespace removed. */
  function TrimStart(s: string): (r: string)
    ensures |r| <= |s| && r == s[|s| - |r|..]
    ensures forall i :: 0 <= i < |s| - |r| ==> IsWhitespace(s[i])
    ensures r == [] || !IsWhitespace(r[0])
    decreases |s|
  {
    if s != [] && IsWhitespace(s[0]) then TrimStart(s[1..]) else s
  }

  /** `s` with its trailing whitespace removed. */
  function TrimEnd(s: string): (r: string)
    ensures |r| <= |s| && r == s[..|r|]
    ensures forall i :: |r| <= i < |s| ==> IsWhitespace(s[i])
    ensures r == [] || !IsWhitespace(r[|r| - 1])
    decreases |s|
  {
    if s != [] && IsWhitespace(s[|s| - 1]) then TrimEnd(s[..|s| - 1]) else s
  }

  /**
   * `String.prototype.trim`: the part of `s` between a whitespace prefix
   * and a whitespace suffix, neither starting nor ending with whitespace.
   */
  function Trim(s: string): (r: string)
    ensures |r| <= |s|
    ensures r == [] || (!IsWhitespace(r[0]) && !IsWhitespace(r[|r| - 1]))
    ensures exists i :: BetweenBlanks(s, r, i)
  {
    var t := TrimStart(s);
    var r := TrimEnd(t);
    assert r != [] ==> r[0] == t[0];
    TrimInfix(s, t, r);
    r
  }

  /** `r` occurs in `s` at offset `i`, with only whitespace before and after it. */
  predicate BetweenBlanks(s: string, r: string, i: int) {
    0 <= i <= |s| - |r| && r == s[i..i + |r|] && IsBlank(s[..i]) && IsBlank(s[i + |r|..])
  }

  /** What the two halves of `Trim` leave is an infix of `s` between two blank runs. */
  lemma TrimInfix(s: string, t: string, r: string)
    requires |t| <= |s| && t == s[|s| - |t|..]
    requires forall k :: 0 <= k < |s| - |t| ==> IsWhitespace(s[k])
    requires |r| <= |t| && r == t[..|r|]
    requires forall k :: |r| <= k < |t| ==> IsWhitespace(t[k])
    ensures BetweenBlanks(s, r, |s| - |t|)
  {
    var i, j := |s| - |t|, |s| - |t| + |r|;
    assert t[..|r|] == s[i..j];
    BlankPrefix(s, i);
    forall k | j <= k < |s|
      ensures IsWhitespace(s[k])
    {
      assert s[k] == t[k - i];
    }
    BlankSuffix(s, j);
  }

  lemma BlankPrefix(s: string, i: int)
    requires 0 <= i <= |s| && forall k :: 0 <= k < i ==> IsWhitespace(s[k])
    ensures IsBlank(s[..i])
  {
    assert forall k :: 0 <= k < i ==> s[..i][k] == s[k];
  }

  lemma BlankSuffix(s: string, j: int)
    requires 0 <= j <= |s| && forall k :: j <= k < |s| ==> IsWhitespace(s[k])
    ensures IsBlank(s[j..])
  {
    assert forall k :: 0 <= k < |s| - j ==> s[j..][k] == s[j + k];
  }

  /** A string trims to the empty string exactly when it is all whitespace. */
  lemma TrimEmptyIffBlank(s: string)
    ensures Trim(s) == [] <==> IsBlank(s)
  {
    var t := TrimStart(s);
    if Trim(s) == [] {
      // TrimEnd removed all of t, so t is blank; TrimStart stops at a non-blank, so t is empty
      assert t == [];
    } else {
      assert t != [] && !IsWhitespace(t[0]);
      assert s[|s| - |t|] == t[0];
    }
  }

  // ------------------------------------------------------------- digits

  predicate IsDigit(c: char) {
    '0' <= c <= '9'
  }

  predicate AllDigits(s: string) {
    forall i :: 0 <= i < |s| ==> IsDigit(s[i])
  }

  /** The numeric value of a decimal digit character. */
  function DigitValue(c: char): nat
    requires IsDigit(c)
  {
    c as int - '0' as int
  }

  /** The decimal digit character for `d`. */
  function DigitChar(d: nat): (c: char)
    requires d < 10
    ensures IsDigit(c) && DigitValue(c) == d
  {
    (d + '0' as int) as char
  }

  /**
   * The decimal numeral of a natural number, as `toString()` writes it:
   * at least one digit and no leading zero.
   */
  function Digits(n: nat): (r: string)
    ensures |r| >= 1 && AllDigits(r)
    ensures r[0] == '0' ==> n == 0 && r == "0"
    decreases n
  {
    if n < 10 then [DigitChar(n)] else Digits(n / 10) + [DigitChar(n % 10)]
  }

  /**
   * `Number.prototype.toString()` of an integer: the decimal numeral of the
   * number, after a minus sign when it is negative.
   */
  function JsToString(n: int): (r: string)
    ensures n >= 0 ==> AllDigits(r) && r != [] && Value(r) == n && (r[0] == '0' ==> r == "0")
    ensures n < 0 ==> |r| >= 2 && r[0] == '-' && forall i :: 1 <= i < |r| ==> IsDigit(r[i])
  {
    if n < 0 then
      "-" + Digits(-n)
    else
      ValueOfDigits(n);
      Digits(n)
  }

  /** For a negative number, the digits after the minus sign are the numeral of its magnitude, without leading zero. */
  lemma JsToStringNegative(n: int)
    requires n < 0
    ensures AllDigits(JsToString(n)[1..]) && Value(JsToString(n)[1..]) == -n
    ensures JsToString(n)[1] != '0'
  {
    ValueOfDigits(-n);
    assert JsToString(n)[1..] == Digits(-n);
  }

  /** The number a string of decimal digits denotes, leading zeros allowed. */
  function Value(s: string): nat
    requires AllDigits(s)
  {
    if s == [] then 0 else Value(s[..|s| - 1]) * 10 + DigitValue(s[|s| - 1])
  }

  /** Reading a numeral back gives the number it was written from. */
  lemma {:induction false} ValueOfDigits(n: nat)
    ensures Value(Digits(n)) == n
  {
    if n >= 10 {
      var s := Digits(n);
      assert s[..|s| - 1] == Digits(n / 10);
      ValueOfDigits(n / 10);
    }
  }

  /** A leading zero does not change the value of a numeral. */
  lemma {:induction false} ValueLeadingZero(s: string)
    requires AllDigits(s)
    ensures AllDigits(['0'] + s) && Value(['0'] + s) == Value(s)
  {
    var t := ['0'] + s;
    if s == [] {
      assert t[..|t| - 1] == [];
    } else {
      assert t[..|t| - 1] == ['0'] + s[..|s| - 1];
      ValueLeadingZero(s[..|s| - 1]);
    }
  }

  /** A numeral has at most two digits exactly when the number is below 100. */
  lemma DigitsAtMostTwo(n: nat)
    ensures |Digits(n)| <= 2 <==> n < 100
  {
    if n >= 10 {
      assert |Digits(n)| == |Digits(n / 10)| + 1;
      if n / 10 >= 10 {
        assert |Digits(n / 10)| == |Digits(n / 100)| + 1;
      }
    }
  }

  // ------------------------------------------------------------ padStart

  /**
   * `s.padStart(2, '0')`: zeros are added on the left until the string is
   * two characters long; a longer string is returned unchanged, never cut.
   */
  function PadStart2(s: string): (r: string)
    ensures |r| == if |s| >= 2 then |s| else 2
    ensures r[|r| - |s|..] == s
    ensures forall i :: 0 <= i < |r| - |s| ==> r[i] == '0'
    ensures AllDigits(s) ==> AllDigits(r)
  {
    if |s| >= 2 then s else if |s| == 1 then ['0'] + s else "00"
  }

  /** Padding a numeral with zeros keeps its value. */
  lemma ValuePadded(s: string)
    requires AllDigits(s)
    ensures Value(PadStart2(s)) == Value(s)
  {
    if |s| == 1 {
      ValueLeadingZero(s);
    } else if s == [] {
      ValueLeadingZero(['0']);
    }
  }
}
