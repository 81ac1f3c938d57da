/**
 * `FlowtimeTimer.formatTime`: a second count rendered as `HH:MM:SS`, each
 * field the JavaScript numeral of an integer left-padded with '0' to two
 * characters. Hours are not capped, so 100 hours or more take three or more
 * digits. `ParseTime` reads such a string back; it is the partner against
 * which the format is proved to lose nothing.
 */
module TimeFormat {
  import opened Common
  import opened JsText

  /**
   * JavaScript's `%`: the remainder takes the sign of the dividend
   * (Dafny's `%` is Euclidean and never negative).
   */
  function JsRem(a: int, d: int): (r: int)
    requires d > 0
    ensures -d < r < d
    ensures exists q :: a == q * d + r
    ensures a >= 0 ==> r >= 0
    ensures a <= 0 ==> r <= 0
  {
    var r := if a >= 0 then a % d else -((-a) % d);
    assert a == TruncDiv(a, d) * d + r;
    r
  }

  /** The quotient of `a` by `d` rounded toward zero. */
  function TruncDiv(a: int, d: int): int
    requires d > 0
  {
    if a >= 0 then a / d else -((-a) / d)
  }

  /**
   * `formatTime(seconds)` for an integer second count. `Math.floor(x / d)`
   * with a positive divisor is Dafny's `/`; `seconds % 3600` and
   * `seconds % 60` are JavaScript remainders.
   */
  function FormatTime(seconds: int): (r: string)
    ensures |r| >= 8
  {
    var h := seconds / 3600;
    var m := JsRem(seconds, 3600) / 60;
    var s := JsRem(seconds, 60);
    PadStart2(JsToString(h)) + ":" + PadStart2(JsToString(m)) + ":" + PadStart2(JsToString(s))
  }

  // ------------------------------------------------------- reading back

  predicate NoColon(s: string) {
    forall i :: 0 <= i < |s| ==> s[i] != ':'
  }

  /** The number of ':' characters in `s`. */
  function ColonCount(s: string): nat {
    if s == [] then 0 else (if s[0] == ':' then 1 else 0) + ColonCount(s[1..])
  }

  /**
   * `s` cut at every ':'; there is one more field than there are colons,
   * and no field contains a colon.
   */
  function Split(s: string): (fields: seq<string>)
    ensures |fields| == ColonCount(s) + 1
    ensures forall i :: 0 <= i < |fields| ==> NoColon(fields[i])
  {
    if s == [] then [""]
    else
      var rest := Split(s[1..]);
      if s[0] == ':' then [""] + rest
      else [[s[0]] + rest[0]] + rest[1..]
  }

  /** A field without colons is its own split. */
  lemma {:induction false} SplitNoColon(a: string)
    requires NoColon(a)
    ensures Split(a) == [a]
  {
    if a != [] {
      SplitNoColon(a[1..]);
      assert [a[0]] + a[1..] == a;
    }
  }

  /** Splitting at the first colon peels off the field before it. */
  lemma {:induction false} SplitAtColon(a: string, b: string)
    requires NoColon(a)
    ensures Split(a + ":" + b) == [a] + Split(b)
  {
    var s := a + ":" + b;
    if a == [] {
      assert s[1..] == b;
    } else {
      assert s[1..] == a[1..] + ":" + b;
      SplitAtColon(a[1..], b);
      assert [a[0]] + a[1..] == a;
    }
  }

  /** The value of a time string whose three fields are non-empty runs of digits. */
  function ParseTime(text: string): Option<int> {
    var f := Split(text);
    if |f| == 3 && f[0] != [] && f[1] != [] && f[2] != []
       && AllDigits(f[0]) && AllDigits(f[1]) && AllDigits(f[2])
    then Some(Value(f[0]) * 3600 + Value(f[1]) * 60 + Value(f[2]))
    else None
  }

  // ------------------------------------------------------------ lemmas

  /** Dividing by 60 is unique: a quotient and remainder in range are the ones `/` and `%` give. */
  lemma DivMod60Unique(a: int, q: int, r: int)
    requires 0 <= r < 60 && a == 60 * q + r
    ensures a / 60 == q && a % 60 == r
  {
  }

  /** The hours, minutes and seconds fields of a non-negative second count. */
  lemma Decompose(seconds: int)
    requires seconds >= 0
    ensures var h, m, s := seconds / 3600, (seconds % 3600) / 60, seconds % 60;
            0 <= m < 60 && 0 <= s < 60 && h >= 0 && h * 3600 + m * 60 + s == seconds
            && (h < 100 <==> seconds < 360000)
  {
    var h, r := seconds / 3600, seconds % 3600;
    var m, s := r / 60, r % 60;
    assert seconds == 3600 * h + r;
    assert r == 60 * m + s;
    assert seconds == 60 * (60 * h + m) + s;
    DivMod60Unique(seconds, 60 * h + m, s);
  }

  /** The rendering of a non-negative field value, with its value and shape. */
  lemma PaddedField(n: nat)
    ensures var f := PadStart2(Digits(n));
            AllDigits(f) && NoColon(f) && |f| >= 2 && Value(f) == n
            && (|f| == 2 <==> n < 100)
  {
    ValueOfDigits(n);
    ValuePadded(Digits(n));
    DigitsAtMostTwo(n);
  }

  /** Three colon-free fields joined by colons split back into those fields. */
  lemma SplitThree(a: string, b: string, c: string)
    requires NoColon(a) && NoColon(b) && NoColon(c)
    ensures Split(a + ":" + b + ":" + c) == [a, b, c]
  {
    assert a + ":" + b + ":" + c == a + ":" + (b + ":" + c);
    SplitAtColon(a, b + ":" + c);
    SplitAtColon(b, c);
    SplitNoColon(c);
  }

  /** On a non-negative count every field is non-negative, so no minus sign appears. */
  lemma FormatTimeNonNegative(seconds: int)
    requires seconds >= 0
    ensures FormatTime(seconds) == PadStart2(Digits(seconds / 3600)) + ":"
              + PadStart2(Digits((seconds % 3600) / 60)) + ":" + PadStart2(Digits(seconds % 60))
  {
  }

  /** What the split of a formatted non-negative count holds, field by field. */
  lemma SplitFormatTime(seconds: int)
    requires seconds >= 0
    ensures Split(FormatTime(seconds)) == [PadStart2(Digits(seconds / 3600)),
              PadStart2(Digits((seconds % 3600) / 60)), PadStart2(Digits(seconds % 60))]
  {
    var h, m, s := seconds / 3600, (seconds % 3600) / 60, seconds % 60;
    PaddedField(h);
    PaddedField(m);
    PaddedField(s);
    FormatTimeNonNegative(seconds);
    SplitThree(PadStart2(Digits(h)), PadStart2(Digits(m)), PadStart2(Digits(s)));
  }

  /**
   * For a non-negative second count, `FormatTime` gives exactly three
   * colon-separated fields of at least two decimal digits: minutes and
   * seconds below 60, and hours * 3600 + minutes * 60 + seconds equal to
   * the input. The hours field has exactly two digits precisely below
   * 100 hours; above that it grows instead of being cut.
   */
  lemma FormatTimeFields(seconds: int)
    requires seconds >= 0
    ensures var f := Split(FormatTime(seconds));
            |f| == 3
            && AllDigits(f[0]) && AllDigits(f[1]) && AllDigits(f[2])
            && |f[0]| >= 2 && |f[1]| == 2 && |f[2]| == 2
            && Value(f[1]) < 60 && Value(f[2]) < 60
            && Value(f[0]) * 3600 + Value(f[1]) * 60 + Value(f[2]) == seconds
            && (|f[0]| == 2 <==> seconds < 360000)
            && (|f[0]| > 2 ==> f[0][0] != '0')
  {
    var h, m, s := seconds / 3600, (seconds % 3600) / 60, seconds % 60;
    Decompose(seconds);
    PaddedField(h);
    PaddedField(m);
    PaddedField(s);
    SplitFormatTime(seconds);
    var f := Split(FormatTime(seconds));
    assert Value(f[0]) == h && Value(f[1]) == m && Value(f[2]) == s;
    assert |f[0]| == 2 <==> h < 100;
    if |f[0]| > 2 {
      assert f[0] == Digits(h);
    }
  }

  /** Every formatted non-negative count reads back as itself. */
  lemma ParseFormatTime(seconds: int)
    requires seconds >= 0
    ensures ParseTime(FormatTime(seconds)) == Some(seconds)
  {
    FormatTimeFields(seconds);
    ParseThreeFields(FormatTime(seconds), seconds);
  }

  /** A string of three digit fields of at least two characters reads back as the count they spell. */
  lemma ParseThreeFields(t: string, seconds: int)
    requires var f := Split(t);
             |f| == 3
             && AllDigits(f[0]) && AllDigits(f[1]) && AllDigits(f[2])
             && |f[0]| >= 2 && |f[1]| == 2 && |f[2]| == 2
             && Value(f[0]) * 3600 + Value(f[1]) * 60 + Value(f[2]) == seconds
    ensures ParseTime(t) == Some(seconds)
  {
    var f := Split(t);
    assert f[0] != [] && f[1] != [] && f[2] != [];
  }

  /** Every formatted non-negative count is at least `HH:MM:SS` long and holds exactly two colons. */
  lemma FormatTimeShape(seconds: int)
    requires seconds >= 0
    ensures |FormatTime(seconds)| >= 8
    ensures ColonCount(FormatTime(seconds)) == 2
  {
    FormatTimeFields(seconds);
    var h, m, s := seconds / 3600, (seconds % 3600) / 60, seconds % 60;
    assert FormatTime(seconds) == PadStart2(Digits(h)) + ":" + PadStart2(Digits(m)) + ":" + PadStart2(Digits(s));
  }

  /** `FormatTime` in terms of its three field values. */
  lemma FormatTimeOf(seconds: int, h: int, m: int, s: int)
    requires h == seconds / 3600 && m == JsRem(seconds, 3600) / 60 && s == JsRem(seconds, 60)
    ensures FormatTime(seconds)
            == PadStart2(JsToString(h)) + ":" + PadStart2(JsToString(m)) + ":" + PadStart2(JsToString(s))
  {
  }

  /** The padded numerals of the field values the examples use. */
  lemma SmallFields()
    ensures PadStart2(JsToString(0)) == "00"
    ensures PadStart2(JsToString(1)) == "01"
    ensures PadStart2(JsToString(-1)) == "-1"
    ensures PadStart2(JsToString(100)) == "100"
  {
    assert Digits(0) == "0";
    assert Digits(1) == "1";
    assert Digits(10) == "10";
    assert Digits(100) == "100";
  }

  /** The start of every session: zero seconds displays as "00:00:00". */
  lemma FormatTimeZero()
    ensures FormatTime(0) == "00:00:00"
  {
    FormatTimeOf(0, 0, 0, 0);
    SmallFields();
  }

  /** One hour, one minute and one second display as "01:01:01". */
  lemma FormatTimeOneOneOne()
    ensures FormatTime(3661) == "01:01:01"
  {
    FormatTimeOf(3661, 1, 1, 1);
    SmallFields();
  }

  /** A hundred hours display as "100:00:00": the hours field is not capped at two digits. */
  lemma FormatTimeHundredHours()
    ensures FormatTime(360000) == "100:00:00"
    ensures Split(FormatTime(360000))[0] == "100"
  {
    FormatTimeOf(360000, 100, 0, 0);
    SmallFields();
    SplitThree("100", "00", "00");
  }

  /**
   * A negative count, which a clock set back between start and tick
   * produces, renders each field with its own minus sign: one second
   * before the start reads "-1:-1:-1".
   */
  lemma FormatTimeNegative()
    ensures FormatTime(-1) == "-1:-1:-1"
  {
    FormatTimeOf(-1, -1, -1, -1);
    SmallFields();
  }
}
