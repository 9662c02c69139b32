/** The input mask of the contact-number field (`formatPhoneNumber`): the
    digits of whatever was typed, laid out as `ddd`, `(ddd) ddd` or
    `(ddd) ddd-dddd`, at most ten digits kept. */
module PhoneFormat {
  import opened Text

  function Min(a: int, b: int): int
  {
    if a <= b then a else b
  }

  /** The first ten digits, or all of them when there are fewer:
      what the three slices of the mask keep between them. */
  function Take10(d: string): (r: string)
  {
    d[..Min(10, |d|)]
  }

  /** The layout step of the mask, on the digit string `num`. `slice(6, 10)`
      stops at the end of a shorter string, hence the `Min`. */
  function Render(num: string): (r: string)
  {
    if |num| < 4 then num
    else if |num| < 7 then "(" + num[..3] + ") " + num[3..]
    else "(" + num[..3] + ") " + num[3..6] + "-" + num[6..Min(10, |num|)]
  }

  /** `formatPhoneNumber(value)`: strip every non-digit, then lay out. */
  function FormatPhoneNumber(value: string): (r: string)
  {
    Render(Digits(value))
  }

  /** The strings the mask can produce, described by their shape alone:
      up to three bare digits; `(ddd) ` and one to three digits; or
      `(ddd) ddd-` and one to four digits. */
  predicate WellFormatted(s: string)
  {
    || (|s| <= 3 && AllDigits(s))
    || (&& 7 <= |s| && s[0] == '(' && AllDigits(s[1..4]) && s[4] == ')' && s[5] == ' '
        && (|| (|s| <= 9 && AllDigits(s[6..]))
            || (11 <= |s| <= 14 && AllDigits(s[6..9]) && s[9] == '-' && AllDigits(s[10..]))))
  }

  /** Punctuation contributes no digits: `Digits(x + p + y)` is `Digits(x) + Digits(y)`
      for a string `p` without digits. */
  lemma DigitsSkip(x: string, p: string, y: string)
    requires forall i :: 0 <= i < |p| ==> !IsAsciiDigit(p[i])
    ensures Digits(x + p + y) == Digits(x) + Digits(y)
  {
    KeepNone(p, IsAsciiDigit);
    DigitsAppend(x, p);
    DigitsAppend(x + p, y);
  }

  /** The punctuation of the mask contributes no digits. */
  lemma DigitsOfMask(a: string, b: string, c: string)
    requires AllDigits(a) && AllDigits(b) && AllDigits(c)
    ensures Digits("(" + a + ") " + b) == a + b
    ensures Digits("(" + a + ") " + b + "-" + c) == a + b + c
  {
    DigitsFacts(a);
    DigitsFacts(b);
    DigitsFacts(c);
    var open, close, dash := "(", ") ", "-";
    DigitsSkip([], open, a);
    assert [] + open + a == open + a;
    DigitsSkip(open + a, close, b);
    DigitsSkip(open + a + close + b, dash, c);
  }

  /** The digits of the laid-out string are the first ten digits, in order. */
  lemma RenderDigits(num: string)
    requires AllDigits(num)
    ensures Digits(Render(num)) == Take10(num)
  {
    if 4 <= |num| < 7 {
      DigitsOfMask(num[..3], num[3..], "");
      assert num[..3] + num[3..] == num;
    } else if 7 <= |num| {
      var n := Min(10, |num|);
      DigitsOfMask(num[..3], num[3..6], num[6..n]);
      assert Render(num) == "(" + num[..3] + ") " + num[3..6] + "-" + num[6..n];
      assert num[..3] + num[3..6] + num[6..n] == num[..n];
    } else if |num| < 4 {
      DigitsFacts(num);
    }
  }

  lemma RenderWellFormatted(num: string)
    requires AllDigits(num)
    ensures WellFormatted(Render(num))
  {
    var r := Render(num);
    if 4 <= |num| < 7 {
      assert r[1..4] == num[..3] && r[6..] == num[3..];
    } else if 7 <= |num| {
      var n := Min(10, |num|);
      assert r[1..4] == num[..3] && r[6..9] == num[3..6] && r[10..] == num[6..n];
    }
  }

  /** Digits past the tenth never reach the output. */
  lemma RenderTake10(num: string)
    ensures Render(num) == Render(Take10(num))
  {
  }

  /** A string already in the mask's shape is left exactly as it is. */
  lemma {:induction false} WellFormattedIsFixed(s: string)
    requires WellFormatted(s)
    ensures FormatPhoneNumber(s) == s
  {
    if |s| <= 3 {
      DigitsFacts(s);
    } else if |s| <= 9 {
      var a, b := s[1..4], s[6..];
      assert s == "(" + a + ") " + b;
      DigitsOfMask(a, b, "");
      assert (a + b)[..3] == a && (a + b)[3..] == b;
    } else {
      var a, b, c := s[1..4], s[6..9], s[10..];
      assert s == "(" + a + ") " + b + "-" + c;
      DigitsOfMask(a, b, c);
      var d := a + b + c;
      assert d[..3] == a && d[3..6] == b && d[6..Min(10, |d|)] == c;
    }
  }

  /** The digits of the output, in order, are the first `min(10, n)` digits of
      the input; digits beyond the tenth are dropped. */
  lemma FormatKeepsDigits(value: string)
    ensures Digits(FormatPhoneNumber(value)) == Take10(Digits(value))
  {
    DigitsFacts(value);
    RenderDigits(Digits(value));
  }

  /** Every output of the mask has the mask's shape. */
  lemma FormatIsWellFormatted(value: string)
    ensures WellFormatted(FormatPhoneNumber(value))
  {
    DigitsFacts(value);
    RenderWellFormatted(Digits(value));
  }

  /** Formatting what the mask already produced changes nothing, so the
      handler that reformats on every keystroke is stable. */
  lemma FormatIdempotent(value: string)
    ensures FormatPhoneNumber(FormatPhoneNumber(value)) == FormatPhoneNumber(value)
  {
    FormatIsWellFormatted(value);
    WellFormattedIsFixed(FormatPhoneNumber(value));
  }

  /** Shape and digits together pin the output down: a well-formatted string
      whose digits are the first ten digits of `value` is the mask of `value`. */
  lemma FormatCharacterized(value: string, s: string)
    requires WellFormatted(s) && Digits(s) == Take10(Digits(value))
    ensures s == FormatPhoneNumber(value)
  {
    WellFormattedIsFixed(s);
    RenderTake10(Digits(value));
  }

  /** Reformatting a correctly formatted ten-digit number yields the same text. */
  lemma FormatExample()
    ensures FormatPhoneNumber("(555) 123-4567") == "(555) 123-4567"
  {
    var s := "(555) 123-4567";
    assert s[1..4] == "555" && s[6..9] == "123" && s[10..] == "4567";
    WellFormattedIsFixed(s);
  }
}
