/** The rule chain of `validateField`: required-and-empty, then the email
    pattern, then the telephone pattern, then the date-of-birth range. The
    outcome is a verdict that, when negative, carries exactly one message. */
module FieldRules {
  import opened Wrappers
  import opened Text
  import opened PhoneFormat

  const RequiredMessage := "This field is required."
  const EmailMessage := "Please enter a valid email address."
  const PhoneMessage := "Please enter a valid phone number."
  const DateMessage := "Please enter a valid date of birth."

  /** Outcome of one validation pass over one field. */
  datatype Verdict = Pass | Fail(message: string)

  /** The accepted range of dates of birth, as day numbers: twenty-five years
      before today up to three years before today. */
  datatype DateBounds = DateBounds(min: int, max: int)

  // ---------------------------------------------------------------------
  // Email: /^[^\s@]+@[^\s@]+\.[^\s@]+$/
  // ---------------------------------------------------------------------

  /** `[^\s@]+`: one or more characters, none white space and none `@`. */
  predicate EmailPart(t: string)
  {
    |t| > 0 && forall k :: 0 <= k < |t| ==> !IsJsSpace(t[k]) && t[k] != '@'
  }

  /** The email pattern, read as the regular expression reads it: some split
      `local @ host . tld` with each of the three parts in `[^\s@]+`.
      `host` may itself contain dots; backtracking tries every dot. */
  predicate EmailPattern(s: string)
  {
    exists i, j | 0 < i < |s| && i + 1 < j < |s| - 1 ::
      s[i] == '@' && s[j] == '.' && EmailPart(s[..i]) && EmailPart(s[i + 1..j]) && EmailPart(s[j + 1..])
  }

  /** The position of the first `c` in `s`, or `|s|` when there is none. */
  function IndexOf(s: string, c: char): (k: nat)
    ensures k <= |s|
    ensures forall m :: 0 <= m < k ==> s[m] != c
    ensures k < |s| ==> s[k] == c
  {
    if s == [] then 0 else if s[0] == c then 0 else 1 + IndexOf(s[1..], c)
  }

  /** The same set of strings described without the pattern: no white space,
      exactly one `@`, something before it, and after it a `.` with at least
      one character on each side. */
  predicate EmailShape(s: string)
  {
    && (forall k :: 0 <= k < |s| ==> !IsJsSpace(s[k]))
    && multiset(s)['@'] == 1
    && var at := IndexOf(s, '@');
       && 0 < at < |s|
       && exists j | at + 1 < j < |s| - 1 :: s[j] == '.'
  }

  lemma NoAtCount(t: string)
    requires forall k :: 0 <= k < |t| ==> t[k] != '@'
    ensures multiset(t)['@'] == 0
  {
  }

  /** The first `c` is at `i` when `s[i]` is `c` and nothing before it is. */
  lemma IndexOfAt(s: string, c: char, i: nat)
    requires i < |s| && s[i] == c
    requires forall m :: 0 <= m < i ==> s[m] != c
    ensures IndexOf(s, c) == i
  {
  }

  /** A split that matches the pattern shows the string has the shape. */
  lemma PatternGivesShape(s: string, i: int, j: int)
    requires 0 < i < |s| && i + 1 < j < |s| - 1
    requires s[i] == '@' && s[j] == '.'
    requires EmailPart(s[..i]) && EmailPart(s[i + 1..j]) && EmailPart(s[j + 1..])
    ensures EmailShape(s)
  {
    forall k | 0 <= k < |s| && k != i ensures !IsJsSpace(s[k]) && s[k] != '@' {
      if k < i { assert s[k] == s[..i][k]; }
      else if k < j { assert s[k] == s[i + 1..j][k - i - 1]; }
      else if k > j { assert s[k] == s[j + 1..][k - j - 1]; }
    }
    assert s == s[..i] + [s[i]] + s[i + 1..];
    NoAtCount(s[..i]);
    NoAtCount(s[i + 1..]);
    IndexOfAt(s, '@', i);
  }

  /** A string of the shape splits as the pattern requires, at its only `@`. */
  lemma ShapeGivesPattern(s: string)
    requires EmailShape(s)
    ensures EmailPattern(s)
  {
    var i := IndexOf(s, '@');
    var j :| i + 1 < j < |s| - 1 && s[j] == '.';
    var local, rest := s[..i], s[i + 1..];
    assert s == local + [s[i]] + rest;
    assert multiset(s)['@'] == multiset(local)['@'] + 1 + multiset(rest)['@'];
    assert '@' !in rest;
    forall k | i < k < |s| ensures s[k] != '@' {
      assert s[k] == rest[k - i - 1];
    }
    assert EmailPart(local);
    assert EmailPart(s[i + 1..j]);
    assert EmailPart(s[j + 1..]);
  }

  /** The email pattern accepts exactly the strings of `EmailShape`. */
  lemma EmailPatternIff(s: string)
    ensures EmailPattern(s) <==> EmailShape(s)
  {
    if EmailPattern(s) {
      var i, j :| 0 < i < |s| && i + 1 < j < |s| - 1 && s[i] == '@' && s[j] == '.'
        && EmailPart(s[..i]) && EmailPart(s[i + 1..j]) && EmailPart(s[j + 1..]);
      PatternGivesShape(s, i, j);
    }
    if EmailShape(s) {
      ShapeGivesPattern(s);
    }
  }

  // ---------------------------------------------------------------------
  // Telephone: value.replace(/[\s\-\(\)]/g, '') tested against /^[\+]?[0-9]{7,15}$/
  // ---------------------------------------------------------------------

  /** The characters the telephone check deletes before matching. */
  predicate IsTelSeparator(c: char)
  {
    IsJsSpace(c) || c == '-' || c == '(' || c == ')'
  }

  predicate NotTelSeparator(c: char)
  {
    !IsTelSeparator(c)
  }

  function StripSeparators(s: string): (r: string)
  {
    Keep(s, NotTelSeparator)
  }

  /** `[0-9]{7,15}` */
  predicate DigitRun(t: string)
  {
    7 <= |t| <= 15 && AllDigits(t)
  }

  /** `^[\+]?[0-9]{7,15}$` */
  predicate PhonePattern(t: string)
  {
    DigitRun(t) || (|t| > 0 && t[0] == '+' && DigitRun(t[1..]))
  }

  predicate TelValid(value: string)
  {
    PhonePattern(StripSeparators(value))
  }

  /** The values the telephone rule accepts, described without the patterns:
      only digits, separators and `+`; 7 to 15 digits; at most one `+`, and
      no digit before it. */
  predicate TelShape(value: string)
  {
    && (forall k :: 0 <= k < |value| ==> IsAsciiDigit(value[k]) || IsTelSeparator(value[k]) || value[k] == '+')
    && 7 <= |Digits(value)| <= 15
    && multiset(value)['+'] <= 1
    && (forall i, j :: 0 <= i < j < |value| && IsAsciiDigit(value[i]) ==> value[j] != '+')
  }

  /** A valid telephone value has 7 to 15 digits; apart from separators it
      has only digits and at most one `+`; and no digit comes before a `+`. */
  lemma TelValidSound(value: string)
    requires TelValid(value)
    ensures 7 <= |Digits(value)| <= 15
    ensures forall k :: 0 <= k < |value| ==> IsAsciiDigit(value[k]) || IsTelSeparator(value[k]) || value[k] == '+'
    ensures multiset(value)['+'] <= 1
    ensures forall i, j :: 0 <= i < j < |value| && IsAsciiDigit(value[i]) ==> value[j] != '+'
  {
    var t := StripSeparators(value);
    KeepKeep(value, NotTelSeparator, IsAsciiDigit);
    PatternFacts(t);
    StrippedCharacters(value);
    PlusCount(value);
    PlusLeads(value);
  }

  /** What a match of the telephone pattern consists of: 7 to 15 digits and
      at most one `+`, which can only be the first character. */
  lemma PatternFacts(t: string)
    requires PhonePattern(t)
    ensures 7 <= |Digits(t)| <= 15
    ensures forall c :: c in t ==> IsAsciiDigit(c) || c == '+'
    ensures multiset(t)['+'] <= 1
    ensures forall j :: 0 < j < |t| ==> t[j] != '+'
  {
    if DigitRun(t) {
      DigitsFacts(t);
      assert '+' !in t;
    } else {
      var rest := t[1..];
      assert t == [t[0]] + rest;
      KeepAppend([t[0]], rest, IsAsciiDigit);
      assert Digits([t[0]]) == [];
      DigitsFacts(rest);
      assert '+' !in rest;
      assert multiset(t) == multiset{t[0]} + multiset(rest);
      assert forall j :: 0 < j < |t| ==> t[j] == rest[j - 1];
    }
  }

  /** Around a `+` at `p`, stripping and digit extraction work on the two
      sides separately, the `+` itself surviving the stripping only. */
  lemma StripAround(value: string, p: nat)
    requires p < |value| && value[p] == '+'
    ensures StripSeparators(value) == StripSeparators(value[..p]) + "+" + StripSeparators(value[p + 1..])
    ensures Digits(value) == Digits(value[..p]) + Digits(value[p + 1..])
    ensures multiset(value)['+'] == multiset(value[..p])['+'] + 1 + multiset(value[p + 1..])['+']
  {
    var pre, plus, post := value[..p], [value[p]], value[p + 1..];
    assert value == pre + plus + post;
    KeepAppend(pre, plus, NotTelSeparator);
    KeepAppend(pre + plus, post, NotTelSeparator);
    KeepAppend(pre, plus, IsAsciiDigit);
    KeepAppend(pre + plus, post, IsAsciiDigit);
    assert StripSeparators(plus) == "+";
    assert Digits(plus) == [];
  }

  /** In a valid telephone value no digit comes before a `+`: the stripped
      string can hold a `+` only in front. */
  lemma PlusLeads(value: string)
    requires TelValid(value)
    ensures forall i, j :: 0 <= i < j < |value| && IsAsciiDigit(value[i]) ==> value[j] != '+'
  {
    var p := IndexOf(value, '+');
    if p < |value| {
      var pre, post := value[..p], value[p + 1..];
      StripAround(value, p);
      var t := StripSeparators(value);
      PatternFacts(t);
      assert t[|StripSeparators(pre)|] == '+';
      KeepNone(pre, NotTelSeparator);
      forall k | 0 <= k < p ensures !IsAsciiDigit(value[k]) {
        assert value[k] == pre[k];
      }
      PlusCount(value);
      assert multiset(post)['+'] == 0;
      forall k | p < k < |value| ensures value[k] != '+' {
        assert value[k] == post[k - p - 1];
        assert post[k - p - 1] in multiset(post);
      }
    }
  }

  /** Every character of `value` is a separator or survives into the
      stripped string. */
  lemma {:induction false} StrippedCharacters(value: string)
    ensures forall k :: 0 <= k < |value| ==> IsTelSeparator(value[k]) || value[k] in StripSeparators(value)
  {
    if value != [] {
      StrippedCharacters(value[1..]);
      var head := if NotTelSeparator(value[0]) then [value[0]] else [];
      assert StripSeparators(value) == head + StripSeparators(value[1..]);
      forall k | 0 <= k < |value| ensures IsTelSeparator(value[k]) || value[k] in StripSeparators(value) {
        if k > 0 { assert value[k] == value[1..][k - 1]; }
      }
    }
  }

  /** Stripping the separators keeps every `+`. */
  lemma {:induction false} PlusCount(value: string)
    ensures multiset(StripSeparators(value))['+'] == multiset(value)['+']
  {
    if value != [] {
      PlusCount(value[1..]);
      var head := if NotTelSeparator(value[0]) then [value[0]] else [];
      assert StripSeparators(value) == head + StripSeparators(value[1..]);
      assert value == [value[0]] + value[1..];
    }
  }

  /** Conversely, every value of that shape is accepted: 7 to 15 digits with
      separators anywhere and, optionally, one `+` ahead of all digits. */
  lemma TelValidComplete(value: string)
    requires TelShape(value)
    ensures TelValid(value)
  {
    var p := IndexOf(value, '+');
    if p < |value| {
      var pre, post := value[..p], value[p + 1..];
      StripAround(value, p);
      forall k | 0 <= k < |pre| ensures IsTelSeparator(pre[k]) {
        assert pre[k] == value[k];
      }
      KeepNone(pre, NotTelSeparator);
      KeepNone(pre, IsAsciiDigit);
      assert multiset(post)['+'] == 0;
      forall k | 0 <= k < |post| ensures IsAsciiDigit(post[k]) || IsTelSeparator(post[k]) {
        assert post[k] == value[p + 1 + k];
        assert post[k] in multiset(post);
      }
      StripIsDigits(post);
    } else {
      StripIsDigits(value);
    }
  }

  /** Without `+`, stripping the separators leaves exactly the digits, and
      the digit string, having 7 to 15 digits, matches the pattern. */
  lemma StripIsDigits(s: string)
    requires forall k :: 0 <= k < |s| ==> IsAsciiDigit(s[k]) || IsTelSeparator(s[k])
    ensures StripSeparators(s) == Digits(s)
    ensures 7 <= |Digits(s)| <= 15 ==> DigitRun(Digits(s))
  {
    KeepAgree(s, NotTelSeparator, IsAsciiDigit);
    DigitsFacts(s);
  }

  /** The telephone rule accepts exactly the values of `TelShape`. */
  lemma TelValidIff(value: string)
    ensures TelValid(value) <==> TelShape(value)
  {
    if TelValid(value) {
      TelValidSound(value);
    }
    if TelShape(value) {
      TelValidComplete(value);
    }
  }

  /** The mask of the contact-number field produces a valid telephone value
      as soon as seven digits have been typed. */
  lemma FormattedPhonePassesTel(value: string)
    requires 7 <= |Digits(value)|
    ensures TelValid(FormatPhoneNumber(value))
  {
    var r := FormatPhoneNumber(value);
    FormatKeepsDigits(value);
    FormatIsWellFormatted(value);
    forall k | 0 <= k < |r| ensures IsAsciiDigit(r[k]) || IsTelSeparator(r[k]) {
      if 1 <= k < 4 { assert r[k] == r[1..4][k - 1]; }
      else if 6 <= k < 9 { assert r[k] == r[6..9][k - 6]; }
      else if 10 <= k { assert r[k] == r[10..][k - 10]; }
    }
    TelValidComplete(r);
  }

  // ---------------------------------------------------------------------
  // Date of birth
  // ---------------------------------------------------------------------

  /** `!(date < min || date > max)`. An unparseable value is an invalid
      `Date`, whose comparisons are all false, so it is not rejected. */
  predicate DateAccepted(parsed: Option<int>, bounds: DateBounds)
  {
    match parsed
    case None => true
    case Some(day) => !(day < bounds.min || day > bounds.max)
  }

  // ---------------------------------------------------------------------
  // The rule chain
  // ---------------------------------------------------------------------

  /** The verdict of `validateField` for a field of type `inputType` holding
      `raw`. `parsed` is what the `Date` constructor makes of the trimmed value. */
  function Check(inputType: string, required: bool, raw: string, parsed: Option<int>, bounds: DateBounds): (v: Verdict)
  {
    var value := Trim(raw);
    if required && value == "" then Fail(RequiredMessage)
    else if inputType == "email" then (if EmailPattern(value) then Pass else Fail(EmailMessage))
    else if inputType == "tel" then (if TelValid(value) then Pass else Fail(PhoneMessage))
    else if inputType == "date" && value != "" then (if DateAccepted(parsed, bounds) then Pass else Fail(DateMessage))
    else Pass
  }

  /** The rules read as one condition: a field passes exactly when it is not
      required-and-blank, and its type's rule, if any, holds of the trimmed
      value (the email rule in its pattern-free form). */
  lemma CheckValidIff(inputType: string, required: bool, raw: string, parsed: Option<int>, bounds: DateBounds)
    ensures var value := Trim(raw);
      Check(inputType, required, raw, parsed, bounds) == Pass <==>
        && !(required && value == "")
        && (inputType == "email" ==> EmailShape(value))
        && (inputType == "tel" ==> TelValid(value))
        && (inputType == "date" && value != "" ==> DateAccepted(parsed, bounds))
  {
    EmailPatternIff(Trim(raw));
  }

  /** The first rule that applies decides, and its message is the only one:
      each message is produced exactly when its rule is the first to fail. */
  lemma CheckMessage(inputType: string, required: bool, raw: string, parsed: Option<int>, bounds: DateBounds)
    ensures var value := Trim(raw);
      var v := Check(inputType, required, raw, parsed, bounds);
      && (v == Fail(RequiredMessage) <==> required && value == "")
      && (v == Fail(EmailMessage) <==> !(required && value == "") && inputType == "email" && !EmailShape(value))
      && (v == Fail(PhoneMessage) <==> !(required && value == "") && inputType == "tel" && !TelValid(value))
      && (v == Fail(DateMessage) <==> !(required && value == "") && inputType == "date" && value != "" && !DateAccepted(parsed, bounds))
      && (v.Fail? ==> v.message in {RequiredMessage, EmailMessage, PhoneMessage, DateMessage})
  {
    EmailPatternIff(Trim(raw));
  }

  /** A required field that is blank after trimming fails with the required
      message, whatever its type. */
  lemma RequiredBlankFails(inputType: string, raw: string, parsed: Option<int>, bounds: DateBounds)
    requires forall k :: 0 <= k < |raw| ==> IsJsSpace(raw[k])
    ensures Check(inputType, true, raw, parsed, bounds) == Fail(RequiredMessage)
  {
    TrimEmptyIff(raw);
  }

  /** An optional email or telephone field left blank still fails: neither
      pattern matches the empty string. */
  lemma OptionalBlankEmailOrTelFails(inputType: string, raw: string, parsed: Option<int>, bounds: DateBounds)
    requires inputType == "email" || inputType == "tel"
    requires forall k :: 0 <= k < |raw| ==> IsJsSpace(raw[k])
    ensures Check(inputType, false, raw, parsed, bounds).Fail?
  {
    TrimEmptyIff(raw);
    KeepNone([], NotTelSeparator);
  }

  /** An optional date field left blank is skipped. */
  lemma OptionalBlankDatePasses(raw: string, parsed: Option<int>, bounds: DateBounds)
    requires forall k :: 0 <= k < |raw| ==> IsJsSpace(raw[k])
    ensures Check("date", false, raw, parsed, bounds) == Pass
  {
    TrimEmptyIff(raw);
  }

  /** A non-blank date passes exactly when it lies in the closed range
      `[min, max]`, or when it does not parse. */
  lemma DateRangeIff(required: bool, raw: string, day: int, bounds: DateBounds)
    requires exists k :: 0 <= k < |raw| && !IsJsSpace(raw[k])
    ensures Check("date", required, raw, Some(day), bounds) == Pass <==> bounds.min <= day <= bounds.max
    ensures Check("date", required, raw, None, bounds) == Pass
  {
    TrimEmptyIff(raw);
  }

  /** With the range ending three years ago and starting twenty-five years
      ago, a birth date ten years ago passes, and dates twenty-six years and
      two years ago fail. Day numbers stand for the calendar dates. */
  lemma DateExamples(raw: string, bounds: DateBounds, tenYears: int, twentySixYears: int, twoYears: int)
    requires exists k :: 0 <= k < |raw| && !IsJsSpace(raw[k])
    requires twentySixYears < bounds.min <= tenYears <= bounds.max < twoYears
    ensures Check("date", true, raw, Some(tenYears), bounds) == Pass
    ensures Check("date", true, raw, Some(twentySixYears), bounds) == Fail(DateMessage)
    ensures Check("date", true, raw, Some(twoYears), bounds) == Fail(DateMessage)
  {
    TrimEmptyIff(raw);
  }

  lemma EmailExamples()
    ensures EmailPattern("a@b.co")
    ensures !EmailPattern("bad@")
  {
    var s := "a@b.co";
    assert s[..1] == "a" && s[2..3] == "b" && s[4..] == "co";
    assert s[1] == '@' && s[3] == '.';
    assert EmailPart(s[..1]) && EmailPart(s[2..3]) && EmailPart(s[4..]);
  }

  /** Bare digit strings of length 7 to 15 are accepted. */
  lemma DigitRunAccepted(d: string)
    requires DigitRun(d)
    ensures TelValid(d)
  {
    StripIsDigits(d);
    DigitsFacts(d);
  }

  /** A `+` in front of 7 to 15 digits is accepted. */
  lemma LeadingPlusAccepted(d: string)
    requires DigitRun(d)
    ensures TelValid("+" + d)
  {
    KeepAppend("+", d, NotTelSeparator);
    assert StripSeparators("+") == "+";
    DigitRunAccepted(d);
    assert ("+" + d)[1..] == d;
  }

  /** A `+` after a digit is rejected, however many digits there are. */
  lemma TrailingPlusRejected(d: string)
    requires |d| > 0 && AllDigits(d)
    ensures !TelValid(d + "+")
  {
    var v := d + "+";
    assert IsAsciiDigit(v[0]) && v[|d|] == '+';
    TelValidIff(v);
  }

  lemma TelExamples()
    ensures TelValid("1234567")
    ensures !TelValid("123")
  {
    var short := "123";
    KeepFacts(short, NotTelSeparator);
    var long := "1234567";
    assert AllDigits(long);
    DigitRunAccepted(long);
  }
}
