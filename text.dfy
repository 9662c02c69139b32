/** Character classes and string operations the script gets from JavaScript:
    the `\s` and `\d` regular-expression classes, `String.prototype.trim`,
    and a global `replace` that deletes every character of a class. */
module Text {

  /** JavaScript's white space: the WhiteSpace and LineTerminator code points.
      The regular-expression class `\s` and `trim()` both use this set. */
  predicate IsJsSpace(c: char)
  {
    || c == '\t' || c == '\n' || c == '\U{000B}' || c == '\U{000C}' || c == '\r'
    || c == ' ' || c == '\U{00A0}' || c == '\U{1680}'
    || ('\U{2000}' <= c <= '\U{200A}')
    || c == '\U{2028}' || c == '\U{2029}' || c == '\U{202F}' || c == '\U{205F}'
    || c == '\U{3000}' || c == '\U{FEFF}'
  }

  /** The class `[0-9]`, which is also what `\d` means. */
  predicate IsAsciiDigit(c: char)
  {
    '0' <= c <= '9'
  }

  predicate AllDigits(s: string)
  {
    forall i :: 0 <= i < |s| ==> IsAsciiDigit(s[i])
  }

  /** The characters of `s` that satisfy `keep`, in order: what
      `s.replace(/[class]/g, '')` leaves when the class is the complement of `keep`. */
  function Keep(s: string, keep: char -> bool): (r: string)
  {
    if s == [] then []
    else (if keep(s[0]) then [s[0]] else []) + Keep(s[1..], keep)
  }

  /** The filter only deletes: what it leaves is no longer than its input and
      satisfies `keep`, and an input that satisfies `keep` throughout is
      left as it is. */
  lemma {:induction false} KeepFacts(s: string, keep: char -> bool)
    ensures |Keep(s, keep)| <= |s|
    ensures forall i :: 0 <= i < |Keep(s, keep)| ==> keep(Keep(s, keep)[i])
    ensures (forall i :: 0 <= i < |s| ==> keep(s[i])) ==> Keep(s, keep) == s
  {
    if s != [] {
      KeepFacts(s[1..], keep);
    }
  }

  /** `s.replace(/\D/g, '')`: every non-digit deleted. */
  function Digits(s: string): (d: string)
  {
    Keep(s, IsAsciiDigit)
  }

  lemma {:induction false} KeepAppend(a: string, b: string, keep: char -> bool)
    ensures Keep(a + b, keep) == Keep(a, keep) + Keep(b, keep)
  {
    if a == [] {
      assert a + b == b;
    } else {
      var head := if keep(a[0]) then [a[0]] else [];
      assert (a + b)[0] == a[0];
      assert (a + b)[1..] == a[1..] + b;
      KeepAppend(a[1..], b, keep);
      calc {
        Keep(a + b, keep);
        head + Keep(a[1..] + b, keep);
        head + (Keep(a[1..], keep) + Keep(b, keep));
        (head + Keep(a[1..], keep)) + Keep(b, keep);
      }
    }
  }

  /** Keeping with `p` and then with a stronger `q` is keeping with `q`. */
  lemma {:induction false} KeepKeep(s: string, p: char -> bool, q: char -> bool)
    requires forall c :: q(c) ==> p(c)
    ensures Keep(Keep(s, p), q) == Keep(s, q)
  {
    if s != [] {
      var head := if p(s[0]) then [s[0]] else [];
      KeepAppend(head, Keep(s[1..], p), q);
      KeepKeep(s[1..], p, q);
    }
  }

  /** Two filters that agree on every character of `s` leave the same string. */
  lemma {:induction false} KeepAgree(s: string, p: char -> bool, q: char -> bool)
    requires forall i :: 0 <= i < |s| ==> p(s[i]) == q(s[i])
    ensures Keep(s, p) == Keep(s, q)
  {
    if s != [] {
      KeepAgree(s[1..], p, q);
    }
  }

  /** A filter leaves nothing exactly when it rejects every character of `s`. */
  lemma {:induction false} KeepNone(s: string, keep: char -> bool)
    ensures Keep(s, keep) == [] <==> forall i :: 0 <= i < |s| ==> !keep(s[i])
  {
    if s != [] {
      KeepNone(s[1..], keep);
      assert forall i :: 1 <= i < |s| ==> s[i] == s[1..][i - 1];
    }
  }

  /** `Digits` leaves only digits, and leaves an all-digit string alone. */
  lemma DigitsFacts(s: string)
    ensures |Digits(s)| <= |s| && AllDigits(Digits(s))
    ensures AllDigits(s) ==> Digits(s) == s
  {
    KeepFacts(s, IsAsciiDigit);
  }

  lemma DigitsAppend(a: string, b: string)
    ensures Digits(a + b) == Digits(a) + Digits(b)
  {
    KeepAppend(a, b, IsAsciiDigit);
  }

  /** Leading white space removed (`trimStart`). */
  function TrimStart(s: string): (r: string)
  {
    if s != [] && IsJsSpace(s[0]) then TrimStart(s[1..]) else s
  }

  /** `trimStart` removes a prefix of white space and nothing more. */
  lemma {:induction false} TrimStartFacts(s: string)
    ensures var r := TrimStart(s);
      && |r| <= |s| && r == s[|s| - |r|..]
      && (forall i :: 0 <= i < |s| - |r| ==> IsJsSpace(s[i]))
      && (r == [] || !IsJsSpace(r[0]))
  {
    if s != [] && IsJsSpace(s[0]) {
      TrimStartFacts(s[1..]);
    }
  }

  /** Trailing white space removed (`trimEnd`). */
  function TrimEnd(s: string): (r: string)
  {
    if s != [] && IsJsSpace(s[|s| - 1]) then TrimEnd(s[..|s| - 1]) else s
  }

  /** `trimEnd` removes a suffix of white space and nothing more. */
  lemma {:induction false} TrimEndFacts(s: string)
    ensures var r := TrimEnd(s);
      && |r| <= |s| && r == s[..|r|]
      && (forall i :: |r| <= i < |s| ==> IsJsSpace(s[i]))
      && (r == [] || !IsJsSpace(r[|r| - 1]))
  {
    if s != [] && IsJsSpace(s[|s| - 1]) {
      TrimEndFacts(s[..|s| - 1]);
    }
  }

  /** `s.trim()`: leading and trailing white space removed. */
  function Trim(s: string): (r: string)
  {
    TrimEnd(TrimStart(s))
  }

  /** `trim()` keeps one contiguous slice of its input, drops only white space
      around it, and leaves no white space at either end. */
  lemma TrimIsSlice(s: string)
    ensures exists lo, hi | 0 <= lo <= hi <= |s| ::
      && Trim(s) == s[lo..hi]
      && (forall i :: 0 <= i < lo ==> IsJsSpace(s[i]))
      && (forall i :: hi <= i < |s| ==> IsJsSpace(s[i]))
    ensures Trim(s) == [] || (!IsJsSpace(Trim(s)[0]) && !IsJsSpace(Trim(s)[|Trim(s)| - 1]))
  {
    var t := TrimStart(s);
    TrimStartFacts(s);
    var lo := |s| - |t|;
    var r := TrimEnd(t);
    TrimEndFacts(t);
    var hi := lo + |r|;
    assert r == t[..|r|] == s[lo..hi];
    assert forall i :: hi <= i < |s| ==> s[i] == t[i - lo];
    assert r != [] ==> r[0] == t[0];
  }

  /** A trimmed value is empty exactly when the input was all white space,
      which is when JavaScript treats the trimmed value as falsy. */
  lemma TrimEmptyIff(s: string)
    ensures Trim(s) == [] <==> forall i :: 0 <= i < |s| ==> IsJsSpace(s[i])
  {
    var t := TrimStart(s);
    TrimStartFacts(s);
    TrimEndFacts(t);
    assert forall i :: |s| - |t| <= i < |s| ==> s[i] == t[i - (|s| - |t|)];
  }
}
