/**
  The string operations of Python that the engine relies on:
  `str.strip`, `str.upper`, `str.startswith`, `str.endswith`, the `in`
  substring test, `split(sep)[-1]`, iteration over the lines of a text file,
  `str * n`, zero-padded decimal formatting and the ordering of `str` values.
 */
module Text {

  /** The characters for which Python's `str.isspace()` holds; `str.strip()`
      removes these and the regular-expression class `\s` matches them. */
  predicate IsSpace(c: char) {
    c == ' ' || '\t' <= c <= '\r' || '\U{1C}' <= c <= '\U{1F}'
    || c == '\U{85}' || c == '\U{A0}' || c == '\U{1680}'
    || '\U{2000}' <= c <= '\U{200A}' || c == '\U{2028}' || c == '\U{2029}'
    || c == '\U{202F}' || c == '\U{205F}' || c == '\U{3000}'
  }

  /** The ASCII decimal digits. */
  predicate IsDigit(c: char) {
    '0' <= c <= '9'
  }

  /** Upper-casing of one character (ASCII letters only). */
  function UpperChar(c: char): char {
    if 'a' <= c <= 'z' then (c as int - 32) as char else c
  }

  /** `s.upper()` for ASCII text: same length, each letter upper-cased. */
  function Upper(s: string): (r: string)
    ensures |r| == |s|
    ensures forall i :: 0 <= i < |s| ==> r[i] == UpperChar(s[i])
  {
    seq(|s|, i requires 0 <= i < |s| => UpperChar(s[i]))
  }

  /** `s.lstrip()`: `s` without its leading spaces. */
  function StripLeft(s: string): (r: string)
    ensures |r| <= |s|
  {
    if s == [] || !IsSpace(s[0]) then s else StripLeft(s[1..])
  }

  /** `s.rstrip()`: `s` without its trailing spaces. */
  function StripRight(s: string): (r: string)
    ensures |r| <= |s|
  {
    if s == [] || !IsSpace(s[|s| - 1]) then s else StripRight(s[..|s| - 1])
  }

  /** `lstrip` removes exactly the longest run of leading spaces. */
  lemma {:induction false} StripLeftRemovesSpaces(s: string)
    ensures StripLeft(s) == s[|s| - |StripLeft(s)|..]
    ensures forall k :: 0 <= k < |s| - |StripLeft(s)| ==> IsSpace(s[k])
    ensures StripLeft(s) == [] || !IsSpace(StripLeft(s)[0])
  {
    if s != [] && IsSpace(s[0]) {
      var t := s[1..];
      StripLeftRemovesSpaces(t);
      assert StripLeft(s) == StripLeft(t);
      forall k | 1 <= k < |s| - |StripLeft(s)|
        ensures IsSpace(s[k])
      {
        assert s[k] == t[k - 1];
      }
    }
  }

  /** `rstrip` removes exactly the longest run of trailing spaces. */
  lemma {:induction false} StripRightRemovesSpaces(s: string)
    ensures StripRight(s) == s[..|StripRight(s)|]
    ensures forall k :: |StripRight(s)| <= k < |s| ==> IsSpace(s[k])
    ensures StripRight(s) == [] || !IsSpace(StripRight(s)[|StripRight(s)| - 1])
  {
    if s != [] && IsSpace(s[|s| - 1]) {
      var t := s[..|s| - 1];
      StripRightRemovesSpaces(t);
      assert StripRight(s) == StripRight(t);
      forall k | |StripRight(s)| <= k < |t|
        ensures IsSpace(s[k])
      {
        assert s[k] == t[k];
      }
    }
  }

  /** `s.strip()`: `s` without its leading and trailing spaces. */
  function Strip(s: string): (r: string)
    ensures |r| <= |s|
  {
    StripRight(StripLeft(s))
  }

  /** What `strip` leaves neither starts nor ends with a space. */
  lemma StripTrims(s: string)
    ensures Strip(s) == [] || (!IsSpace(Strip(s)[0]) && !IsSpace(Strip(s)[|Strip(s)| - 1]))
  {
    StripLeftRemovesSpaces(s);
    StripRightRemovesSpaces(StripLeft(s));
  }

  predicate StartsWith(s: string, prefix: string) {
    |prefix| <= |s| && s[..|prefix|] == prefix
  }

  predicate EndsWith(s: string, suffix: string) {
    |suffix| <= |s| && s[|s| - |suffix|..] == suffix
  }

  /** Python's `sub in s`. */
  predicate Contains(s: string, sub: string) {
    exists i :: 0 <= i <= |s| && StartsWith(s[i..], sub)
  }

  /** `s.split(sep)[-1]`: the text after the last `sep`, or all of `s`
      when `sep` does not occur. */
  function AfterLast(s: string, sep: char): (r: string)
    ensures |r| <= |s| && r == s[|s| - |r|..]
    ensures sep !in r
    ensures |r| < |s| ==> s[|s| - |r| - 1] == sep
    ensures sep !in s ==> r == s
  {
    if s == [] then []
    else if s[|s| - 1] == sep then []
    else AfterLast(s[..|s| - 1], sep) + [s[|s| - 1]]
  }

  /** The position of the first `c` in `s`, if any. */
  function IndexOf(s: string, c: char): (r: int)
    ensures -1 <= r < |s|
    ensures r == -1 <==> c !in s
    ensures r >= 0 ==> s[r] == c && c !in s[..r]
  {
    if s == [] then -1
    else if s[0] == c then 0
    else var k := IndexOf(s[1..], c); if k == -1 then -1 else k + 1
  }

  /** Iterating over a text file opened with `open(path, 'r')`: every line
      keeps its terminating newline, a last line without one is kept as it
      is, and an empty file has no lines. */
  function Lines(s: string): (r: seq<string>)
    ensures Concat(r) == s
    decreases |s|
  {
    if s == [] then []
    else
      var i := IndexOf(s, '\n');
      if i == -1 then [s] else [s[..i + 1]] + Lines(s[i + 1..])
  }

  /** A line of a text file: not empty, and a newline only as its last
      character. */
  predicate IsLine(l: string) {
    l != [] && '\n' !in l[..|l| - 1]
  }

  predicate EndsInNewline(l: string) {
    l != [] && l[|l| - 1] == '\n'
  }

  /** Every line is a line of a text file, and every line but the last ends
      with its newline. */
  lemma {:induction false} LinesShape(s: string)
    ensures forall k :: 0 <= k < |Lines(s)| ==> IsLine(Lines(s)[k])
    ensures forall k :: 0 <= k < |Lines(s)| - 1 ==> EndsInNewline(Lines(s)[k])
    decreases |s|
  {
    if s != [] {
      var i := IndexOf(s, '\n');
      if i != -1 {
        var head := s[..i + 1];
        var tail := Lines(s[i + 1..]);
        LinesShape(s[i + 1..]);
        assert head[..i] == s[..i];
        assert IsLine(head) && EndsInNewline(head);
        LinesConsShape(head, tail);
      }
    }
  }

  lemma LinesConsShape(head: string, tail: seq<string>)
    requires IsLine(head) && EndsInNewline(head)
    requires forall k :: 0 <= k < |tail| ==> IsLine(tail[k])
    requires forall k :: 0 <= k < |tail| - 1 ==> EndsInNewline(tail[k])
    ensures forall k :: 0 <= k < |[head] + tail| ==> IsLine(([head] + tail)[k])
    ensures forall k :: 0 <= k < |[head] + tail| - 1 ==> EndsInNewline(([head] + tail)[k])
  {
    var r := [head] + tail;
    forall k | 1 <= k < |r|
      ensures r[k] == tail[k - 1]
    {
    }
  }

  /** A first line that ends in its only newline is split off as it is. */
  lemma LinesCons(a: string, b: string)
    requires a != [] && a[|a| - 1] == '\n' && '\n' !in a[..|a| - 1]
    ensures Lines(a + b) == [a] + Lines(b)
  {
    var s := a + b;
    assert s[..|a| - 1] == a[..|a| - 1];
    assert s[|a| - 1] == '\n';
    var i := IndexOf(s, '\n');
    assert s[..i + 1] == a && s[i + 1..] == b;
  }

  function Concat(parts: seq<string>): string {
    if parts == [] then [] else parts[0] + Concat(parts[1..])
  }

  /** `c * n` for a one-character string `c`. */
  function Repeat(c: char, n: nat): (r: string)
    ensures |r| == n && forall k :: 0 <= k < n ==> r[k] == c
  {
    seq(n, _ => c)
  }

  function Pow10(w: nat): (r: nat)
    ensures r >= 1
  {
    if w == 0 then 1 else 10 * Pow10(w - 1)
  }

  function DigitChar(d: nat): char
    requires d < 10
  {
    ('0' as int + d) as char
  }

  /** `str(n)` for a natural number: its decimal digits, no leading zero. */
  function Decimal(n: nat): (r: string)
    ensures r != [] && forall k :: 0 <= k < |r| ==> IsDigit(r[k])
    ensures r[0] == '0' ==> n == 0
  {
    if n < 10 then [DigitChar(n)] else Decimal(n / 10) + [DigitChar(n % 10)]
  }

  /** The number a string of decimal digits denotes. */
  function DigitsValue(s: string): nat
    requires forall k :: 0 <= k < |s| ==> IsDigit(s[k])
  {
    if s == [] then 0
    else
      assert IsDigit(s[|s| - 1]);
      10 * DigitsValue(s[..|s| - 1]) + (s[|s| - 1] as int - '0' as int)
  }

  /** Reading back what `Decimal` writes gives the number again. */
  lemma {:induction false} DecimalRoundTrip(n: nat)
    ensures DigitsValue(Decimal(n)) == n
  {
    if n >= 10 {
      DecimalRoundTrip(n / 10);
      var d := Decimal(n);
      assert d[..|d| - 1] == Decimal(n / 10);
    }
  }

  /** Different numbers are written differently. */
  lemma DecimalInjective(n: nat, m: nat)
    ensures Decimal(n) == Decimal(m) <==> n == m
  {
    DecimalRoundTrip(n);
    DecimalRoundTrip(m);
  }

  /** `n` written in decimal with leading zeros to exactly `w` digits, as the
      `%Y`, `%m`, `%d`, `%H`, `%M` and `%S` directives of `strftime` do. */
  function Pad(n: nat, w: nat): (r: string)
    ensures |r| == w
  {
    if w == 0 then [] else Pad(n / 10, w - 1) + [DigitChar(n % 10)]
  }

  /** Every character of a padded field is a decimal digit. */
  lemma {:induction false} PadDigits(n: nat, w: nat)
    ensures forall k :: 0 <= k < w ==> IsDigit(Pad(n, w)[k])
  {
    if w > 0 {
      PadDigits(n / 10, w - 1);
    }
  }

  /** Python's `a < b` on strings: code point by code point, a proper prefix
      before the longer string. */
  predicate LexLess(a: string, b: string) {
    if a == [] then b != []
    else if b == [] then false
    else a[0] < b[0] || (a[0] == b[0] && LexLess(a[1..], b[1..]))
  }

  lemma {:induction false} LexLessIrreflexive(a: string)
    ensures !LexLess(a, a)
  {
    if a != [] {
      LexLessIrreflexive(a[1..]);
    }
  }

  lemma {:induction false} LexLessTransitive(a: string, b: string, c: string)
    requires LexLess(a, b) && LexLess(b, c)
    ensures LexLess(a, c)
  {
    if a != [] && a[0] == b[0] && b[0] == c[0] {
      LexLessTransitive(a[1..], b[1..], c[1..]);
    }
  }

  /** Any two different strings are ordered one way or the other. */
  lemma {:induction false} LexLessTotal(a: string, b: string)
    ensures a == b || LexLess(a, b) || LexLess(b, a)
  {
    if a != [] && b != [] && a[0] == b[0] {
      LexLessTotal(a[1..], b[1..]);
      if a[1..] == b[1..] {
        assert a == [a[0]] + a[1..] && b == [b[0]] + b[1..];
      }
    }
  }

  lemma {:induction false} LexLessAsymmetric(a: string, b: string)
    requires LexLess(a, b)
    ensures !LexLess(b, a)
  {
    if LexLess(b, a) {
      LexLessTransitive(a, b, a);
      LexLessIrreflexive(a);
    }
  }

  /** Comparing two strings that start with parts of equal length compares
      those parts first and the rest only when they are equal. */
  lemma {:induction false} LexLessConcat(a: string, b: string, c: string, d: string)
    requires |a| == |c|
    ensures LexLess(a + b, c + d) <==> LexLess(a, c) || (a == c && LexLess(b, d))
  {
    if a == [] {
      assert a + b == b && c + d == d;
    } else {
      assert (a + b)[0] == a[0] && (c + d)[0] == c[0];
      assert (a + b)[1..] == a[1..] + b && (c + d)[1..] == c[1..] + d;
      LexLessConcat(a[1..], b, c[1..], d);
      if a[0] == c[0] && a[1..] == c[1..] {
        assert a == c;
      }
      if a == c {
        assert a[1..] == c[1..];
      }
    }
  }

  /** On numbers below `10^w`, the order of their `w`-digit zero-padded
      decimal forms is the order of the numbers. */
  lemma {:induction false} PadOrder(n: nat, m: nat, w: nat)
    requires n < Pow10(w) && m < Pow10(w)
    ensures LexLess(Pad(n, w), Pad(m, w)) <==> n < m
    decreases w, 0
  {
    if w == 0 {
      assert n == 0 && m == 0;
    } else {
      var p := Pow10(w - 1);
      assert n / 10 < p && m / 10 < p;
      PadOrder(n / 10, m / 10, w - 1);
      var dn, dm := [DigitChar(n % 10)], [DigitChar(m % 10)];
      LexLessConcat(Pad(n / 10, w - 1), dn, Pad(m / 10, w - 1), dm);
      assert LexLess(dn, dm) <==> n % 10 < m % 10;
      PadInjective(n / 10, m / 10, w - 1);
      assert n == 10 * (n / 10) + n % 10 && m == 10 * (m / 10) + m % 10;
    }
  }

  /** Different numbers below `10^w` have different `w`-digit forms. */
  lemma {:induction false} PadInjective(n: nat, m: nat, w: nat)
    requires n < Pow10(w) && m < Pow10(w)
    ensures Pad(n, w) == Pad(m, w) <==> n == m
    decreases w, 1
  {
    if n < m {
      PadOrder(n, m, w);
      LexLessIrreflexive(Pad(n, w));
    } else if m < n {
      PadOrder(m, n, w);
      LexLessIrreflexive(Pad(m, w));
    }
  }

  /** `r` comes after every other element of `s` in Python's string order. */
  predicate IsGreatest(r: string, s: set<string>) {
    r in s && forall x :: x in s && x != r ==> LexLess(x, r)
  }

  lemma {:induction false} GreatestExists(s: set<string>)
    requires s != {}
    ensures exists r :: IsGreatest(r, s)
    decreases |s|
  {
    var y :| y in s;
    var rest := s - {y};
    if rest == {} {
      assert s == {y};
      assert IsGreatest(y, s);
    } else {
      GreatestExists(rest);
      var m :| IsGreatest(m, rest);
      LexLessTotal(m, y);
      if LexLess(m, y) {
        forall x | x in s && x != y
          ensures LexLess(x, y)
        {
          if x != m {
            LexLessTransitive(x, m, y);
          }
        }
        assert IsGreatest(y, s);
      } else {
        assert IsGreatest(m, s);
      }
    }
  }

  /** A set has at most one greatest element. */
  lemma GreatestUnique(r1: string, r2: string, s: set<string>)
    requires IsGreatest(r1, s) && IsGreatest(r2, s)
    ensures r1 == r2
  {
    if r1 != r2 {
      LexLessAsymmetric(r1, r2);
    }
  }

  /** `sorted(s, reverse=True)[0]`: the greatest element of a non-empty set. */
  ghost function Greatest(s: set<string>): (r: string)
    requires s != {}
    ensures IsGreatest(r, s)
  {
    GreatestExists(s);
    var r :| IsGreatest(r, s);
    r
  }
}
