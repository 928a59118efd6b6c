/**
 * The JavaScript string built-ins the application relies on:
 * `String.prototype.trim`, the regular-expression class `\s`, the global
 * replacement `s.replace(/\s+/g, '_')`, and the decimal rendering of a
 * non-negative integer inside a template literal.
 */
module Text {

  /** The characters matched by `\s` and removed by `trim()`: the ECMAScript
      WhiteSpace and LineTerminator code points. */
  predicate IsWhitespace(c: char): (b: bool)
    ensures b ==> c != '_' && c != '-' && c != '.' && !IsDigit(c)
  {
    var n := c as int;
    n == 0x09 || n == 0x0A || n == 0x0B || n == 0x0C || n == 0x0D || n == 0x20
    || n == 0xA0 || n == 0x1680 || (0x2000 <= n <= 0x200A) || n == 0x2028
    || n == 0x2029 || n == 0x202F || n == 0x205F || n == 0x3000 || n == 0xFEFF
  }

  predicate NoWhitespace(s: string) {
    forall i :: 0 <= i < |s| ==> !IsWhitespace(s[i])
  }

  predicate AllWhitespace(s: string) {
    forall i :: 0 <= i < |s| ==> IsWhitespace(s[i])
  }

  /** The length of the leading whitespace run of `s`. */
  function LeadingWhitespace(s: string): (n: nat)
    ensures n <= |s|
    ensures n < |s| ==> !IsWhitespace(s[n])
  {
    if s != [] && IsWhitespace(s[0]) then 1 + LeadingWhitespace(s[1..]) else 0
  }

  /** The length of the trailing whitespace run of `s`. */
  function TrailingWhitespace(s: string): (n: nat)
    ensures n <= |s|
    ensures n < |s| ==> !IsWhitespace(s[|s| - n - 1])
  {
    if s != [] && IsWhitespace(s[|s| - 1]) then 1 + TrailingWhitespace(s[..|s| - 1]) else 0
  }

  /** Everything inside the leading run is whitespace, so the run is maximal. */
  lemma {:induction false} LeadingRunIsWhitespace(s: string, i: nat)
    requires i < LeadingWhitespace(s)
    ensures IsWhitespace(s[i])
  {
    if i > 0 {
      LeadingRunIsWhitespace(s[1..], i - 1);
    }
  }

  /** Everything inside the trailing run is whitespace, so the run is maximal. */
  lemma {:induction false} TrailingRunIsWhitespace(s: string, i: nat)
    requires i < TrailingWhitespace(s)
    ensures IsWhitespace(s[|s| - 1 - i])
  {
    if i > 0 {
      TrailingRunIsWhitespace(s[..|s| - 1], i - 1);
    }
  }

  /** The string without its leading whitespace run; both `Trim` and
      `Sanitize` remove such a run. */
  function TrimStart(s: string): string {
    s[LeadingWhitespace(s)..]
  }

  /** `s.trim()`: drops the leading and then the trailing whitespace run;
      what remains neither starts nor ends with whitespace. */
  function Trim(s: string): (r: string)
    ensures |r| <= |s|
    ensures LeadingWhitespace(s) + |r| <= |s| && r == s[LeadingWhitespace(s)..LeadingWhitespace(s) + |r|]
    ensures r == [] || (!IsWhitespace(r[0]) && !IsWhitespace(r[|r| - 1]))
  {
    var t := TrimStart(s);
    t[..|t| - TrailingWhitespace(t)]
  }

  /** What `trim()` drops after its result is the trailing whitespace run,
      so the result together with the two dropped runs is the whole string. */
  lemma TrimDropsOnlyWhitespace(s: string)
    ensures AllWhitespace(s[LeadingWhitespace(s) + |Trim(s)|..])
  {
    var n := LeadingWhitespace(s);
    var t := s[n..];
    var m := TrailingWhitespace(t);
    assert |Trim(s)| == |t| - m;
    forall i | n + |Trim(s)| <= i < |s|
      ensures IsWhitespace(s[i])
    {
      TrailingRunIsWhitespace(t, |s| - 1 - i);
      assert s[i] == t[|t| - 1 - (|s| - 1 - i)];
    }
  }

  /** A string trims to the empty string exactly when every character of it
      is whitespace; this is the test `!s.trim()`. */
  lemma TrimEmptyIffBlank(s: string)
    ensures Trim(s) == [] <==> AllWhitespace(s)
  {
    var n := LeadingWhitespace(s);
    var t := TrimStart(s);
    if AllWhitespace(s) {
      assert n == |s|;
    } else {
      var k :| 0 <= k < |s| && !IsWhitespace(s[k]);
      if k < n {
        LeadingRunIsWhitespace(s, k);
      }
      var m := TrailingWhitespace(t);
      if m == |t| {
        TrailingRunIsWhitespace(t, |s| - 1 - k);
      }
    }
  }

  /** `s.replace(/\s+/g, '_')`: every maximal whitespace run becomes one
      underscore; the result never contains whitespace. */
  function Sanitize(s: string): (r: string)
    ensures NoWhitespace(r)
    decreases |s|
  {
    if s == [] then []
    else if IsWhitespace(s[0]) then "_" + Sanitize(TrimStart(s))
    else [s[0]] + Sanitize(s[1..])
  }

  /** A string without whitespace is left as it is. */
  lemma {:induction false} SanitizeKeepsPlain(s: string)
    requires NoWhitespace(s)
    ensures Sanitize(s) == s
    decreases |s|
  {
    if s != [] {
      SanitizeKeepsPlain(s[1..]);
    }
  }

  /** Sanitizing twice is sanitizing once. */
  lemma SanitizeIdempotent(s: string)
    ensures Sanitize(Sanitize(s)) == Sanitize(s)
  {
  }

  /** A non-empty run made only of whitespace becomes exactly one underscore. */
  lemma SanitizeRun(w: string)
    requires w != [] && AllWhitespace(w)
    ensures Sanitize(w) == "_"
  {
  }

  /** Appending to `a` does not lengthen its leading run, unless the run
      covers all of `a` and `b` starts with whitespace. */
  lemma {:induction false} LeadingWhitespaceConcat(a: string, b: string)
    requires LeadingWhitespace(a) < |a| || b == [] || !IsWhitespace(b[0])
    ensures LeadingWhitespace(a + b) == LeadingWhitespace(a)
  {
    if a == [] {
      assert a + b == b;
    } else {
      assert (a + b)[0] == a[0];
      if IsWhitespace(a[0]) {
        assert (a + b)[1..] == a[1..] + b;
        LeadingWhitespaceConcat(a[1..], b);
      }
    }
  }

  /** A string that starts with a character other than whitespace keeps
      that character in front of the sanitized rest. */
  lemma SanitizeUnfoldPlain(s: string)
    requires s != [] && !IsWhitespace(s[0])
    ensures Sanitize(s) == [s[0]] + Sanitize(s[1..])
  {
  }

  /** Dropping a prefix that lies inside `a` commutes with appending `b`. */
  lemma DropConcat(a: string, b: string, n: nat)
    requires n <= |a|
    ensures (a + b)[n..] == a[n..] + b
  {
  }

  /** A string that starts with whitespace sanitizes to one underscore in
      front of the sanitized rest after its leading run. */
  lemma SanitizeUnfoldRun(s: string, n: nat, rest: string)
    requires s != [] && IsWhitespace(s[0])
    requires n == LeadingWhitespace(s) && rest == s[n..]
    ensures Sanitize(s) == "_" + Sanitize(rest)
  {
  }

  /** A leading whitespace run of `a` that ends inside `a`, or where `b`
      does not continue it, becomes one underscore in front of the rest. */
  lemma SanitizeConsRun(a: string, b: string)
    requires a != [] && IsWhitespace(a[0])
    requires LeadingWhitespace(a) < |a| || b == [] || !IsWhitespace(b[0])
    ensures Sanitize(a + b) == "_" + Sanitize(a[LeadingWhitespace(a)..] + b)
  {
    var n := LeadingWhitespace(a);
    assert (a + b)[0] == a[0];
    assert n == LeadingWhitespace(a + b) by {
      LeadingWhitespaceConcat(a, b);
    }
    DropConcat(a, b, n);
    SanitizeUnfoldRun(a + b, n, a[n..] + b);
  }

  /** If `whole` is `x` in front of `p + q` and `left` is `x` in front of
      `p`, then `whole` is `left` followed by `q`. */
  lemma RegroupFront(x: string, p: string, q: string, whole: string, left: string)
    requires whole == x + (p + q) && left == x + p
    ensures whole == left + q
  {
  }

  /** The step of `SanitizeConcat` for an `a` that starts with a character
      other than whitespace. */
  lemma SanitizeConcatPlainStep(a: string, b: string)
    requires a != [] && !IsWhitespace(a[0])
    requires Sanitize(a[1..] + b) == Sanitize(a[1..]) + Sanitize(b)
    ensures Sanitize(a + b) == Sanitize(a) + Sanitize(b)
  {
    assert (a + b)[0] == a[0];
    DropConcat(a, b, 1);
    SanitizeUnfoldPlain(a + b);
    SanitizeUnfoldPlain(a);
    RegroupFront([a[0]], Sanitize(a[1..]), Sanitize(b), Sanitize(a + b), Sanitize(a));
  }

  /** The step of `SanitizeConcat` for an `a` that starts with a whitespace
      run not continued by `b`. */
  lemma SanitizeConcatRunStep(a: string, b: string)
    requires a != [] && IsWhitespace(a[0])
    requires LeadingWhitespace(a) < |a| || b == [] || !IsWhitespace(b[0])
    requires Sanitize(a[LeadingWhitespace(a)..] + b)
          == Sanitize(a[LeadingWhitespace(a)..]) + Sanitize(b)
    ensures Sanitize(a + b) == Sanitize(a) + Sanitize(b)
  {
    var n := LeadingWhitespace(a);
    SanitizeConsRun(a, b);
    SanitizeUnfoldRun(a, n, a[n..]);
    RegroupFront("_", Sanitize(a[n..]), Sanitize(b), Sanitize(a + b), Sanitize(a));
  }

  /** Sanitizing distributes over concatenation wherever the cut does not fall
      inside a whitespace run. With SanitizeRun and SanitizeKeepsPlain this
      determines Sanitize on every string. */
  lemma {:induction false} SanitizeConcat(a: string, b: string)
    requires a == [] || b == [] || !IsWhitespace(a[|a| - 1]) || !IsWhitespace(b[0])
    ensures Sanitize(a + b) == Sanitize(a) + Sanitize(b)
    decreases |a|
  {
    if a == [] {
      assert a + b == b;
    } else if !IsWhitespace(a[0]) {
      SanitizeConcat(a[1..], b);
      SanitizeConcatPlainStep(a, b);
    } else {
      var n := LeadingWhitespace(a);
      if n == |a| {
        LeadingRunIsWhitespace(a, |a| - 1);
      }
      SanitizeConcat(a[n..], b);
      SanitizeConcatRunStep(a, b);
    }
  }

  predicate IsDigit(c: char) {
    '0' <= c <= '9'
  }

  predicate AllDigits(s: string) {
    forall i :: 0 <= i < |s| ==> IsDigit(s[i])
  }

  function DigitChar(d: nat): char
    requires d < 10
  {
    ('0' as int + d) as char
  }

  /** The decimal rendering of a non-negative integer, as a template literal
      `${n}` produces it: at least one character, digits only. */
  function DecimalDigits(n: nat): (s: string)
    ensures |s| > 0 && AllDigits(s)
  {
    if n < 10 then [DigitChar(n)] else DecimalDigits(n / 10) + [DigitChar(n % 10)]
  }

  /** The rendering has no leading zero: it starts with `0` only for 0. */
  lemma {:induction false} DigitsCanonical(n: nat)
    ensures DecimalDigits(n)[0] == '0' ==> n == 0
  {
    if n >= 10 {
      DigitsCanonical(n / 10);
      assert DecimalDigits(n)[0] == DecimalDigits(n / 10)[0];
    }
  }

  /** Reads a decimal digit string back as a number. */
  function DigitsValue(s: string): nat
    requires AllDigits(s)
  {
    if s == [] then 0
    else 10 * DigitsValue(s[..|s| - 1]) + (s[|s| - 1] as int - '0' as int)
  }

  /** Reading back the decimal rendering gives the number again. */
  lemma {:induction false} DigitsRoundTrip(n: nat)
    ensures DigitsValue(DecimalDigits(n)) == n
  {
    var s := DecimalDigits(n);
    if n >= 10 {
      DigitsRoundTrip(n / 10);
      assert s[..|s| - 1] == DecimalDigits(n / 10);
    }
  }

  /** Different numbers render to different strings. */
  lemma DecimalDigitsInjective(m: nat, n: nat)
    ensures DecimalDigits(m) == DecimalDigits(n) ==> m == n
  {
    DigitsRoundTrip(m);
    DigitsRoundTrip(n);
  }

  /** Splitting at the first separator: two strings `a + [sep] + b` and
      `c + [sep] + d` whose heads `a`, `c` do not contain `sep` are equal
      only when their parts are. */
  lemma SplitAtSeparator(sep: char, a: string, b: string, c: string, d: string)
    requires sep !in a && sep !in c
    ensures a + [sep] + b == c + [sep] + d ==> a == c && b == d
  {
    var x, y := a + [sep] + b, c + [sep] + d;
    if x == y {
      assert |a| == |c| by {
        assert x[|a|] == sep;
        assert y[|c|] == sep;
      }
      assert a == x[..|a|] && c == y[..|c|];
      assert b == x[|a| + 1..] && d == y[|c| + 1..];
    }
  }
}
