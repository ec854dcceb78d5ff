/**
 * Character classes and number texts shared by the target loader, the
 * fallback command line and the ping-output parser.
 *
 *  - whitespace is Python's `str.isspace()` set, which is both what
 *    `str.strip()` removes and what `\s` matches in a `str` pattern;
 *  - integers are rendered as `str(int)` renders them;
 *  - `ParseDecimal` is Python's `float()` restricted to the texts the
 *    latency pattern `[\d.]+` can capture.
 */
module Text {
  import opened Wrappers

  // ---------------------------------------------------------------------
  // Whitespace and strip()
  // ---------------------------------------------------------------------

  /** Python's `str.isspace()` (Unicode White_Space minus U+180E, plus the
      four information separators U+001C..U+001F). */
  predicate IsSpace(c: char) {
    c == ' ' || ('\t' <= c <= '\r') || ('\U{1C}' <= c <= '\U{1F}')
    || c == '\U{85}' || c == '\U{A0}' || c == '\U{1680}'
    || ('\U{2000}' <= c <= '\U{200A}') || c == '\U{2028}' || c == '\U{2029}'
    || c == '\U{202F}' || c == '\U{205F}' || c == '\U{3000}'
  }

  predicate AllSpace(s: string) {
    forall k :: 0 <= k < |s| ==> IsSpace(s[k])
  }

  /** No whitespace at either end. */
  predicate IsTrimmed(s: string) {
    s == [] || (!IsSpace(s[0]) && !IsSpace(s[|s| - 1]))
  }

  /** `s[i..j]` is `s` with all leading and all trailing whitespace cut off. */
  predicate Trimming(s: string, i: int, j: int) {
    0 <= i <= j <= |s| && AllSpace(s[..i]) && AllSpace(s[j..]) && IsTrimmed(s[i..j])
  }

  /** Index of the first character that is not whitespace, |s| if none. */
  function LeadingSpace(s: string): (i: nat)
    ensures i <= |s| && AllSpace(s[..i])
    ensures i < |s| ==> !IsSpace(s[i])
  {
    if s == [] || !IsSpace(s[0]) then 0
    else
      var k := LeadingSpace(s[1..]);
      assert s[..1 + k] == [s[0]] + s[1..][..k];
      1 + k
  }

  /** Index just past the last character that is not whitespace, 0 if none. */
  function TrailingSpace(s: string): (j: nat)
    ensures j <= |s| && AllSpace(s[j..])
    ensures j > 0 ==> !IsSpace(s[j - 1])
  {
    if s == [] || !IsSpace(s[|s| - 1]) then |s|
    else
      var j := TrailingSpace(s[..|s| - 1]);
      assert s[j..] == s[..|s| - 1][j..] + [s[|s| - 1]];
      j
  }

  /** Python's `str.strip()` with no argument. */
  function Strip(s: string): (r: string)
    ensures Trimming(s, LeadingSpace(s), LeadingSpace(s) + |r|)
    ensures r == s[LeadingSpace(s)..LeadingSpace(s) + |r|]
    ensures r == [] <==> AllSpace(s)
  {
    var i := LeadingSpace(s);
    if i == |s| then
      assert s[..i] == s;
      []
    else
      var j := TrailingSpace(s);
      assert !AllSpace(s) by { assert !IsSpace(s[i]); }
      s[i..j]
  }

  /** strip() is the only way to cut `s` into whitespace, a trimmed middle and
      whitespace: any such middle is `Strip(s)`. */
  lemma StripUnique(s: string, i: int, j: int)
    requires Trimming(s, i, j)
    ensures Strip(s) == s[i..j]
  {
    if i == j {
      forall k | 0 <= k < |s| ensures IsSpace(s[k]) {
        if k < i { assert s[..i][k] == s[k]; } else { assert s[j..][k - j] == s[k]; }
      }
    } else {
      assert s[i..j][0] == s[i] && s[i..j][j - i - 1] == s[j - 1];
      LeadingSpaceAt(s, i);
      TrailingSpaceAt(s, j);
    }
  }

  /** A non-space character preceded only by whitespace is where strip() starts. */
  lemma {:induction false} LeadingSpaceAt(s: string, i: nat)
    requires i < |s| && AllSpace(s[..i]) && !IsSpace(s[i])
    ensures LeadingSpace(s) == i
  {
    if i > 0 {
      assert s[..i][0] == s[0];
      assert s[1..][..i - 1] == s[..i][1..];
      LeadingSpaceAt(s[1..], i - 1);
    }
  }

  /** A non-space character followed only by whitespace is where strip() ends. */
  lemma {:induction false} TrailingSpaceAt(s: string, j: nat)
    requires 0 < j <= |s| && AllSpace(s[j..]) && !IsSpace(s[j - 1])
    ensures TrailingSpace(s) == j
    decreases |s| - j
  {
    if j < |s| {
      assert s[j..][|s| - 1 - j] == s[|s| - 1];
      assert s[..|s| - 1][j..] == s[j..][..|s| - 1 - j];
      TrailingSpaceAt(s[..|s| - 1], j);
    }
  }

  /** Stripping twice is stripping once. */
  lemma StripIdempotent(s: string)
    ensures Strip(Strip(s)) == Strip(s)
  {
    var r := Strip(s);
    assert r[..0] == [] && r[|r|..] == [] && r[0..|r|] == r;
    StripUnique(r, 0, |r|);
  }

  // ---------------------------------------------------------------------
  // Decimal digits and str(int)
  // ---------------------------------------------------------------------

  predicate IsDigit(c: char) {
    '0' <= c <= '9'
  }

  predicate AllDigits(s: string) {
    forall k :: 0 <= k < |s| ==> IsDigit(s[k])
  }

  function Pow10(n: nat): (p: nat)
    ensures p >= 1
  {
    if n == 0 then 1 else 10 * Pow10(n - 1)
  }

  /** The number a string of decimal digits denotes ("" denotes 0). */
  function DigitsValue(s: string): nat
    requires AllDigits(s)
  {
    if s == [] then 0 else 10 * DigitsValue(s[..|s| - 1]) + (s[|s| - 1] as int - '0' as int)
  }

  function DigitChar(d: nat): (c: char)
    requires d < 10
    ensures IsDigit(c) && c as int - '0' as int == d
  {
    ('0' as int + d) as char
  }

  /** `str(n)` for n >= 0: the shortest decimal numeral of n. */
  function NatToString(n: nat): (s: string)
    ensures |s| >= 1 && AllDigits(s) && DigitsValue(s) == n
    ensures s[0] == '0' ==> s == "0"
  {
    if n < 10 then [DigitChar(n)]
    else
      var p := NatToString(n / 10);
      var s := p + [DigitChar(n % 10)];
      assert s[..|s| - 1] == p;
      s
  }

  /** `s` is the shortest decimal numeral for n, with a leading minus sign
      when n is negative: no leading zero, and no "-0". */
  predicate Denotes(s: string, n: int) {
    if |s| > 0 && s[0] == '-' then
      |s| > 1 && AllDigits(s[1..]) && s[1] != '0' && -n == DigitsValue(s[1..])
    else |s| > 0 && AllDigits(s) && (s[0] == '0' ==> s == "0") && n == DigitsValue(s)
  }

  /** `str(n)` for any integer n: a minus sign exactly for negative n. */
  function IntToString(n: int): (s: string)
    ensures Denotes(s, n)
    ensures s[0] == '-' <==> n < 0
  {
    if n < 0 then
      var s := "-" + NatToString(-n);
      assert s[1..] == NatToString(-n);
      s
    else NatToString(n)
  }

  /** Padded numerals and "-0" are not what `str()` writes. */
  lemma PaddedNumerals()
    ensures !Denotes("007", 7) && !Denotes("-007", -7) && !Denotes("-0", 0)
    ensures Denotes("7", 7) && Denotes("-7", -7) && Denotes("0", 0)
  {
    assert "007"[0] == '0' && "-007"[1..][0] == '0';
  }

  /** A numeral without a leading zero is the one `str()` writes for its value. */
  lemma {:induction false} NumeralExact(s: string)
    requires |s| >= 1 && AllDigits(s) && (s[0] == '0' ==> s == "0")
    ensures s == NatToString(DigitsValue(s))
    decreases |s|
  {
    var n := DigitsValue(s);
    var last := |s| - 1;
    var d := s[last] as int - '0' as int;
    if last == 0 {
      assert s[..last] == [] && IsDigit(s[last]);
      assert DigitsValue(s[..last]) == 0;
      assert n == d;
      assert s == [DigitChar(n)];
    } else {
      var p := s[..last];
      assert p[0] == s[0] != '0';
      assert AllDigits(p) by {
        forall k | 0 <= k < |p| ensures IsDigit(p[k]) { assert p[k] == s[k]; }
      }
      NumeralExact(p);
      assert DigitsValue(p) != 0;
      assert n == 10 * DigitsValue(p) + d && 0 <= d < 10;
      assert n / 10 == DigitsValue(p) && n % 10 == d;
      assert s == p + [DigitChar(d)];
    }
  }

  /** `str(int)` is the only numeral that denotes its value: whatever text
      denotes n is exactly the text `str(n)` writes. */
  lemma DenotesExact(s: string, n: int)
    requires Denotes(s, n)
    ensures s == IntToString(n)
  {
    if s[0] == '-' {
      var digits := s[1..];
      NumeralExact(digits);
      assert s == "-" + digits;
    } else {
      NumeralExact(s);
    }
  }

  /** `int(a / b)` for b > 0: integer division truncating toward zero, which
      differs from Dafny's `/` when a is negative. */
  function TruncDiv(a: int, b: int): (q: int)
    requires b > 0
    ensures a >= 0 ==> q >= 0
    ensures a <= 0 ==> q <= 0
    ensures var m := if a < 0 then -a else a;
            var n := if q < 0 then -q else q;
            n * b <= m < (n + 1) * b
  {
    var m := if a < 0 then -a else a;
    assert m == b * (m / b) + m % b && 0 <= m % b < b;
    if a >= 0 then m / b else -(m / b)
  }

  /** Two digit strings side by side denote the first shifted left plus the second. */
  lemma {:induction false} DigitsConcat(a: string, b: string)
    requires AllDigits(a) && AllDigits(b)
    ensures AllDigits(a + b)
    ensures DigitsValue(a + b) == DigitsValue(a) * Pow10(|b|) + DigitsValue(b)
  {
    if b == [] {
      assert a + b == a;
    } else {
      var b' := b[..|b| - 1];
      DigitsConcat(a, b');
      var c := b[|b| - 1] as int - '0' as int;
      var x, p, y := DigitsValue(a), Pow10(|b'|), DigitsValue(b');
      assert (a + b)[..|a + b| - 1] == a + b';
      assert DigitsValue(a + b) == 10 * (x * p + y) + c;
      assert DigitsValue(b) == 10 * y + c;
      assert Pow10(|b|) == 10 * p;
      ShiftDigit(x, p, y, c);
    }
  }

  lemma ShiftDigit(x: int, p: int, y: int, c: int)
    ensures 10 * (x * p + y) + c == x * (10 * p) + (10 * y + c)
  {
  }

  // ---------------------------------------------------------------------
  // float() of a [\d.]+ capture
  // ---------------------------------------------------------------------

  /** A character of the class `[\d.]`. */
  predicate IsNumeric(c: char) {
    IsDigit(c) || c == '.'
  }

  predicate AllNumeric(s: string) {
    forall k :: 0 <= k < |s| ==> IsNumeric(s[k])
  }

  predicate NoDot(s: string) {
    forall k :: 0 <= k < |s| ==> s[k] != '.'
  }

  predicate AtMostOneDot(s: string) {
    forall i, j :: 0 <= i < j < |s| && s[i] == '.' ==> s[j] != '.'
  }

  predicate HasDigit(s: string) {
    exists k :: 0 <= k < |s| && IsDigit(s[k])
  }

  function FirstDot(s: string): (d: nat)
    requires !NoDot(s)
    ensures d < |s| && s[d] == '.' && NoDot(s[..d])
  {
    if s[0] == '.' then 0
    else
      var d := 1 + FirstDot(s[1..]);
      assert s[..d] == [s[0]] + s[1..][..d - 1];
      d
  }

  /**
   * Python's `float(g)` for a text `g` of digits and dots: it succeeds iff
   * g holds at most one dot and at least one digit ("12", "1.5", "1.",
   * ".5"), and then yields the number g spells: its digits read as an
   * integer, scaled down by one power of ten per digit after the dot.
   * Otherwise ("", ".", "1.2.3") it raises, modelled as None.
   */
  function ParseDecimal(g: string): (r: Option<real>)
    requires AllNumeric(g)
    ensures r.Some? <==> AtMostOneDot(g) && HasDigit(g)
    ensures r.Some? ==> r.value >= 0.0
  {
    if NoDot(g) then
      if g == [] then None
      else
        assert IsDigit(g[0]);
        Some(DigitsValue(g) as real)
    else
      var d := FirstDot(g);
      var a, b := g[..d], g[d + 1..];
      if !NoDot(b) then
        var k :| 0 <= k < |b| && b[k] == '.';
        assert g[d + 1 + k] == '.';
        None
      else if a == [] && b == [] then
        assert g == ".";
        None
      else
        assert AtMostOneDot(g) by {
          forall i, j | 0 <= i < j < |g| && g[i] == '.' ensures g[j] != '.' {
            assert b[j - d - 1] == g[j];
          }
        }
        assert HasDigit(g) by {
          if a != [] { assert a[0] == g[0]; assert IsDigit(g[0]); }
          else { assert b[0] == g[d + 1]; assert IsDigit(g[d + 1]); }
        }
        assert AllDigits(b) by {
          forall k | 0 <= k < |b| ensures IsDigit(b[k]) { assert b[k] == g[d + 1 + k]; }
        }
        assert AllDigits(a + b);
        Some(DigitsValue(a + b) as real / Pow10(|b|) as real)
  }

  /** A numeral `a.b` with digits on at least one side parses, and its value
      lies between the integer `a` spells and the next integer. */
  lemma {:induction false} DecimalValue(a: string, b: string)
    requires AllDigits(a) && AllDigits(b) && |a| + |b| > 0
    ensures AllNumeric(a + "." + b)
    ensures AllDigits(a + b)
    ensures ParseDecimal(a + "." + b)
            == Some(DigitsValue(a + b) as real / Pow10(|b|) as real)
    ensures DigitsValue(a) as real <= ParseDecimal(a + "." + b).value
                                   < DigitsValue(a) as real + 1.0
  {
    var g := a + "." + b;
    assert AllNumeric(g) by {
      forall k | 0 <= k < |g| ensures IsNumeric(g[k]) {
        if k < |a| { assert g[k] == a[k]; }
        else if k > |a| { assert g[k] == b[k - |a| - 1]; }
      }
    }
    assert g[|a|] == '.';
    var d := FirstDot(g);
    assert d == |a|;
    assert g[..d] == a && g[d + 1..] == b;
    assert NoDot(b) by {
      forall k | 0 <= k < |b| ensures b[k] != '.' { assert IsDigit(b[k]); }
    }
    DigitsConcat(a, b);
    DigitsBound(b);
    IntegerPart(DigitsValue(a + b), DigitsValue(a), Pow10(|b|), DigitsValue(b));
  }

  /** A numeral without a dot parses to the integer its digits spell. */
  lemma IntegerValue(a: string)
    requires AllDigits(a) && a != []
    ensures AllNumeric(a)
    ensures ParseDecimal(a) == Some(DigitsValue(a) as real)
  {
    assert NoDot(a) by {
      forall k | 0 <= k < |a| ensures a[k] != '.' { assert IsDigit(a[k]); }
    }
  }

  /** k digits spell a number below 10^k. */
  lemma {:induction false} DigitsBound(s: string)
    requires AllDigits(s)
    ensures DigitsValue(s) < Pow10(|s|)
  {
    if s != [] {
      DigitsBound(s[..|s| - 1]);
    }
  }

  lemma IntegerPart(n: int, x: int, p: int, y: int)
    requires p >= 1 && 0 <= y < p && n == x * p + y
    ensures x as real <= n as real / p as real < x as real + 1.0
  {
    var q, f := n as real / p as real, y as real / p as real;
    assert n as real == x as real * p as real + y as real;
    assert q == x as real + f;
    assert 0.0 <= f;
    assert f * p as real == y as real;
    assert f < 1.0;
  }
}
