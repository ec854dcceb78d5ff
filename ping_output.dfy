/**
 * The two regular expressions the fallback prober runs over the output of
 * the `ping` utility, both searched with `re.IGNORECASE`:
 *
 *   TimePattern     time[=<]\s*([\d.]+)\s*ms
 *   AveragePattern  Average\s*=\s*(\d+)\s*ms
 *
 * Each is modelled twice: `MatchAt` is a deterministic matcher (every
 * repetition in these patterns is followed by a character its class cannot
 * contain, so greedy matching never backtracks), and `Form` says
 * declaratively which texts the regular expression accepts at a position
 * and where its group lies. The two are proved to agree, and `Search` is
 * proved to return the leftmost match, as `re.search` does.
 */
module PingOutput {
  import opened Wrappers
  import opened Text

  datatype Pattern = TimePattern | AveragePattern

  /** Where the capture group of a match lies: `s[lo..hi]`. */
  datatype Span = Span(lo: nat, hi: nat)

  /** The character classes the patterns repeat. */
  datatype Class = Space | Digit | DigitOrDot

  predicate InClass(c: char, cls: Class) {
    match cls
    case Space => IsSpace(c)
    case Digit => IsDigit(c)
    case DigitOrDot => IsNumeric(c)
  }

  predicate AllIn(s: string, cls: Class) {
    forall k :: 0 <= k < |s| ==> InClass(s[k], cls)
  }

  /** The class of the capture group: `[\d.]` or `\d`. */
  function GroupClass(pat: Pattern): Class {
    match pat
    case TimePattern => DigitOrDot
    case AveragePattern => Digit
  }

  /** ASCII lower case. Only ASCII case folding is modelled: Python's
      `re.IGNORECASE` also lets 'i' match U+0130 and U+0131 and 's' match
      U+017F, which this model does not. */
  function Lower(c: char): char {
    if 'A' <= c <= 'Z' then (c as int + 32) as char else c
  }

  /** `s[p..]` starts with `word` (written in lower case), ignoring case. */
  predicate CaselessAt(s: string, p: nat, word: string) {
    p + |word| <= |s| && forall k :: 0 <= k < |word| ==> Lower(s[p + k]) == word[k]
  }

  /** First position at or after i whose character is not in `cls`: the end
      of a greedy run `cls*` starting at i. */
  function Skip(s: string, i: nat, cls: Class): (j: nat)
    requires i <= |s|
    ensures i <= j <= |s|
    ensures AllIn(s[i..j], cls)
    ensures j < |s| ==> !InClass(s[j], cls)
    decreases |s| - i
  {
    if i == |s| || !InClass(s[i], cls) then i
    else
      var j := Skip(s, i + 1, cls);
      assert AllIn(s[i..j], cls) by {
        forall x | 0 <= x < j - i ensures InClass(s[i..j][x], cls) {
          if x > 0 {
            assert s[i..j][x] == s[i + 1..j][x - 1];
          }
        }
      }
      j
  }

  /** The greedy run of `cls` from i ends at j whenever s[i..j] is in the
      class and s[j] is not. */
  lemma {:induction false} SkipAt(s: string, i: nat, j: nat, cls: Class)
    requires i <= j <= |s| && AllIn(s[i..j], cls)
    requires j < |s| ==> !InClass(s[j], cls)
    ensures Skip(s, i, cls) == j
    decreases j - i
  {
    if i < j {
      assert s[i..j][0] == s[i];
      var rest := s[i + 1..j];
      assert AllIn(rest, cls) by {
        forall x | 0 <= x < |rest| ensures InClass(rest[x], cls) {
          assert rest[x] == s[i..j][x + 1];
        }
      }
      SkipAt(s, i + 1, j, cls);
    }
  }

  /**
   * The regular expression `pat` matches at p, its separator (`[=<]` or
   * `=`) at a, its group at s[i..j] and the final "ms" at k.
   */
  predicate Form(pat: Pattern, s: string, p: nat, a: nat, i: nat, j: nat, k: nat) {
    a < i < j <= k && k + 2 <= |s|
    && AllSpace(s[a + 1..i]) && AllIn(s[i..j], GroupClass(pat))
    && AllSpace(s[j..k]) && CaselessAt(s, k, "ms")
    && match pat
       case TimePattern =>
         CaselessAt(s, p, "time") && a == p + 4 && (s[a] == '=' || s[a] == '<')
       case AveragePattern =>
         CaselessAt(s, p, "average") && p + 7 <= a && AllSpace(s[p + 7..a]) && s[a] == '='
  }

  /** Where the separator of `pat` lies when the literal prefix ("time", or
      "Average" and blanks) starts at p. */
  function Separator(pat: Pattern, s: string, p: nat): (a: Option<nat>)
    ensures a.Some? ==> p < a.value < |s|
  {
    match pat
    case TimePattern =>
      if CaselessAt(s, p, "time") && p + 4 < |s| && (s[p + 4] == '=' || s[p + 4] == '<')
      then Some(p + 4) else None
    case AveragePattern =>
      if CaselessAt(s, p, "average") then
        var a := Skip(s, p + 7, Space);
        if a < |s| && s[a] == '=' then Some(a) else None
      else None
  }

  /** The rest of the match after the separator at a: blanks, the group,
      blanks, "ms". */
  function GroupAfter(pat: Pattern, s: string, a: nat): (m: Option<Span>)
    requires a < |s|
    ensures m.Some? ==> a < m.value.lo < m.value.hi <= |s|
    ensures m.Some? ==> AllIn(s[m.value.lo..m.value.hi], GroupClass(pat))
  {
    var i := Skip(s, a + 1, Space);
    var j := Skip(s, i, GroupClass(pat));
    var k := Skip(s, j, Space);
    if i < j && CaselessAt(s, k, "ms") then Some(Span(i, j))
    else None
  }

  /** The greedy matcher: the group of the match of `pat` at p, if any. */
  function MatchAt(pat: Pattern, s: string, p: nat): (m: Option<Span>)
    ensures m.Some? ==> p < m.value.lo < m.value.hi <= |s|
    ensures m.Some? ==> AllIn(s[m.value.lo..m.value.hi], GroupClass(pat))
  {
    match Separator(pat, s, p)
    case None => None
    case Some(a) => GroupAfter(pat, s, a)
  }

  /** Every match the matcher reports is one the regular expression accepts. */
  lemma MatchAtSound(pat: Pattern, s: string, p: nat)
    requires MatchAt(pat, s, p).Some?
    ensures var g := MatchAt(pat, s, p).value;
            exists a, k :: Form(pat, s, p, a, g.lo, g.hi, k)
  {
    var g := MatchAt(pat, s, p).value;
    var a := if pat == TimePattern then p + 4 else Skip(s, p + 7, Space);
    var k := Skip(s, g.hi, Space);
    assert Skip(s, a + 1, Space) == g.lo;
    SpaceRun(s, a + 1, g.lo);
    SpaceRun(s, g.hi, k);
    if pat == AveragePattern {
      SpaceRun(s, p + 7, a);
    }
    assert Form(pat, s, p, a, g.lo, g.hi, k);
  }

  /** Whatever the regular expression accepts at p, the matcher finds, with
      the same group: the group of a match is unique. */
  lemma MatchAtComplete(pat: Pattern, s: string, p: nat, a: nat, i: nat, j: nat, k: nat)
    requires Form(pat, s, p, a, i, j, k)
    ensures MatchAt(pat, s, p) == Some(Span(i, j))
  {
    SeparatorComplete(pat, s, p, a, i, j, k);
    GroupAfterComplete(pat, s, p, a, i, j, k);
  }

  lemma SeparatorComplete(pat: Pattern, s: string, p: nat, a: nat, i: nat, j: nat, k: nat)
    requires Form(pat, s, p, a, i, j, k)
    ensures Separator(pat, s, p) == Some(a)
  {
    if pat == AveragePattern {
      SpaceAll(s, p + 7, a);
      SkipAt(s, p + 7, a, Space);
    }
  }

  lemma GroupAfterComplete(pat: Pattern, s: string, p: nat, a: nat, i: nat, j: nat, k: nat)
    requires Form(pat, s, p, a, i, j, k)
    ensures GroupAfter(pat, s, a) == Some(Span(i, j))
  {
    assert s[i..j][0] == s[i];
    assert !IsSpace(s[i]) by {
      match GroupClass(pat)
      case Digit => {}
      case DigitOrDot => {}
    }
    SpaceAll(s, a + 1, i);
    SkipAt(s, a + 1, i, Space);
    assert s[k] == 'm' || s[k] == 'M' by { assert Lower(s[k + 0]) == "ms"[0]; }
    if j < k {
      assert s[j..k][0] == s[j];
    }
    SkipAt(s, i, j, GroupClass(pat));
    SpaceAll(s, j, k);
    SkipAt(s, j, k, Space);
  }

  lemma SpaceRun(s: string, i: nat, j: nat)
    requires i <= j <= |s| && AllIn(s[i..j], Space)
    ensures AllSpace(s[i..j])
  {
    forall x | 0 <= x < j - i ensures IsSpace(s[i..j][x]) {
      assert InClass(s[i..j][x], Space);
    }
  }

  lemma SpaceAll(s: string, i: nat, j: nat)
    requires i <= j <= |s| && AllSpace(s[i..j])
    ensures AllIn(s[i..j], Space)
  {
  }

  /** The first position p with `from <= p <= end` where `hit` holds. */
  function Find(hit: nat -> bool, from: nat, end: nat): (r: Option<nat>)
    ensures r.Some? ==> from <= r.value <= end && hit(r.value)
    decreases end + 1 - from
  {
    if from > end then None
    else if hit(from) then Some(from)
    else Find(hit, from + 1, end)
  }

  /** No position the search passes over is a hit. */
  lemma {:induction false} FindLeftmost(hit: nat -> bool, from: nat, end: nat, q: nat)
    requires from <= q <= end
    requires Find(hit, from, end).None? || q < Find(hit, from, end).value
    ensures !hit(q)
    decreases q - from
  {
    if q > from {
      FindLeftmost(hit, from + 1, end, q);
    }
  }

  /** The positions where `pat` matches. */
  function Matches(pat: Pattern, s: string): nat -> bool
  {
    (p: nat) => MatchAt(pat, s, p).Some?
  }

  /** `re.search`: the first position at or after `from` where `pat`
      matches. */
  function Search(pat: Pattern, s: string, from: nat): (r: Option<nat>)
    ensures r.Some? ==> from <= r.value <= |s| && MatchAt(pat, s, r.value).Some?
  {
    Find(Matches(pat, s), from, |s|)
  }

  /** No position the search passes over matches: the result is the leftmost
      match, and a failed search means no match at all. */
  lemma SearchLeftmost(pat: Pattern, s: string, from: nat, q: nat)
    requires from <= q <= |s|
    requires Search(pat, s, from).None? || q < Search(pat, s, from).value
    ensures MatchAt(pat, s, q).None?
  {
    FindLeftmost(Matches(pat, s), from, |s|, q);
  }

  /** `re.search(pat, s).group(1)`, or None when the search fails. */
  function FirstGroup(pat: Pattern, s: string): (g: Option<string>)
    ensures g.Some? ==> g.value != [] && forall x :: 0 <= x < |g.value| ==> InClass(g.value[x], GroupClass(pat))
  {
    match Search(pat, s, 0)
    case None => None
    case Some(p) =>
      var m := MatchAt(pat, s, p).value;
      Some(s[m.lo..m.hi])
  }

  /** If the regular expression accepts at p and nowhere before p, the search
      returns the group of that match. */
  lemma FirstGroupAt(pat: Pattern, s: string, p: nat, a: nat, i: nat, j: nat, k: nat)
    requires Form(pat, s, p, a, i, j, k)
    requires forall q: nat, a': nat, i': nat, j': nat, k': nat :: q < p ==> !Form(pat, s, q, a', i', j', k')
    ensures FirstGroup(pat, s) == Some(s[i..j])
  {
    MatchAtComplete(pat, s, p, a, i, j, k);
    var r := Search(pat, s, 0);
    if r.None? || p < r.value {
      SearchLeftmost(pat, s, 0, p);
    } else if r.value < p {
      MatchAtSound(pat, s, r.value);
    }
  }

  /** If the regular expression accepts nowhere, the search fails. */
  lemma FirstGroupNone(pat: Pattern, s: string)
    requires forall q: nat, a: nat, i: nat, j: nat, k: nat :: !Form(pat, s, q, a, i, j, k)
    ensures FirstGroup(pat, s) == None
  {
    var r := Search(pat, s, 0);
    if r.Some? {
      MatchAtSound(pat, s, r.value);
    }
  }
}
