/**
 * The pieces that `CprValidator::checkCpr` and `CprSniffer::checkCpr` share:
 * digit strings, the PHP library calls they make (`empty`, `str_replace`,
 * `preg_match`, `str_split`, `intval`) stated over `string`, and the two rules
 * a CPR number is judged by (the weighted modulus-11 sum and the century rule).
 */
module CprRules {
  import opened Calendar

  datatype Option<T> = None | Some(value: T)

  /**
   * How a call of `checkCpr(): bool` ends: it returns a boolean, or, when no
   * isolated ten-digit run exists, it falls off the end of the function body
   * without a `return` (a TypeError in PHP).
   */
  datatype Outcome = Returns(value: bool) | FallsOffEnd

  // ---------------------------------------------------------------------
  // Digits and decimal values

  /** PCRE's `\d` without the `u` modifier: an ASCII digit. */
  predicate IsDigit(c: char) {
    '0' <= c <= '9'
  }

  predicate AllDigits(s: string) {
    forall i :: 0 <= i < |s| ==> IsDigit(s[i])
  }

  /** A candidate CPR number: exactly ten digits, `DDMMYY` followed by `SSSS`. */
  predicate IsCprNumber(n: string) {
    |n| == 10 && AllDigits(n)
  }

  function DigitValue(c: char): (v: nat)
    requires IsDigit(c)
    ensures v <= 9
  {
    c as int - '0' as int
  }

  function Pow10(k: nat): (p: nat)
    ensures p >= 1
  {
    if k == 0 then 1 else 10 * Pow10(k - 1)
  }

  /**
   * `intval` of a string of digits, which is also the value PHP's implicit
   * numeric coercion gives it.
   */
  function DecimalValue(s: string): (v: nat)
    requires AllDigits(s)
    ensures v < Pow10(|s|)
    decreases |s|
  {
    if s == [] then 0 else DecimalValue(s[..|s| - 1]) * 10 + DigitValue(s[|s| - 1])
  }

  /** Concatenating digit strings shifts the left part by the length of the right part. */
  lemma {:induction false} DecimalConcat(a: string, b: string)
    requires AllDigits(a) && AllDigits(b)
    ensures AllDigits(a + b)
    ensures DecimalValue(a + b) == DecimalValue(a) * Pow10(|b|) + DecimalValue(b)
    decreases |b|
  {
    if b == [] {
      assert a + b == a;
    } else {
      var b' := b[..|b| - 1];
      var d := DigitValue(b[|b| - 1]);
      assert (a + b)[..|a + b| - 1] == a + b';
      assert (a + b)[|a + b| - 1] == b[|b| - 1];
      DecimalConcat(a, b');
      assert DecimalValue(a + b) == DecimalValue(a + b') * 10 + d;
      assert DecimalValue(b) == DecimalValue(b') * 10 + d;
      ShiftByOneDigit(DecimalValue(a), Pow10(|b'|), DecimalValue(b'), d);
    }
  }

  lemma ShiftByOneDigit(x: int, p: int, y: int, d: int)
    ensures (x * p + y) * 10 + d == x * (10 * p) + (y * 10 + d)
  {
  }

  // ---------------------------------------------------------------------
  // empty() and str_replace(['-', ' '], '', s)

  /** PHP's `empty()` on a string: true for "" and for "0". */
  predicate PhpEmpty(s: string) {
    s == "" || s == "0"
  }

  predicate IsSeparator(c: char) {
    c == '-' || c == ' '
  }

  /** `str_replace(['-', ' '], '', s)`: every dash and space removed. */
  function StripSeparators(s: string): (r: string)
    ensures |r| <= |s|
    ensures forall i :: 0 <= i < |r| ==> !IsSeparator(r[i])
  {
    if s == [] then []
    else if IsSeparator(s[0]) then StripSeparators(s[1..])
    else [s[0]] + StripSeparators(s[1..])
  }

  /** Stripping works piecewise: it distributes over concatenation. */
  lemma {:induction false} StripAppend(a: string, b: string)
    ensures StripSeparators(a + b) == StripSeparators(a) + StripSeparators(b)
    decreases |a|
  {
    if a == [] {
      assert a + b == b;
    } else {
      assert (a + b)[0] == a[0];
      assert (a + b)[1..] == a[1..] + b;
      StripAppend(a[1..], b);
    }
  }

  /** A string without dashes and spaces is left as it is. */
  lemma {:induction false} StripClean(s: string)
    requires forall i :: 0 <= i < |s| ==> !IsSeparator(s[i])
    ensures StripSeparators(s) == s
    decreases |s|
  {
    if s != [] {
      StripClean(s[1..]);
      assert s == [s[0]] + s[1..];
    }
  }

  /** Stripping twice is stripping once. */
  lemma StripIdempotent(s: string)
    ensures StripSeparators(StripSeparators(s)) == StripSeparators(s)
  {
    StripClean(StripSeparators(s));
  }

  /** A dash or a space inserted anywhere disappears in the stripped string. */
  lemma SeparatorVanishes(x: string, sep: char, y: string)
    requires IsSeparator(sep)
    ensures StripSeparators(x + [sep] + y) == StripSeparators(x + y)
  {
    StripAppend(x + [sep], y);
    StripAppend(x, [sep]);
    StripAppend(x, y);
    assert StripSeparators([sep]) == [];
  }

  // ---------------------------------------------------------------------
  // preg_match('/(^|\D)\d{10}($|\D)/', s, $result)

  /** Ten digits start at `i`. */
  predicate RunAt(s: string, i: int) {
    0 <= i && i + 10 <= |s| && AllDigits(s[i..i + 10])
  }

  /**
   * Ten digits start at `i`, with the start of the string or a non-digit just
   * before them and the end of the string or a non-digit just after them.
   */
  predicate IsolatedRunAt(s: string, i: int) {
    RunAt(s, i) && (i == 0 || !IsDigit(s[i - 1])) && (i + 10 == |s| || !IsDigit(s[i + 10]))
  }

  /** `i` is the leftmost isolated run at or after `lo`. */
  predicate FirstRunFrom(s: string, lo: int, i: int) {
    lo <= i && IsolatedRunAt(s, i) && forall j :: lo <= j < i ==> !IsolatedRunAt(s, j)
  }

  /**
   * The captures of a successful match: `whole` is `$result[0]`, `prefix` is
   * `$result[1]` (the `^|\D` group), `suffix` is `$result[2]` (the `$|\D`
   * group); `start` is where the ten digits begin in the subject.
   */
  datatype Match = Match(start: nat, whole: string, prefix: string, suffix: string)

  /**
   * The `$|\D` group after the digits ending at `k`. `$` is tried first and,
   * PCRE's default, matches at the end of the subject and also before a
   * newline that is the subject's last character; otherwise `\D` takes one
   * character.
   */
  function SuffixGroup(s: string, k: nat): string
    requires k <= |s|
  {
    if k == |s| || (k == |s| - 1 && s[k] == '\n') then "" else [s[k]]
  }

  /** The captures when the digits of the match begin at `i`. */
  function MatchAt(s: string, i: nat): (m: Match)
    requires IsolatedRunAt(s, i)
    ensures m.start == i
    ensures m.whole == m.prefix + s[i..i + 10] + m.suffix
    ensures m.prefix == "" || (|m.prefix| == 1 && !IsDigit(m.prefix[0]))
    ensures m.suffix == "" || (|m.suffix| == 1 && !IsDigit(m.suffix[0]))
  {
    var prefix := if i == 0 then "" else [s[i - 1]];
    var suffix := SuffixGroup(s, i + 10);
    Match(i, s[i - |prefix|..i + 10 + |suffix|], prefix, suffix)
  }

  /** The first digit position an attempt at offset `p` or later can match. */
  function Lowest(p: nat): nat {
    if p == 0 then 0 else p + 1
  }

  /**
   * The pattern tried at subject offsets `p`, `p + 1`, ... in turn, as PCRE
   * does: at offset 0 the `^` alternative (digits at 0) comes before the
   * `\D` alternative (digits at 1); at any other offset only `\D` can match.
   */
  function MatchFrom(s: string, p: nat): (r: Option<Match>)
    requires p <= |s|
    ensures r.Some? ==> FirstRunFrom(s, Lowest(p), r.value.start) && r.value == MatchAt(s, r.value.start)
    ensures r.None? ==> forall j :: Lowest(p) <= j ==> !IsolatedRunAt(s, j)
    decreases |s| - p
  {
    if p == 0 && IsolatedRunAt(s, 0) then Some(MatchAt(s, 0))
    else if p < |s| && IsolatedRunAt(s, p + 1) then Some(MatchAt(s, p + 1))
    else if p < |s| then
      assert Lowest(p + 1) == p + 2 && !IsolatedRunAt(s, p + 1);
      assert p == 0 ==> !IsolatedRunAt(s, 0);
      MatchFrom(s, p + 1)
    else None
  }

  /**
   * `preg_match('/(^|\D)\d{10}($|\D)/', s, $result)`: the leftmost isolated
   * run of exactly ten digits, with its captures, or no match at all.
   */
  function PregMatch(s: string): (r: Option<Match>)
    ensures r.None? <==> forall j :: !IsolatedRunAt(s, j)
    ensures r.Some? ==> FirstRunFrom(s, 0, r.value.start) && r.value == MatchAt(s, r.value.start)
  {
    MatchFrom(s, 0)
  }

  /**
   * Digits that are part of a run of eleven or more never form an isolated
   * ten-digit run: the pattern does not cut ten digits out of a longer number.
   */
  lemma LongRunNeverMatches(s: string, a: int, b: int, j: int)
    requires 0 <= a && b <= |s| && b - a >= 11
    requires forall k :: a <= k < b ==> IsDigit(s[k])
    requires a <= j && j + 10 <= b
    ensures !IsolatedRunAt(s, j)
  {
    if j > a {
      assert IsDigit(s[j - 1]);
    } else {
      assert IsDigit(s[j + 10]);
    }
  }

  /** Cutting off a one-character group in front leaves the rest. */
  lemma DropFirst(p: string, x: string)
    requires |p| == 1
    ensures (p + x)[1..] == x
  {
  }

  /** Cutting off a one-character group at the end leaves the rest. */
  lemma DropLast(x: string, q: string)
    requires |q| == 1
    ensures (x + q)[..|x + q| - 1] == x
  {
  }

  /** Leftmost isolated runs are unique. */
  lemma FirstRunUnique(s: string, i: int, k: int)
    requires FirstRunFrom(s, 0, i) && FirstRunFrom(s, 0, k)
    ensures i == k
  {
  }

  // ---------------------------------------------------------------------
  // str_split

  /** `str_split(s)`: one one-character string per character of `s`. */
  function StrSplit(s: string): (parts: seq<string>)
    ensures |parts| == |s|
    ensures forall i :: 0 <= i < |s| ==> parts[i] == [s[i]]
  {
    seq(|s|, i requires 0 <= i < |s| => [s[i]])
  }

  /** `implode('', parts)`. */
  function Join(parts: seq<string>): string {
    if parts == [] then "" else parts[0] + Join(parts[1..])
  }

  /** Gluing the pieces of `str_split(s)` back together gives `s`. */
  lemma {:induction false} JoinStrSplit(s: string)
    ensures Join(StrSplit(s)) == s
    decreases |s|
  {
    if s != [] {
      assert StrSplit(s)[1..] == StrSplit(s[1..]);
      JoinStrSplit(s[1..]);
      assert s == [s[0]] + s[1..];
    }
  }

  // ---------------------------------------------------------------------
  // The weighted modulus-11 sum

  /** The modulus-11 weights of the ten digit positions. */
  const Weights: seq<nat> := [4, 3, 2, 7, 6, 5, 4, 3, 2, 1]

  /** The weighted sum of the first `k` digits of `n`. */
  function WeightedSumPrefix(n: string, k: nat): (sum: nat)
    requires k <= |n| && k <= 10 && AllDigits(n)
    ensures sum <= 63 * k
  {
    if k == 0 then 0 else WeightedSumPrefix(n, k - 1) + Weights[k - 1] * DigitValue(n[k - 1])
  }

  /** The weighted sum of all ten digits. */
  function WeightedSum(n: string): nat
    requires IsCprNumber(n)
  {
    WeightedSumPrefix(n, |n|)
  }

  /**
   * The checksum rule with its exemption table: the date prefix is listed, or
   * the weighted sum is a multiple of 11.
   */
  predicate Mod11Valid(table: seq<string>, n: string)
    requires IsCprNumber(n)
  {
    n[..6] in table || WeightedSum(n) % 11 == 0
  }

  /** Two numbers that differ only at position `j` have weighted sums `Weights[j]` times that digit's change apart. */
  lemma {:induction false} WeightedSumPrefixDiff(n: string, n': string, j: nat, k: nat)
    requires IsCprNumber(n) && IsCprNumber(n') && j < 10 && k <= 10
    requires forall i :: 0 <= i < 10 && i != j ==> n[i] == n'[i]
    ensures WeightedSumPrefix(n, k) - WeightedSumPrefix(n', k)
            == if j < k then Weights[j] * (DigitValue(n[j]) - DigitValue(n'[j])) else 0
  {
    if k > 0 {
      WeightedSumPrefixDiff(n, n', j, k - 1);
      var w: int, d: int, d': int := Weights[k - 1], DigitValue(n[k - 1]), DigitValue(n'[k - 1]);
      assert WeightedSumPrefix(n, k) - WeightedSumPrefix(n', k)
          == WeightedSumPrefix(n, k - 1) - WeightedSumPrefix(n', k - 1) + (w * d - w * d');
      if k - 1 != j {
        assert d == d';
      } else {
        assert w * d - w * d' == w * (d - d');
      }
    }
  }

  /** A non-zero weight times a non-zero digit difference is never a multiple of 11. */
  lemma NoZeroDivisors(w: int, x: int)
    requires 1 <= w <= 7 && -9 <= x <= 9 && x != 0
    ensures (w * x) % 11 != 0
  {
    var y := w * x;
    assert -63 <= y <= 63 && y != 0 by {
      if x > 0 { assert w * x >= 1; } else { assert w * x <= -1; }
    }
  }

  /**
   * The weighted sum catches every single-digit error: of two numbers that
   * differ in exactly one digit, at most one has a sum divisible by 11.
   */
  lemma SingleDigitErrorDetected(n: string, n': string, j: nat)
    requires IsCprNumber(n) && IsCprNumber(n') && j < 10
    requires forall i :: 0 <= i < 10 && i != j ==> n[i] == n'[i]
    requires n[j] != n'[j]
    ensures !(WeightedSum(n) % 11 == 0 && WeightedSum(n') % 11 == 0)
  {
    WeightedSumPrefixDiff(n, n', j, |n|);
    var a: int, b: int := WeightedSum(n), WeightedSum(n');
    var w, x := Weights[j], DigitValue(n[j]) - DigitValue(n'[j]);
    assert a - b == w * x;
    NoZeroDivisors(w, x);
    MultiplesOf11Difference(a, b);
  }

  lemma MultiplesOf11Difference(a: int, b: int)
    ensures a % 11 == 0 && b % 11 == 0 ==> (a - b) % 11 == 0
  {
  }

  /**
   * When the first nine digits weigh 1 modulo 11, no last digit completes a
   * multiple of 11: such numbers have no control digit, which is why the
   * registry keeps dates on which it issued numbers without one.
   */
  lemma NoControlDigit(n: string)
    requires IsCprNumber(n)
    requires WeightedSumPrefix(n, 9) % 11 == 1
    ensures WeightedSum(n) % 11 != 0
  {
    assert WeightedSum(n) == WeightedSumPrefix(n, 9) + DigitValue(n[9]);
  }

  // ---------------------------------------------------------------------
  // The date part: DDMMYY and the century rule

  function Day(n: string): nat
    requires IsCprNumber(n)
  {
    DecimalValue(n[0..2])
  }

  function Month(n: string): nat
    requires IsCprNumber(n)
  {
    DecimalValue(n[2..4])
  }

  function YearDigits(n: string): nat
    requires IsCprNumber(n)
  {
    DecimalValue(n[4..6])
  }

  /** The fixed century rule: two-digit years below 21 are 20YY, all others 19YY. */
  function CenturyYear(yy: int): int {
    if yy < 21 then 2000 + yy else 1900 + yy
  }

  /**
   * The value of a two-digit year with the century digits "20" or "19" glued
   * in front of it.
   */
  lemma CenturyPrefixValue(year: string)
    requires |year| == 2 && AllDigits(year)
    ensures AllDigits("20" + year) && DecimalValue("20" + year) == 2000 + DecimalValue(year)
    ensures AllDigits("19" + year) && DecimalValue("19" + year) == 1900 + DecimalValue(year)
  {
    PrefixValue("20", year);
    PrefixValue("19", year);
  }

  lemma PrefixValue(prefix: string, year: string)
    requires |prefix| == 2 && AllDigits(prefix) && |year| == 2 && AllDigits(year)
    ensures AllDigits(prefix + year)
    ensures DecimalValue(prefix + year) == DecimalValue(prefix) * 100 + DecimalValue(year)
  {
    assert Pow10(|year|) == 100 by {
      assert Pow10(2) == 100;
    }
    DecimalConcat(prefix, year);
  }

  /**
   * The rule maps 00..20 onto 2000..2020 and 21..99 onto 1921..1999, and the
   * two-digit year is the full year's last two digits.
   */
  lemma CenturyWindow(yy: int)
    requires 0 <= yy <= 99
    ensures yy <= 20 ==> 2000 <= CenturyYear(yy) <= 2020
    ensures yy >= 21 ==> 1921 <= CenturyYear(yy) <= 1999
    ensures CenturyYear(yy) % 100 == yy
  {
  }

  /**
   * Within the window 1921..2020 the Gregorian century exceptions never bite:
   * the year is a leap year exactly when its two digits are a multiple of 4.
   */
  lemma CenturyLeapYears(yy: int)
    requires 0 <= yy <= 99
    ensures IsLeapYear(CenturyYear(yy)) <==> yy % 4 == 0
  {
  }
}
