/**
 * `CprValidator`: finds the first isolated ten-digit number in a string and
 * judges it as a CPR number (checksum with exemptions, and a real birth date).
 */
module CprValidator {
  import opened Calendar
  import opened CprRules

  /**
   * Date prefixes (`DDMMYY`) on which numbers without a modulus-11 control
   * digit were issued; numbers with these prefixes skip the checksum.
   */
  const NoModuloCheckNumbers: seq<string> := [
    "010160", "010164", "010165", "010166", "010169", "010170",
    "010174", "010180", "010182", "010184", "010185", "010186",
    "010187", "010188", "010189", "010190", "010191", "010192"
  ]

  /**
   * `mod11Chk($array, $cpr)`: exempt prefixes pass; otherwise the digits of
   * `$array`, weighted by position, must add up to a multiple of 11.
   */
  method Mod11Chk(arr: seq<string>, cpr: string) returns (ok: bool)
    requires IsCprNumber(cpr) && arr == StrSplit(cpr)
    ensures ok <==> cpr[..6] in NoModuloCheckNumbers || WeightedSum(cpr) % 11 == 0
  {
    if cpr[..6] in NoModuloCheckNumbers {
      return true;
    }
    var value := 0;
    for key := 0 to |arr|
      invariant value == WeightedSumPrefix(cpr, key)
    {
      var v := DecimalValue(arr[key]);
      assert arr[key] == [cpr[key]] && v == DigitValue(cpr[key]);
      assert WeightedSumPrefix(cpr, key + 1) == value + Weights[key] * v;
      match key
      case 6 | 0 => value := value + v * 4;
      case 7 | 1 => value := value + v * 3;
      case 8 | 2 => value := value + v * 2;
      case 3 => value := value + v * 7;
      case 4 => value := value + v * 6;
      case 5 => value := value + v * 5;
      case 9 => value := value + v * 1;
      case _ =>
    }
    ok := value % 11 == 0;
  }

  /**
   * `dateChk($number)`: `DDMMYY` read with the fixed century rule is a date
   * that exists in the Gregorian calendar.
   */
  function DateChk(number: string): (r: bool)
    requires IsCprNumber(number)
    ensures r <==> 1 <= Month(number) <= 12
                   && 1 <= Day(number) <= DaysInMonth(Month(number), CenturyYear(YearDigits(number)))
  {
    var day := number[0..2];
    var month := number[2..4];
    var year := number[4..6];
    var prefix := if DecimalValue(year) < 21 then "20" else "19";
    var fullYear := prefix + year;
    CenturyPrefixValue(year);
    CheckDate(DecimalValue(month), DecimalValue(day), DecimalValue(fullYear))
  }

  /** Both checks of a ten-digit number. */
  predicate IsValidCpr(n: string)
    requires IsCprNumber(n)
  {
    Mod11Valid(NoModuloCheckNumbers, n) && DateChk(n)
  }

  /**
   * What `checkCpr` ends in: false for an empty input; otherwise the verdict on
   * the first isolated ten-digit run once dashes and spaces are gone, or no
   * return at all when there is no such run.
   */
  function Verdict(cpr: string): Outcome {
    if PhpEmpty(cpr) then Returns(false)
    else
      var subject := StripSeparators(cpr);
      match PregMatch(subject)
      case None => FallsOffEnd
      case Some(m) => Returns(IsValidCpr(subject[m.start..m.start + 10]))
  }

  /** `checkCpr($cpr)`. */
  method CheckCpr(cpr: string) returns (r: Outcome)
    ensures r == Verdict(cpr)
  {
    if PhpEmpty(cpr) {
      return Returns(false);
    }
    var stringConcatenated := StripSeparators(cpr);
    var result := PregMatch(stringConcatenated);
    if result.Some? {
      ghost var run := stringConcatenated[result.value.start..result.value.start + 10];
      var number := result.value.whole;
      if !PhpEmpty(result.value.prefix) {
        DropFirst(result.value.prefix, run + result.value.suffix);
        number := number[1..];
      }
      assert number == run + result.value.suffix;
      if !PhpEmpty(result.value.suffix) {
        DropLast(run, result.value.suffix);
        number := number[..|number| - 1];
      }
      assert number == run;
      VerdictJudgesFirstRun(cpr, result.value.start);
      var arr := StrSplit(number);
      var checksumOk := Mod11Chk(arr, number);
      if checksumOk && DateChk(number) {
        return Returns(true);
      } else {
        return Returns(false);
      }
    }
    r := FallsOffEnd;
  }

  /**
   * `checkCpr` with the missing final `return false;`: a check that gives a
   * boolean on every input, true exactly when the first isolated ten-digit
   * run of the stripped, non-empty input is a valid CPR number.
   */
  function CheckCprTotal(cpr: string): (r: bool)
    ensures Verdict(cpr).Returns? ==> r == Verdict(cpr).value
    ensures r <==> !PhpEmpty(cpr) && exists i :: FirstRunFrom(StripSeparators(cpr), 0, i)
                                               && IsValidCpr(StripSeparators(cpr)[i..i + 10])
  {
    if PhpEmpty(cpr) then false
    else
      match PregMatch(StripSeparators(cpr))
      case None => false  // the `return false;` the source lacks
      case Some(m) =>
        VerdictJudgesFirstRun(cpr, m.start);
        Verdict(cpr).value
  }

  // ---------------------------------------------------------------------
  // Properties of the verdict

  /** "" and "0" are `empty()` and give false before any search. */
  lemma EmptyInputIsFalse(cpr: string)
    requires cpr == "" || cpr == "0"
    ensures Verdict(cpr) == Returns(false)
  {
  }

  /**
   * A non-empty input has a verdict exactly when its stripped form holds an
   * isolated ten-digit run, and then the verdict is that of the leftmost one.
   */
  lemma VerdictJudgesFirstRun(cpr: string, i: int)
    requires !PhpEmpty(cpr) && FirstRunFrom(StripSeparators(cpr), 0, i)
    ensures IsCprNumber(StripSeparators(cpr)[i..i + 10])
    ensures Verdict(cpr) == Returns(IsValidCpr(StripSeparators(cpr)[i..i + 10]))
  {
    var m := PregMatch(StripSeparators(cpr));
    FirstRunUnique(StripSeparators(cpr), i, m.value.start);
  }

  /** Without an isolated ten-digit run `checkCpr` falls off its end. */
  lemma FallsOffEndIffNoRun(cpr: string)
    requires !PhpEmpty(cpr)
    ensures Verdict(cpr) == FallsOffEnd <==> forall j :: !IsolatedRunAt(StripSeparators(cpr), j)
  {
    assert Verdict(cpr) == FallsOffEnd <==> PregMatch(StripSeparators(cpr)).None?;
  }

  /**
   * Dashes and spaces anywhere do not change the verdict, as long as the input
   * without them is not itself `empty()`.
   */
  lemma SeparatorsIgnored(x: string, sep: char, y: string)
    requires IsSeparator(sep) && !PhpEmpty(x + y)
    ensures Verdict(x + [sep] + y) == Verdict(x + y)
  {
    SeparatorVanishes(x, sep, y);
  }

  /** A bare ten-digit number is judged on its own. */
  lemma {:induction false} LoneNumberJudged(n: string)
    requires IsCprNumber(n)
    ensures Verdict(n) == Returns(IsValidCpr(n))
  {
    StripClean(n);
    assert n[0..10] == n;
    VerdictJudgesFirstRun(n, 0);
  }

  /** `DDMMYY-SSSS` and `DDMMYY SSSS` are judged as `DDMMYYSSSS`. */
  lemma SeparatedNumberJudged(n: string, sep: char)
    requires IsCprNumber(n) && IsSeparator(sep)
    ensures Verdict(n[..6] + [sep] + n[6..]) == Returns(IsValidCpr(n))
  {
    assert n[..6] + n[6..] == n;
    SeparatorsIgnored(n[..6], sep, n[6..]);
    LoneNumberJudged(n);
  }

  /** Every listed prefix is January 1st of its year. */
  lemma ExemptPrefixesAreNewYear(p: string)
    requires p in NoModuloCheckNumbers
    ensures |p| == 6 && p[0..2] == "01" && p[2..4] == "01"
  {
  }

  /**
   * A number whose date prefix is on the exemption list is accepted whatever
   * its last four digits.
   */
  lemma ExemptNumberAccepted(n: string)
    requires IsCprNumber(n) && n[..6] in NoModuloCheckNumbers
    ensures IsValidCpr(n) && Verdict(n) == Returns(true)
  {
    var p := n[..6];
    ExemptPrefixesAreNewYear(p);
    assert n[0..2] == p[0..2];
    assert n[2..4] == p[2..4];
    assert DecimalValue("01") == 1;
    assert DateChk(n);
    LoneNumberJudged(n);
  }

  /** Eleven digits in a row hold no ten-digit match, so there is no verdict. */
  lemma ElevenDigitsFallOffEnd(s: string)
    requires s == "80101601234"
    ensures Verdict(s) == FallsOffEnd
  {
    assert AllDigits(s);
    StripClean(s);
    forall j ensures !IsolatedRunAt(s, j) {
      if 0 <= j <= 1 {
        LongRunNeverMatches(s, 0, 11, j);
      }
    }
  }

  /** The exempt examples `010160-1234` and `0101891234` are accepted. */
  lemma ExemptExamples(a: string, b: string)
    requires a == "010160-1234" && b == "0101891234"
    ensures Verdict(a) == Returns(true)
    ensures Verdict(b) == Returns(true)
  {
    DashedExemptExample(a);
    PlainExemptExample(b);
  }

  lemma PlainExemptExample(b: string)
    requires b == "0101891234"
    ensures Verdict(b) == Returns(true)
  {
    ExemptExample(b, "010189");
    LoneNumberJudged(b);
  }

  lemma DashedExemptExample(a: string)
    requires a == "010160-1234"
    ensures Verdict(a) == Returns(true)
  {
    var n := a[..6] + a[7..];
    ExemptExample(n, "010160");
    assert n[..6] + ['-'] + n[6..] == a;
    SeparatedNumberJudged(n, '-');
  }

  lemma ExemptExample(n: string, prefix: string)
    requires prefix in NoModuloCheckNumbers && |n| == 10 && n[..6] == prefix
    requires AllDigits(n[6..])
    ensures IsCprNumber(n) && IsValidCpr(n)
  {
    assert n == n[..6] + n[6..];
    assert AllDigits(n);
    ExemptNumberAccepted(n);
  }

  /** `0102811234` weighs 90, not a multiple of 11, with or without the dash. */
  lemma FakeNumberRejected(a: string, b: string)
    requires a == "0102811234" && b == "010281-1234"
    ensures Verdict(a) == Returns(false)
    ensures Verdict(b) == Returns(false)
  {
    FakeNumberFailsChecksum(a);
    LoneNumberJudged(a);
    assert a[..6] + ['-'] + a[6..] == b;
    SeparatedNumberJudged(a, '-');
  }

  lemma FakeNumberFailsChecksum(n: string)
    requires n == "0102811234"
    ensures IsCprNumber(n) && WeightedSum(n) == 90 && !IsValidCpr(n)
  {
    assert IsCprNumber(n);
    assert WeightedSum("0102811234") == 90;
    assert n[..6] == "010281";
    assert "010281" !in NoModuloCheckNumbers;
  }
}
