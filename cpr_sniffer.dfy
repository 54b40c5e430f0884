/**
 * `CprSniffer`: the earlier copy of the CPR check. It differs from
 * `CprValidator` only in splitting the number with its own loop instead of
 * `str_split` and in relying on PHP's implicit string-to-number coercion
 * where the validator calls `intval`.
 */
module CprSniffer {
  import opened Calendar
  import opened CprRules
  import CprValidator

  /** The exemption table, listed anew in this class. */
  const NoModuloCheckNumbers: seq<string> := [
    "010160", "010164", "010165", "010166", "010169", "010170",
    "010174", "010180", "010182", "010184", "010185", "010186",
    "010187", "010188", "010189", "010190", "010191", "010192"
  ]

  /** `stringSplit($numString)`: the string cut into one-character strings, as `str_split` does. */
  method StringSplit(numString: string) returns (parts: seq<string>)
    ensures parts == StrSplit(numString)
  {
    parts := [];
    for i := 0 to |numString|
      invariant |parts| == i
      invariant forall k :: 0 <= k < i ==> parts[k] == [numString[k]]
    {
      parts := parts + [numString[i..i + 1]];
    }
  }

  /**
   * `mod11Chk($array, $number)`: exempt prefixes pass; otherwise the weighted
   * digits must add up to a multiple of 11. Each one-character string is
   * turned into its digit by PHP's coercion in `$v * 4` and the like.
   */
  method Mod11Chk(arr: seq<string>, number: string) returns (ok: bool)
    requires IsCprNumber(number) && arr == StrSplit(number)
    ensures ok <==> number[..6] in NoModuloCheckNumbers || WeightedSum(number) % 11 == 0
  {
    if number[..6] in NoModuloCheckNumbers {
      return true;
    }
    var value := 0;
    for key := 0 to |arr|
      invariant value == WeightedSumPrefix(number, key)
    {
      var v := DecimalValue(arr[key]);
      assert arr[key] == [number[key]] && v == DigitValue(number[key]);
      assert WeightedSumPrefix(number, key + 1) == value + Weights[key] * v;
      match key
      case 6 | 0 => value := value + v * 4;
      case 7 | 1 => value := value + v * 3;
      case 8 | 2 => value := value + v * 2;
      case 3 => value := value + v * 7;
      case 4 => value := value + v * 6;
      case 5 => value := value + v * 5;
      case 9 => value := value + v * 1;
      case _ =>
    }
    if value % 11 == 0 {
      ok := true;
    } else {
      ok := false;
    }
  }

  /** `dateChk($number)`: as in the validator, with the century prefix glued on directly. */
  function DateChk(number: string): (r: bool)
    requires IsCprNumber(number)
    ensures r <==> 1 <= Month(number) <= 12
                   && 1 <= Day(number) <= DaysInMonth(Month(number), CenturyYear(YearDigits(number)))
  {
    var day := number[0..2];
    var month := number[2..4];
    var year := number[4..6];
    CenturyPrefixValue(year);
    var fullYear := if DecimalValue(year) < 21 then "20" + year else "19" + year;
    CheckDate(DecimalValue(month), DecimalValue(day), DecimalValue(fullYear))
  }

  /** Both checks of a ten-digit number, with this class's table and date check. */
  predicate IsValidCpr(n: string)
    requires IsCprNumber(n)
  {
    Mod11Valid(NoModuloCheckNumbers, n) && DateChk(n)
  }

  /** What `checkCpr` ends in (see `CprValidator.Verdict`). */
  function Verdict(s: string): Outcome {
    if PhpEmpty(s) then Returns(false)
    else
      var subject := StripSeparators(s);
      match PregMatch(subject)
      case None => FallsOffEnd
      case Some(m) => Returns(IsValidCpr(subject[m.start..m.start + 10]))
  }

  /**
   * For a non-empty input whose stripped form has an isolated ten-digit run,
   * the verdict is that of the leftmost one.
   */
  lemma VerdictJudgesFirstRun(s: string, i: int)
    requires !PhpEmpty(s) && FirstRunFrom(StripSeparators(s), 0, i)
    ensures IsCprNumber(StripSeparators(s)[i..i + 10])
    ensures Verdict(s) == Returns(IsValidCpr(StripSeparators(s)[i..i + 10]))
  {
    var m := PregMatch(StripSeparators(s));
    FirstRunUnique(StripSeparators(s), i, m.value.start);
  }

  /** `checkCpr($string)`. */
  method CheckCpr(s: string) returns (r: Outcome)
    ensures r == Verdict(s)
  {
    if PhpEmpty(s) {
      return Returns(false);
    }
    var stringConcatenated := StripSeparators(s);
    var result := PregMatch(stringConcatenated);
    if result.Some? {
      ghost var run := stringConcatenated[result.value.start..result.value.start + 10];
      var number := result.value.whole;
      if !PhpEmpty(result.value.prefix) {
        DropFirst(result.value.prefix, run + result.value.suffix);
        number := number[1..];
      }
      assert number == run + result.value.suffix;
      if !PhpEmpty(result.value.suffix) {
        DropLast(run, result.value.suffix);
        number := number[..|number| - 1];
      }
      assert number == run;
      VerdictJudgesFirstRun(s, result.value.start);
      var arr := StringSplit(number);
      var checksumOk := Mod11Chk(arr, number);
      if checksumOk && DateChk(number) {
        return Returns(true);
      } else {
        return Returns(false);
      }
    }
    r := FallsOffEnd;
  }

  // ---------------------------------------------------------------------
  // The two copies agree

  /** Both classes carry the same eighteen exempt prefixes. */
  lemma SameExemptionTable()
    ensures NoModuloCheckNumbers == CprValidator.NoModuloCheckNumbers
    ensures |NoModuloCheckNumbers| == 18
  {
  }

  /** The two date checks accept the same numbers. */
  lemma SameDateCheck(n: string)
    requires IsCprNumber(n)
    ensures DateChk(n) == CprValidator.DateChk(n)
  {
  }

  /** On every input the sniffer's `checkCpr` ends exactly as the validator's does. */
  lemma SnifferAgreesWithValidator(s: string)
    ensures Verdict(s) == CprValidator.Verdict(s)
  {
    if !PhpEmpty(s) {
      var subject := StripSeparators(s);
      match PregMatch(subject)
      case None =>
      case Some(m) =>
        SameDateCheck(subject[m.start..m.start + 10]);
    }
  }
}
