# CPR number check — a Dafny model

This project models the CPR-number check of the `itk-dev/cpr-sniffer` PHP
library: `CprValidator::checkCpr` and its older twin `CprSniffer::checkCpr`.
A CPR number is the Danish personal identification number: ten digits,
`DDMMYY` followed by four more. Given any string, `checkCpr` does the following:

1. It answers `false` when the string is `empty()`. In PHP that means `""` and also `"0"`.
2. It removes every dash and space.
3. It looks for the leftmost run of exactly ten digits. The run must have the
   string boundary or a non-digit on each side (`(^|\D)\d{10}($|\D)`). The
   flanking characters are then trimmed off.
4. It judges that ten-digit number with two checks:
   - a weighted modulus-11 checksum with weights 4,3,2,7,6,5,4,3,2,1. The checksum
     is waived for 18 listed date prefixes, on which the CPR office issued
     numbers without a control digit.
   - a Gregorian date check. `DDMMYY` is read with a fixed century rule:
     `YY` < 21 means 20YY, otherwise 19YY.
5. It answers the conjunction of the two checks.

When no such run exists, the PHP function reaches the end of its body
without a `return`. The function is declared `: bool`, so PHP raises a
TypeError. The model keeps that outcome explicit:
`Outcome = Returns(bool) | FallsOffEnd`.

Files and modules:

- `calendar.dfy`, module `Calendar`: leap years, month lengths, and
  `CheckDate`, the rule PHP's `checkdate` applies.
- `cpr_rules.dfy`, module `CprRules`: what both classes share.
  - The library calls stated over `string`: `empty`, `str_replace`,
    `preg_match`, `str_split`, `intval`.
  - The weighted sum and the century rule.
  - Lemmas about these.
- `cpr_validator.dfy`, module `CprValidator`:
  - the exemption table, `Mod11Chk` (a loop), `DateChk` and `CheckCpr` (a method);
  - `Verdict`, the function `CheckCpr` is proved against, and lemmas about it;
  - `CheckCprTotal`, the corrected check (see Findings).
- `cpr_sniffer.dfy`, module `CprSniffer`:
  - the same pieces for the sniffer, with `StringSplit` (a loop) in place of `str_split`;
  - a proof that on every input the sniffer ends exactly as the validator does.

`preg_match` is modelled as PCRE runs it. The pattern is tried at offsets
0, 1, 2, … of the subject. At offset 0 the `^` alternative is tried before
`\D`. The function `PregMatch` is proved to return the leftmost isolated
ten-digit run. Its captures are those PHP returns:

- `$result[0]`: the whole match, built from the two groups below and the digits;
- `$result[1]`: the `^|\D` group;
- `$result[2]`: the `$|\D` group. By default PCRE's `$` also matches just
  before a final newline, so that newline is not captured.

Where the written description of the library and the code differ, the model
follows the code:

- Dashes and spaces are removed everywhere and in any number. The code does
  not limit them to one separator between two digits.
- `empty()` is applied before the separators are removed. So `"-"` and `" 0"`
  are not answered `false`: they reach the search, find nothing, and fall off
  the end.

## Model

| member | source | states |
|---|---|---|
| Calendar.DaysInMonth | src/CprValidator.php:172 | month lengths of the calendar `checkdate` uses: between 28 and 31; 29 exactly for February of a leap year; 31 exactly for January, March, May, July, August, October, December |
| Calendar.YearLength | src/CprValidator.php:172 | the twelve month lengths add up to 366 days in a Gregorian leap year and 365 otherwise |
| Calendar.LeapDay | src/CprValidator.php:172 | `checkdate(2, 29, y)` holds exactly when `y` is a Gregorian leap year |
| CprRules.DecimalValue | src/CprValidator.php:113 | `intval` of a digit string is a natural number below 10 to the power of its length |
| CprRules.DecimalConcat | src/CprValidator.php:170 | gluing a century prefix onto a two-digit year adds 100 times the prefix's value: value(a + b) = value(a)·10^len(b) + value(b) |
| CprRules.StripSeparators | src/CprValidator.php:64 | `str_replace(['-', ' '], '', s)` leaves no dash or space and never lengthens the string |
| CprRules.StripAppend | src/CprValidator.php:64 | stripping distributes over concatenation |
| CprRules.StripClean | src/CprValidator.php:64 | a string without dashes and spaces is unchanged, so every other character is kept in order |
| CprRules.StripIdempotent | src/CprValidator.php:64 | stripping twice equals stripping once |
| CprRules.SeparatorVanishes | src/CprValidator.php:62-64 | a dash or space inserted anywhere does not change the stripped string |
| CprRules.MatchAt | src/CprValidator.php:67 | the captures of a match: `$result[0]` is `$result[1]` + the ten digits + `$result[2]`; each group is empty or one non-digit |
| CprRules.MatchFrom | src/CprValidator.php:67 | trying the pattern from offset p on finds the leftmost isolated run at or after the first position offset p can reach, with the captures of `MatchAt`; no match means no isolated run there |
| CprRules.PregMatch | src/CprValidator.php:66-67 | `preg_match` fails exactly when no isolated ten-digit run exists; otherwise it reports the leftmost one |
| CprRules.LongRunNeverMatches | src/CprValidator.php:66-67 | no ten digits inside a run of eleven or more digits form a match |
| CprRules.StrSplit | src/CprValidator.php:83 | `str_split` gives one piece per character, piece i being character i |
| CprRules.JoinStrSplit | src/CprValidator.php:83 | joining the pieces of `str_split(s)` gives `s` back |
| CprRules.SingleDigitErrorDetected | src/CprValidator.php:110-147 | two ten-digit numbers that differ in one digit never both have a weighted sum divisible by 11 |
| CprRules.NoControlDigit | src/CprValidator.php:22-25 | when the first nine digits weigh 1 modulo 11, no tenth digit makes the sum a multiple of 11. This is why the table of numbers without a control digit exists |
| CprRules.CenturyPrefixValue | src/CprValidator.php:165-172 | `intval` of `"20"` or `"19"` glued onto a two-digit year is 2000 or 1900 plus that year |
| CprRules.CenturyWindow | src/CprValidator.php:165-170 | two-digit years 00–20 map to 2000–2020 and 21–99 map to 1921–1999; the full year's last two digits give back the two-digit year |
| CprRules.CenturyLeapYears | src/CprValidator.php:165-172 | within 1921–2020 a CPR year is a leap year exactly when its two digits are a multiple of 4 |
| CprValidator.Mod11Chk | src/CprValidator.php:104-148 | passes exactly when the first six digits are in the exemption table or the weights 4,3,2,7,6,5,4,3,2,1 give a sum divisible by 11 |
| CprValidator.DateChk | src/CprValidator.php:159-173 | accepts exactly when 1 ≤ month ≤ 12 and 1 ≤ day ≤ the length of that month in the year given by the century rule (the `checkdate` year bound never bites) |
| CprValidator.CheckCpr | src/CprValidator.php:56-91 | the trimmed match is exactly the ten digits of the leftmost run; the outcome equals `Verdict` |
| CprValidator.CheckCprTotal | src/CprValidator.php:69-91 | corrected check: agrees with `checkCpr` wherever that returns; true exactly when the input is not `empty()` and the first isolated run of its stripped form passes both checks |
| CprValidator.EmptyInputIsFalse | src/CprValidator.php:58-60 | `""` and `"0"` give false |
| CprValidator.VerdictJudgesFirstRun | src/CprValidator.php:66-89 | for a non-empty input, the verdict is checksum ∧ date of the leftmost isolated run of the stripped string, and that run is ten digits |
| CprValidator.FallsOffEndIffNoRun | src/CprValidator.php:69-91 | a non-empty input falls off the end exactly when its stripped form has no isolated ten-digit run |
| CprValidator.SeparatorsIgnored | src/CprValidator.php:62-64 | inserting a dash or space anywhere does not change the outcome, unless the input without it is `empty()` |
| CprValidator.LoneNumberJudged | src/CprValidator.php:66-89 | a bare ten-digit number gets the verdict of its own two checks |
| CprValidator.SeparatedNumberJudged | src/CprValidator.php:62-64 | `DDMMYY-SSSS` and `DDMMYY SSSS` get the same verdict as `DDMMYYSSSS` |
| CprValidator.ExemptPrefixesAreNewYear | src/CprValidator.php:26-45 | every listed prefix is six characters and starts with `0101` (1 January) |
| CprValidator.ExemptNumberAccepted | src/CprValidator.php:106-108 | a ten-digit number with a listed prefix is accepted whatever its last four digits |
| CprValidator.ElevenDigitsFallOffEnd | src/CprValidator.php:66-91 | `80101601234` has no ten-digit match, so `checkCpr` returns nothing |
| CprValidator.ExemptExamples | tests/CprValidatorTest.php:228-243 | `010160-1234` and `0101891234` are accepted |
| CprValidator.FakeNumberRejected | tests/CprValidatorTest.php:218-223 | `0102811234` and `010281-1234` are rejected (weighted sum 90) |
| CprSniffer.StringSplit | src/CprSniffer.php:97-105 | the hand-written loop returns exactly `str_split` of its argument: as many pieces as characters, piece i being character i |
| CprSniffer.Mod11Chk | src/CprSniffer.php:117-160 | the same acceptance condition as the validator's, with this class's table and implicit number coercion |
| CprSniffer.DateChk | src/CprSniffer.php:171-184 | the same date condition as the validator's |
| CprSniffer.CheckCpr | src/CprSniffer.php:52-87 | the trimmed match is the ten digits of the leftmost run; the outcome equals the sniffer's `Verdict` |
| CprSniffer.VerdictJudgesFirstRun | src/CprSniffer.php:62-85 | for a non-empty input, the sniffer's verdict is checksum ∧ date of the leftmost isolated run of the stripped string, and that run is ten digits |
| CprSniffer.SameExemptionTable | src/CprSniffer.php:22-41 | both classes list the same 18 prefixes |
| CprSniffer.SameDateCheck | src/CprSniffer.php:171-184 | the two date checks accept the same ten-digit numbers |
| CprSniffer.SnifferAgreesWithValidator | src/CprSniffer.php:52-86 | on every input the sniffer's `checkCpr` ends exactly as the validator's: the same boolean or the same missing return |

## Findings

| source | as written | input that shows it | evidently intended | confidence | as-written member | corrected member |
|---|---|---|---|---|---|---|
| src/CprValidator.php:69-91 (same in src/CprSniffer.php:65-87) | `checkCpr(): bool` has no `return` after the `if ($numberFound)` block, so a string without an isolated ten-digit run raises a TypeError | `80101601234` (also `horse`, `-`) | return false when no ten-digit number is found | high (not executed) | CprValidator.ElevenDigitsFallOffEnd | CprValidator.CheckCprTotal |

## Left out

- The PCRE engine in general: only the one pattern `(^|\D)\d{10}($|\D)` is
  modelled, by an explicit scan of start offsets.
- PHP strings are bytes; the model uses `seq<char>`. `\d` is the ASCII digits
  in both. A multi-byte character counts as non-digits either way, so it
  makes no difference to the scan.
- `intval` and PHP's implicit string-to-number coercion are modelled only on
  digit strings. Those are the only strings they receive here.
- `in_array` compares loosely. For two six-digit numeric strings that is the
  same as string equality, so the model tests sequence membership.
- The PHP TypeError is the outcome `FallsOffEnd`; no exception machinery is modelled.
- CprRules.StrSplit: PHP before 8.2 gives `[""]` for an empty string. The model
  gives `[]`. `str_split` is only called here on ten-digit strings.
- CprValidator.Mod11Chk, CprSniffer.Mod11Chk: they require the array to be the
  split of a ten-digit number. That is the only way `checkCpr` calls them.
- CprValidator.DateChk, CprSniffer.DateChk: they require a ten-digit number,
  which is the only way `checkCpr` calls them.
- `containsCpr`, `extractCpr` and `isCpr` are exercised by
  tests/CprValidatorTest.php but are defined in neither class. They are not
  part of this model, and their expected results are not used as properties
  of `checkCpr`.
- The PHPUnit scaffolding and the coding-style configuration are not part of this model.
