# Sales-order CSV cleaning, modelled in Dafny

This is a model of the row-cleaning core of a small AWS Lambda function
(`index.py`, repository `lambda-limpieza`). The function reads one uploaded
sales-order CSV file and cleans its rows one at a time. A row is dropped
when its quantity, price, order date, sales figure, order number or order
line number is bad. Otherwise every column is corrected, defaulted or
truncated by its rule. Rows already seen in the file are skipped. The
survivors are written as JSON under a key derived from the input key.

The model has one module per concern:

- `Wrappers` (`wrappers.dfy`): `Option`.
- `Seqs` (`seqs.dfy`): subsequences, `Count` and `Filter`.
- `Text` (`text.dfy`): Python's character classes over Latin-1, `str.strip`,
  `str.upper`, and the helpers `sanitize_text`, `sanitize_phone` and
  `is_valid_numericcode`.
- `Numbers` (`numbers.dfy`): `int(...)` on digit strings, `is_numeric` and
  `float(...)` as a decimal grammar with exact `real` values, and
  `round(x, 2)` with ties to even.
- `Dates` and `DateFacts` (`dates.dfy`): `parse_date`. The seven formats of
  `DATE_FORMATS` are sequences of strptime directives, matched with calendar
  checks, searched in order, and written back as `YYYY-MM-DD`. `DateFacts`
  holds the lemmas about specific inputs.
- `Records` (`records.dfy`): the rules of the loop body as `Normalize`, the
  cleaned row as a typed `CleanRecord`, and `Signature`. `Signature` is the
  dictionary the loop holds at the end of the body and stands for
  `json.dumps(row, sort_keys=True)`.
- `Unique` (`unique.dfy`): the two list operations of the loop, independent
  of what a row is. `FilterMap` keeps the rows that are accepted. `Dedup`
  keeps the first row of each signature.
- `Pipeline` (`pipeline.dfy`): the loop itself as the method `CleanRows`,
  proved equal to `Output`, with the properties of `Output`. Also the output
  key.
- `Scenarios` (`scenarios.dfy`): one complete row, row A, and variants of
  it. Row A has QUANTITYORDERED `2`, PRICEEACH `10.00`, SALES `20.00` (or
  another figure), STATUS `dleivered`, ORDERDATE `2024-01-05`, order
  numbers `100` and `1`, COUNTRY `USA`, an empty CITY, and no TERRITORY or
  STATE column.

Two places where the intent and the code part ways:

- QUANTITYORDERED is meant to be a positive integer, and the code lets
  `"00"` through with the value 0 and aborts the whole file on `"²"` (see
  Findings). Here the model departs from the code: `Records.Normalize` uses
  the corrected rule `Records.QuantityRule`. The rule as written is kept
  beside it as `Records.QuantityRuleAsWritten`, and
  `Records.QuantityRulesAgree` states where the two differ.
- The output key is meant to replace a `.csv` suffix. The code drops
  everything from the last `.` on, whatever the extension is, or keeps the
  whole key when it has no `.`. `Pipeline.OutputKey` does what the code
  does.

## Model

| member | source | states |
|---|---|---|
| Text.Strip | index.py:74 | the result has no whitespace at either end, and it is the slice of the input left after removing whitespace-only ends |
| Text.StripIdempotent | index.py:74 | stripping a stripped string changes nothing |
| Text.Upper | index.py:84 | no ASCII lower-case letter is left, and the result is at least as long as the input (`ß` becomes `SS`) |
| Text.UpperIdempotent | index.py:84 | upper-casing twice is upper-casing once |
| Text.UpperStripped | index.py:84 | `s.strip().upper()` still has no whitespace at its ends |
| Text.StripKeepsWords | index.py:33 | `str.strip` removes only whitespace, so the word characters of the text are all kept, in order |
| Text.SanitizeText | index.py:30-33 | the result holds only word characters and whitespace, has no whitespace at its ends, is an in-order subsequence of the input, and keeps every word character of the input in order |
| Text.SanitizeTextIdempotent | index.py:30-33 | sanitising twice gives the same text as sanitising once |
| Text.SanitizePhone | index.py:35-39 | None exactly when the input is empty or has fewer than 7 decimal digits; otherwise only digits, at least 7, an in-order subsequence of the input, as many as the input has |
| Text.SanitizePhoneIsTheDigits | index.py:35-39 | the kept number is exactly the input's digits in their order: any all-digit subsequence of that length is the result |
| Text.IsValidNumericCode | index.py:41-42 | `is_valid_numericcode`: a non-empty text that `isdigit` accepts; characterised by `Records.NumericCodeRule` and `Records.NumericCodeRuleIdempotent` (a definition without a contract of its own) |
| Seqs.FilterIsUnique | index.py:38 | `re.sub(r'\D', '', phone)` is the only subsequence made of all the digits |
| Numbers.DigitsValue | index.py:77 | `int(qty)` on a decimal numeral, most significant digit first; characterised by `Numbers.DigitsValueZero` and `Numbers.DigitsAreNumeric` (a definition without a contract of its own) |
| Numbers.DigitsValueZero | index.py:75-77 | a digit string has value 0 exactly when every digit is `0` |
| Numbers.ParseDecimal | index.py:23-28 | a numeral has a value only when it holds a digit, and the value is negative only when the text starts with `-` |
| Numbers.IsNumeric | index.py:23-28 | `is_numeric`: `float` accepts the text; the numerals it accepts are characterised by `Numbers.ParseDecimal`, `Numbers.PointNumeral` and `Numbers.NegatedNumeral` (a definition without a contract of its own) |
| Numbers.DigitsAreNumeric | index.py:23-28 | every non-empty digit string is numeric, and `float` and `int` give it the same value |
| Numbers.PointNumeral | index.py:23-28 | `whole.frac` reads as the whole part plus the fraction over its power of ten |
| Numbers.ZeroFraction | index.py:23-28 | a numeral whose fraction is all zeros has the value of its whole part |
| Numbers.NegatedNumeral | index.py:23-28 | a leading `-` negates the value of an unsigned numeral |
| Numbers.UnsignedIsNonNegative | index.py:23-28 | a numeral without a leading `-` never has a negative value |
| Numbers.RoundHalfEven | index.py:97 | the result is within one half of the input, and an exact half goes to the even neighbour |
| Numbers.Round2 | index.py:97 | `round(x, 2)` is within half a cent of `x` and is a whole number of cents |
| Numbers.Round2OfCents | index.py:97 | rounding a whole number of cents changes nothing |
| Numbers.Round2Idempotent | index.py:97 | rounding twice is rounding once |
| Dates.DaysInMonth | index.py:18 | every month has 28 to 31 days; February has 29 exactly in the Gregorian leap years; April, June, September and November have exactly 30, and the other seven months exactly 31 |
| Dates.Digits2 | index.py:18 | two zero-padded decimal digits whose value is the number |
| Dates.Digits4 | index.py:18 | four zero-padded decimal digits whose value is the number |
| Dates.IsoDateIsIsoDate | index.py:18 | `strftime('%Y-%m-%d')` of a calendar date has the ISO shape and names that date |
| Dates.IsoDate | index.py:18 | `strftime('%Y-%m-%d')`: ten characters; its shape and the date it names are characterised by `Dates.IsoDateIsIsoDate` and `Dates.IsIsoDateIsIsoDate` |
| Dates.IsIsoDateIsIsoDate | index.py:18 | every ISO-shaped text is the formatting of the date it names |
| Dates.Number | index.py:18 | a numeric directive reads between its minimum and maximum number of digits, and a value within its range |
| Dates.Consume | index.py:18 | a directive that matches takes at least one character and no more than the text has |
| Dates.SpaceRunIsSpaces | index.py:12-13 | the run a space of the format takes is all whitespace and stops at the first character that is not, as `\s+` does |
| Dates.Match | index.py:18 | strptime's full match of a format against the whole text, reading the fields as it goes; characterised on slashed dates by `DateFacts.MatchSlashedMdy` and `DateFacts.MatchSlashedDmy`, on ISO dates by `DateFacts.MatchIso`, and on times of day by `DateFacts.MatchTimeOfDay` (a definition without a contract of its own) |
| Dates.ParseWith | index.py:18 | a format that succeeds gives an ISO text naming a calendar date |
| Dates.FirstMatch | index.py:16-21 | whatever the search returns is an ISO text naming a calendar date |
| Dates.ParseDate | index.py:15-21 | `parse_date` returns None or an ISO `YYYY-MM-DD` naming a calendar date |
| Dates.FirstMatchPicks | index.py:16-20 | the search returns what the first succeeding format gives |
| Dates.FirstMatchNone | index.py:16-21 | when no format succeeds, the search returns None |
| Dates.FirstMatchFound | index.py:16-21 | whatever the search returns, some format gave it and every earlier one failed |
| DateFacts.ParseSlashed | index.py:10-21 | `a/b/yyyy` is read month-first when that is a calendar date, else day-first when that is one, else not at all |
| DateFacts.ParseWithSlashed | index.py:10-13 | the two year-first formats and the three time-of-day formats reject `a/b/yyyy`; the two date formats read it as month/day and as day/month |
| DateFacts.MatchSlashedMdy | index.py:11-12 | a format starting `%m/%d/%Y` reads `a/b/yyyy`, followed by a text that does not start with a digit, exactly when `a` is 1 to 12 and `b` is 1 to 31, and goes on with those fields |
| DateFacts.MatchSlashedDmy | index.py:11 | a format starting `%d/%m/%Y` reads such a text exactly when `a` is 1 to 31 and `b` is 1 to 12, and goes on with those fields |
| DateFacts.MatchTimeOfDay | index.py:12 | ` %H:%M` and ` %I:%M` read ` hh:mm` exactly when the hour is in the directive's range (0 to 23, or 1 to 12) and the minute is 0 to 59 |
| DateFacts.ParseWithClock12 | index.py:10-13 | on `a/b/yyyy hh:mm AM` or `PM`, the first six formats fail, and `%m/%d/%Y %I:%M %p` gives the month-first date when it is a calendar date |
| DateFacts.ParseSlashedClock12 | index.py:10-21 | a date followed by a 12-hour time is read month first when that is a calendar date and not at all otherwise: no time-of-day format reads the day first |
| DateFacts.ParseAfternoon | index.py:10-21 | `"01/05/2024 10:30 PM"` is `"2024-01-05"` |
| DateFacts.MatchSeconds | index.py:12 | `:%S` at the end reads two digits exactly when they are 0 to 61, and stores them as the second |
| DateFacts.ParseWithClock24 | index.py:10-13 | on `a/b/yyyy hh:mm`, every format but `%m/%d/%Y %H:%M` fails, and that one gives the month-first date when it is a calendar date, the hour is 0 to 23 and the minute 0 to 59 |
| DateFacts.ParseWithSeconds | index.py:10-13 | on `a/b/yyyy hh:mm:ss`, every format but `%m/%d/%Y %H:%M:%S` fails, and that one gives the month-first date when it is a calendar date, the hour and minute are in range and the second is 0 to 59 |
| DateFacts.ParseSlashedClock24 | index.py:10-21 | `parse_date` of a date followed by a 24-hour time is the month-first date exactly when that is a calendar date and the time is in range, and None otherwise |
| DateFacts.ParseSlashedSeconds | index.py:10-21 | `parse_date` of a date followed by a time with seconds is the month-first date exactly when that is a calendar date, the time is in range and the second is at most 59, and None otherwise |
| DateFacts.ParseMorning | index.py:10-21 | `"01/05/2024 10:30"` is `"2024-01-05"` |
| DateFacts.ParseMorningSeconds | index.py:10-21 | `"01/05/2024 10:30:15"` is `"2024-01-05"` |
| DateFacts.ParseLeapSecond | index.py:10-21 | `"01/05/2024 10:30:60"` passes `%S` but `datetime` refuses the second, so it is None |
| DateFacts.MatchYearSlashed | index.py:11 | `%Y/%m/%d` reads `yyyy/mm/dd` exactly when the month is 1 to 12 and the day 1 to 31 |
| DateFacts.ParseWithYearSlashed | index.py:10-13 | on `yyyy/mm/dd`, every format but `%Y/%m/%d` fails, and that one gives the date when it is a calendar date |
| DateFacts.ParseYearSlashed | index.py:10-21 | `parse_date` of `yyyy/mm/dd` is that date when it is a calendar date, and None otherwise |
| DateFacts.ParseYearFirstSlashed | index.py:10-21 | `"2024/01/05"` is `"2024-01-05"` |
| DateFacts.ParseIsoDate | index.py:15-21 | an ISO date of the calendar is read back unchanged by the first format |
| DateFacts.ParseDateIdempotent | index.py:15-21 | `parse_date` applied to its own result gives that result |
| DateFacts.ParseMonthFirst | index.py:10-21 | `"03/04/2024"` is `"2024-03-04"`: month first is tried before day first |
| DateFacts.ParseDayFirst | index.py:10-21 | `"13/04/2024"` can only be read day-first and is `"2024-04-13"` |
| DateFacts.ParseFebruary31 | index.py:10-21 | `"31/02/2024"` matches no format |
| DateFacts.ParseLeapDay | index.py:10-21 | `"02/29/2024"` is a date, because 2024 is a leap year |
| DateFacts.ParseNoLeapDay | index.py:10-21 | `"02/29/2023"` is not a date |
| Records.Get | index.py:74 | `row.get(key, '')`: the column's text, or empty when it is missing |
| Records.QuantityRuleAsWritten | index.py:74-77 | as written: drop exactly when the stripped text is empty, `"0"` or not `isdigit`; otherwise the value of its digits exactly when they are all decimal, and a batch abort exactly when `int` refuses a digit string that `isdigit` accepts |
| Records.QuantityRule | index.py:74-77 | as intended: accept exactly the stripped decimal numerals of positive value, with that value |
| Records.QuantityZeroAccepted | index.py:75-77 | `"00"` passes the check as written with quantity 0; the intended rule drops it |
| Records.QuantityZerosAccepted | index.py:75-77 | every stripped text of two or more zeros passes the check as written with quantity 0; the intended rule drops it |
| Records.QuantitySuperscriptAborts | index.py:75-77 | `"²"` passes `isdigit`, and `int` then aborts the batch |
| Records.QuantityRulesAgree | index.py:74-77 | the intended rule accepts exactly where the rule as written gives a positive quantity, and with the same value |
| Records.PriceRule | index.py:79-82 | accept exactly the stripped numerals whose value is not negative, with that value |
| Records.StatusRule | index.py:84-85 | the new STATUS is never empty, never `DLEIVERED`, and has no lower-case ASCII letter |
| Records.FixStatus | index.py:85 | the typo becomes `DELIVERED` and empty becomes `UNKNOWN`; any other value is kept |
| Records.StatusRuleCases | index.py:84-85 | the three outcomes of the rule in terms of the stripped, upper-cased text |
| Records.StatusIsClean | index.py:84-85 | the new STATUS is stripped and is its own upper case |
| Records.StatusRuleFixedPoint | index.py:84-85 | applying the rule to its own result changes nothing |
| Records.SalesRule | index.py:96-97 | the stored SALES is within 0.1 of quantity times price: the stated figure when it is within 0.1, the product rounded to cents otherwise |
| Records.SalesRuleIdempotent | index.py:96-97 | a second pass of the rule keeps the stored figure |
| Records.MsrpRule | index.py:99-106 | MSRP is the value of the stripped numeral or None, and MSRP_ISSUE holds exactly when there is an MSRP below the price |
| Records.Prefix | index.py:108 | `s[:n]` is a prefix of `s` of length `min(len(s), n)` |
| Records.PrefixIdempotent | index.py:115 | truncating twice is truncating once |
| Records.CityRule | index.py:120-121 | CITY is the stripped text, or `SIN CIUDAD` when that is empty; never empty, always stripped |
| Records.CityRuleIdempotent | index.py:120-121 | a cleaned CITY goes through the rule unchanged |
| Records.TerritoryOf | index.py:62-70 | a country outside the table, and only such a country, gets the empty territory |
| Records.TerritoryTableValues | index.py:62-70 | the seven countries and their territories, and an unlisted country |
| Records.TerritoryRule | index.py:123-124 | a non-empty TERRITORY is kept; an empty or missing one is looked up from the sanitised country |
| Records.PostalRule | index.py:126-128 | POSTALCODE is kept, unstripped, exactly when it holds a decimal digit |
| Records.StateRule | index.py:130-131 | a USA row with an empty or missing STATE gets `UNKNOWN`; otherwise STATE stays as it was, missing included |
| Records.NumericCodeRule | index.py:140-141 | NUMERICCODE is kept, stripped, exactly when the stripped text is non-empty and `isdigit` |
| Records.NumericCodeRuleIdempotent | index.py:41-42 | a kept NUMERICCODE passes `is_valid_numericcode` again and is kept unchanged |
| Records.Untouched | index.py:72-141 | every column no rule touches is kept with its text, and nothing else is |
| Records.Rejected | index.py:74-94 | the six gates, any of which drops the row; characterised by `Records.Normalize` and `Records.AcceptanceDependsOnGates` (a definition without a contract of its own) |
| Records.Clean | index.py:72-141 | the rewrites of the loop body, applied to a row whose gates passed; characterised by `Records.CleanValid`, `Records.NormalizeAccepts` and `Records.NormalizeKeeps` (a definition without a contract of its own) |
| Records.CleanValid | index.py:72-141 | a row built from passing gate values satisfies every invariant of a cleaned row |
| Records.Normalize | index.py:72-141 | a row is dropped exactly when one of the six gates fails; an accepted row has a positive quantity, a price of at least 0, SALES within 0.1 of quantity times price, an ISO date, digit-only order numbers, bounded codes, a non-empty city and, for the USA, a state |
| Records.NormalizeAccepts | index.py:72-141 | a row whose gates pass is cleaned with the gate values, its SALES decided by the sales rule |
| Records.AcceptanceDependsOnGates | index.py:74-113 | only the six gate columns decide whether a row is kept; STATUS, MSRP and the rest never drop a row |
| Records.NormalizeKeeps | index.py:108-124 | an accepted row keeps its quantity digits, its order numbers, prefixes of its product code and line, its territory unless empty, and every untouched column |
| Records.Typed | index.py:143 | the rewritten columns of a cleaned row with their typed values: QUANTITYORDERED always, STATE exactly when the row has it |
| Records.Signature | index.py:143 | `json.dumps(row, sort_keys=True)` stands for the dictionary itself; characterised by `Records.SignatureInjective` (a definition without a contract of its own) |
| Records.SignatureInjective | index.py:143 | two rows with the same signature are the same row |
| Pipeline.Accepted | index.py:72-141 | the cleaned rows of the accepted input rows, in input order; characterised by `Pipeline.AcceptedValid` and the `Unique.FilterMap` lemmas (a definition without a contract of its own) |
| Pipeline.Output | index.py:143-148 | the rows the loop writes out: the accepted rows, each skipped when one with its signature came before; characterised by the `Pipeline.Output` lemmas below (a definition without a contract of its own) |
| Pipeline.AcceptedValid | index.py:72-141 | every accepted row satisfies the cleaned-row invariant |
| Pipeline.CleanRows | index.py:59-148 | the loop returns exactly `Output(rows)`: accepted rows in input order, each one skipped when its signature was seen |
| Pipeline.OutputStep | index.py:143-148 | one more row is appended exactly when it is accepted and its signature is new |
| Pipeline.OutputDistinct | index.py:143-148 | no two output rows have the same signature |
| Pipeline.OutputSubsequence | index.py:143-148 | the output is an in-order subsequence of the accepted rows |
| Pipeline.OutputValid | index.py:72-148 | every output row is an accepted row and satisfies the cleaned-row invariant |
| Pipeline.OutputKeepsAccepted | index.py:143-148 | every accepted row is in the output |
| Pipeline.OutputSkipsOnlyRepeats | index.py:143-148 | an accepted row adds nothing to the output exactly when an earlier row of the file was cleaned to the same row |
| Pipeline.OutputIdempotent | index.py:143-148 | deduplicating the output again changes nothing |
| Pipeline.OutputRepeatedRow | index.py:143-148 | appending a copy of an earlier input row leaves the output unchanged |
| Pipeline.OutputDuplicate | index.py:143-148 | of an accepted row given twice, only the first is written out |
| Pipeline.LastDot | index.py:150 | the position of the last `.`, or None exactly when there is none |
| Pipeline.OutputKey | index.py:150 | the key ends in `.json`: what comes before its last `.` plus `.json`, or the whole key plus `.json` when it has no `.` |
| Pipeline.OutputKeyReplacesExtension | index.py:150 | `stem.ext`, with no `.` in `ext`, becomes `stem.json` |
| Pipeline.OutputKeyIdempotent | index.py:150 | deriving the key of a derived key changes nothing |
| Pipeline.OutputKeyOfDottedFolder | index.py:150 | a `.` in a folder name counts when the file name has none |
| Unique.FilterMap | index.py:72-76 | the values of a partial function in input order, never more than the input; characterised by `Unique.FilterMapValues` and `Unique.FilterMapKeeps` |
| Unique.FilterMapValues | index.py:72-76 | every kept value is the value of some input element |
| Unique.FilterMapKeeps | index.py:72-76 | every value of an input element is kept |
| Unique.Dedup | index.py:143-148 | each element whose signature no earlier kept element has; characterised by the `Unique.Dedup` lemmas below (a definition without a contract of its own) |
| Unique.AccumulateSkipsOnlyRepeats | index.py:143-148 | with a signature that identifies its element, an element is skipped exactly when an earlier element had the same value |
| Unique.DedupDistinct | index.py:143-148 | the kept elements have pairwise distinct signatures |
| Unique.DedupSubsequence | index.py:143-148 | the kept elements are an in-order subsequence of the input |
| Unique.DedupCovers | index.py:143-148 | every input element's signature is among those of the kept ones |
| Unique.DedupOfDistinct | index.py:143-148 | a list with distinct signatures is kept whole |
| Scenarios.RowAAccepted | index.py:72-141 | row A is accepted with status `DELIVERED`, city `SIN CIUDAD`, territory `NA` and state `UNKNOWN` |
| Scenarios.ScenarioKeptSales | index.py:92-97 | with SALES `20.00` the stated figure is kept |
| Scenarios.ScenarioRecomputedSales | index.py:92-97 | with SALES `999.00` the figure is recomputed as 20.0 |
| Scenarios.ScenarioZeroQuantity | index.py:74-76 | a QUANTITYORDERED of `0` drops row A |
| Scenarios.ScenarioFebruary31 | index.py:87-89 | an ORDERDATE of `31/02/2024` drops row A |
| Scenarios.StatusMisspelt | index.py:84-85 | `dleivered` becomes `DELIVERED` |

## Left out

- S3 access is not modelled: the event payload (index.py:46-47), `get_object` and `put_object` (lines 49-50, 151-156), and the fixed output bucket. These are foreign I/O. `CleanRows` receives the rows, and `OutputKey` receives the object key.
- Byte decoding, UTF-8 with a Latin-1 fallback (lines 52-55), is not modelled. Text is a `seq<char>`. Characters are classified as Python classifies the Latin-1 range. A character above U+00FF counts as neither whitespace, nor a word character, nor a digit, and `str.upper` leaves it alone.
- `csv.DictReader` (line 57) is not modelled: a row is a `map<string, string>`. A short row whose missing cells are `None`, and a long row with its `None` key holding a list, are not modelled; both make the code raise or behave in ways outside the row rules.
- `json.dumps` text is not produced. The dedup signature is the dictionary itself (`Records.Signature`), which identifies the row as the sorted-key JSON text does. The JSON body of the output (line 154) is not produced either.
- IEEE-754 floats: money is an exact `real`. `float()` also accepts exponents, `inf`, `nan` and underscores, and `ParseDecimal` does not. Float rounding in `qty * price` and `-0.0` are not modelled. In exactly this case the code breaks its own SALES promise: PRICEEACH `"nan"` passes `float(price) < 0` (line 80) and makes `abs(sales - calc_sales) > 0.1` false (line 97), so the row is written with its stated SALES, whatever that is. The model's bound of 0.1 between SALES and quantity times price holds only over the decimal grammar.
- `round(x, 2)` rounds the exact value half to even. Python rounds the nearest binary double, which can differ on ties such as 2.675.
- strptime: the seven formats are directive sequences on the stripped text. These are not modelled: locale-dependent `%p` text, and strptime's own whitespace and case rules beyond those stated in `dates.dfy`.
- `strftime('%Y')` is modelled as four zero-padded digits. Some C libraries do not pad years below 1000.
- The exception handler, the 200 and 500 results and `print` (lines 158-168) are not modelled. Of the failures that reach it, only `int` refusing a digit string that `isdigit` accepts is modelled, as the `Abort` outcome of `QuantityRuleAsWritten`; the digit limit and the float overflow are on the `Records.QuantityRuleAsWritten` and `Records.Normalize` lines below.
- Records.Signature: the column names are mapped one to one onto the `Column` datatype. `ColumnName` is injective by inspection of its twenty-one cases, and that is not stated as a lemma.
- The phone texts `(555) 12-34` (seven digits, kept as `5551234`) and `555-12` (five digits, dropped) are not stated as lemmas on those literal strings. `Text.SanitizePhone` and `Text.SanitizePhoneIsTheDigits` give the result for any text.
- Records.QuantityRuleAsWritten: does not model CPython's limit of 4300 digits on `int` of a string (index.py:77). A stripped QUANTITYORDERED of more than 4300 decimal digits makes `int` raise, and the `except` at index.py:163 ends the whole file with status 500. The model gives `Qty` with the value. The limit depends on the interpreter's version and settings, so it is left out.
- Records.Normalize: does not model the `OverflowError` of `qty * price` at index.py:96. Converting a quantity of about 2^1024 or more (some 309 digits) to a float raises, even when the price is 0.0, and that ends the whole file too. `Normalize` and `Pipeline.CleanRows` accept such a row, because the model's numbers are unbounded.
- Records.Normalize: uses the corrected quantity rule, so it departs from the code on two kinds of QUANTITYORDERED. On `"00"`, or any other stripped run of two or more zeros, the code keeps the row with quantity 0, and `Normalize` drops it. On a text that `isdigit` accepts but `int` refuses, such as `"²"`, the code aborts the whole file, and `Normalize` drops only that row. The code's behaviour is `Records.QuantityRuleAsWritten`, and `Records.QuantityRulesAgree` proves the two rules agree everywhere else.

## Findings

| source | as written | input that shows it | evidently intended | confidence | as-written member | corrected member |
|---|---|---|---|---|---|---|
| index.py:75-77 | only the exact text `"0"` is refused, so a quantity of zero written another way passes | QUANTITYORDERED `"00"`: kept with quantity 0 | a quantity must be positive, as the `"0"` check and the positive-integer type of the column say | high; not executed | Records.QuantityZeroAccepted | Records.QuantityRule |
| index.py:75-77 | `str.isdigit` also accepts the superscript digits, which `int` refuses | QUANTITYORDERED `"²"`: `int` raises, and the handler's `except` ends the whole file with status 500 | a quantity that is not a decimal numeral drops the row | high; not executed | Records.QuantitySuperscriptAborts | Records.QuantityRule |

The rule as written is `Records.QuantityRuleAsWritten`. `Records.QuantityRulesAgree` proves that the corrected `Records.QuantityRule` differs from it only on these two kinds of input. `Records.Normalize` uses the corrected rule.
