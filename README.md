# Lab-result interpreter: reference-range parsing and classification

This project models the interpretation core of a lab-report assistant (`backend/utils/interpretador.py`) in Dafny. The core has two operations:

- `parse_interval` reads a free-text reference range and turns it into optional lower and upper bounds. Examples of such ranges are "12,0 a 15,8", "< 200", "> 50", "13" and "140.000 a 450.000".
- `interpretar_exame` looks an analyte up in the glossary and picks the reference table for the patient's sex. It then scans that table's age brackets ("0-17", "65+", "padrão") in stored order, parses the chosen range, and classifies the value as `normal`, `alto` or `baixo`. A term that is not in the glossary yields `indeterminado`.

The project is split into three modules:

- `Text` (text.dfy): decimal digits, Python's whitespace set, `str.lower`, `str.strip`, `str.replace(c, "")`, `str.split("-")` and the literals `int()` accepts.
- `Interval` (interval.dfy): the steps of `parse_interval`, in order:
  - the comma-to-point rewrite;
  - the thousands rule `(?<=\d)\.(?=\d{3})`;
  - the `findall` tokenizer `\d+(?:\.\d+)?`, as a leftmost, greedy scan;
  - the priority rules: `<`, then `>`, then two numbers, then one, then none.
- `Interpreter` (interpreter.dfy): the whole of `interpretar_exame`:
  - the glossary lookup on the lower-cased, stripped term;
  - the early returns;
  - the bracket loop, as the method `ChooseRange` proved against the specification function `Resolve`;
  - the `if`/`elif` chain that sets the status, as the method `ClassifyValue` proved against `Classify`.
  - The whole operation is the method `InterpretExam`, proved against the function `Interpretation`. Both parse the range exactly as the code does, with `Interval.ParseIntervalAsWritten`.

Numbers are exact: a token's value is a `real` built from its digits. A Python exception is an outcome of its own:
- the `ValueError` raised by `int(...)`, or by unpacking `split("-")`, on a bracket label the code cannot read is `Raises` (a `Fault` for one label, `Raised` for the scan, `Crash` for the choice);
- nothing in the model fails silently.

The glossary, read from `glossario.json` when the module is loaded, is a parameter (`Glossary`). Each sex's age-bracket mapping is a sequence of (label, range) pairs in the stored order of the JSON object.

Three consequences of the code worth knowing:
- A point is dropped as a thousands separator when at least three digits follow it, because `(?=\d{3})` is a lookahead: "1.0000" reads as 10000.
- A "65+" bracket has no upper end: age 200 with brackets "0-17", "18-64" and "65+" takes the "65+" range (`Interpreter.ExampleBrackets`).
- An unreadable bracket label raises `ValueError` out of `interpretar_exame` (`Interpreter.RaisesIff`). Nothing in the function catches it.

## Model

| member | source | states |
|---|---|---|
| Text.Lower | backend/utils/interpretador.py:23 | `lower()` keeps the length and lower-cases each character on its own |
| Text.StripShape | backend/utils/interpretador.py:23 | `strip()` returns a contiguous slice of its input; what it removes on either side is all whitespace, and the result neither starts nor ends with whitespace |
| Text.StripPadded | backend/utils/interpretador.py:23 | whitespace added on both sides makes no difference to `strip()` |
| Text.StripIdempotent | backend/utils/interpretador.py:23 | stripping twice equals stripping once |
| Text.RemoveAllConcat | backend/utils/interpretador.py:41 | `RemoveAll`, the model of `replace("+", "")`, works piece by piece: removing from a concatenation is removing from each part |
| Text.RemoveAllSingle | backend/utils/interpretador.py:41 | on one character `RemoveAll` deletes `+` and keeps anything else; with `RemoveAllConcat` this fixes the result completely, order and number of the kept characters included |
| Text.RemoveAllAbsent | backend/utils/interpretador.py:41 | a text without `+` is unchanged |
| Text.DigitsLiteral | backend/utils/interpretador.py:41-46 | `IsIntLiteral`/`IntValue`, the model of `int()`: a run of ASCII digits is accepted with its decimal value |
| Text.NegativeLiteral | backend/utils/interpretador.py:41-46 | `int()` of a minus sign and digits is the negated value |
| Text.IntLiteralPadded | backend/utils/interpretador.py:41-46 | whitespace around the text makes no difference to whether `int()` accepts it or to its value |
| Text.Count | backend/utils/interpretador.py:45 | the number of occurrences is zero exactly when the character is absent |
| Text.IndexOf | backend/utils/interpretador.py:45 | `split("-")` cuts at the first `-`: the index holds `-` and no `-` comes before it |
| Interval.ReplaceCommasAt | backend/utils/interpretador.py:13 | `ReplaceCommas`, the model of `replace(",", ".")`: every comma becomes a point, every other character is unchanged, and no comma is left |
| Interval.DropSeparatorsKeepsNonDots | backend/utils/interpretador.py:14 | `DropSeparators`, the thousands rule, removes points and nothing else: with the points taken out, text before and after are the same |
| Interval.DropOneSeparator | backend/utils/interpretador.py:14 | a single point between a digit and three digits is removed and the rest is kept |
| Interval.DropPointBetween | backend/utils/interpretador.py:14 | a point between a run of digits and three or more digits is removed |
| Interval.ShortDecimalKept | backend/utils/interpretador.py:14 | a point followed by fewer than three digits is kept |
| Interval.ExampleMillion | backend/utils/interpretador.py:14 | "1.000.000" loses both points |
| Interval.RewritePreserves | backend/utils/interpretador.py:13-14 | both rewrites keep the `<` and `>` signs and whether the text holds a digit |
| Interval.RewriteKeepsChar | backend/utils/interpretador.py:13-14 | any character other than a comma or a point, so each digit and each of the `<`, `>`, `+` and `-` signs, occurs after either rewrite exactly when it occurs before |
| Interval.TokensEmptyIff | backend/utils/interpretador.py:15 | `Tokens`, the model of `findall`, finds no number exactly when the text holds no digit |
| Interval.TokensWellFormed | backend/utils/interpretador.py:15 | every number found has a non-empty run of integer digits and a run of fraction digits |
| Interval.TokensSkip | backend/utils/interpretador.py:15 | characters that are not digits before a number are skipped |
| Interval.TokensAfter | backend/utils/interpretador.py:15 | a number followed by neither a digit nor a point is read whole, and the scan resumes after it |
| Interval.TokensRender | backend/utils/interpretador.py:15 | round trip for `Tokens`: writing any list of numbers with a separator that is neither a digit nor a point, then scanning, gives the same list back |
| Interval.TokensPair | backend/utils/interpretador.py:15 | two numbers with a digit-free gap between them are found as exactly those two |
| Interval.DecideShape | backend/utils/interpretador.py:16-20 | `Decide`, the priority rules, on any text with the same signs and digits as the original: no bound exactly without digits; `<` gives only an upper bound, `>` without `<` only a lower one, neither gives both; bounds are never negative |
| Interval.ParseIntervalAsWrittenShape | backend/utils/interpretador.py:11-20 | for `ParseIntervalAsWritten`, the code's parser: the result is (None, None) exactly when the text has no digit; `<` gives only an upper bound, `>` without `<` only a lower one, neither gives both; a one-sided result implies a sign |
| Interval.ParseIntervalShape | backend/utils/interpretador.py:11-20 | the same shape guarantees for `ParseInterval`, the corrected parser |
| Interval.WrittenRewrites | backend/utils/interpretador.py:13-14 | a number with fewer than three fraction digits, written with a point or a decimal comma, comes out of both rewrites as its own token |
| Interval.RewriteSplit | backend/utils/interpretador.py:13-14 | neither rewrite reaches across a character that is not a digit, point or comma: the text can be rewritten in parts |
| Interval.DecideOpening | backend/utils/interpretador.py:15-17 | a sign, a digit-free blank, then a number: the number is the one bound, upper after `<`, lower after `>` |
| Interval.OpenBound | backend/utils/interpretador.py:13-17 | for any sign, blank, number (point or decimal comma, under three fraction digits) and trailing text that does not continue the number: `<` gives (None, value), `>` gives (value, None), under both parsers |
| Interval.ThousandsInterval | backend/utils/interpretador.py:13-18 | "a.bbb gap c.ddd" is the interval from the whole number ab to the whole number cd |
| Interval.DecimalInterval | backend/utils/interpretador.py:13-18 | "a,b gap c,d" with one or two digits after each comma is the interval from a.b to c.d |
| Interval.DecimalCommaAsWritten | backend/utils/interpretador.py:13-19 | as written, "a,bbb" (three or more digits after the comma) reads as the whole number ab |
| Interval.DecimalCommaRead | backend/utils/interpretador.py:13-19 | the corrected parser reads "a,b" as the decimal a.b for any number of fraction digits |
| Interval.DecimalCommaScaled | backend/utils/interpretador.py:13-14 | on "a,bbb" the corrected value is the as-written value divided by 10 to the number of fraction digits |
| Interval.ExampleOpenLower | backend/utils/interpretador.py:16 | "<100" is (None, 100) |
| Interval.ExampleOpenUpper | backend/utils/interpretador.py:17 | ">50" is (50, None) |
| Interval.ExampleOpenComma | backend/utils/interpretador.py:13-17 | "> 0,5" is (0.5, None) under both parsers |
| Interval.ExampleDecimalInterval | backend/utils/interpretador.py:18 | "12,0 a 15,8" is (12.0, 15.8) |
| Interval.ExampleThousands | backend/utils/interpretador.py:14-18 | "140.000 a 450.000" is (140000, 450000) |
| Interval.ExamplePinpoint | backend/utils/interpretador.py:19 | "13" is (13, 13) |
| Interval.ExampleEmpty | backend/utils/interpretador.py:20 | the empty text is (None, None) |
| Interval.ExampleDecimalComma | backend/utils/interpretador.py:13-19 | "0,700" is (700, 700) as written and (0.7, 0.7) corrected |
| Interpreter.StatusCode | backend/utils/interpretador.py:28 | the code is "indeterminado" for that status and for no other |
| Interpreter.KeyIgnoresCaseAndPadding | backend/utils/interpretador.py:23 | `NormalizeKey`, the glossary key `lower().strip()`, ignores surrounding whitespace and upper case |
| Interpreter.KeyIdempotent | backend/utils/interpretador.py:23 | normalising a key that is already normal changes nothing |
| Interpreter.InterpretationIgnoresCaseAndPadding | backend/utils/interpretador.py:23-24 | for a known term, padding and case make no difference to the outcome |
| Interpreter.StatusCodeReturned | backend/utils/interpretador.py:22-71 | the status code of any returned outcome is one of "normal", "alto", "baixo" and "indeterminado", and it is "indeterminado" exactly when the term is not found |
| Interpreter.IndeterminateIffNotFound | backend/utils/interpretador.py:24-28 | the status is `indeterminado` exactly when the term is missing or its entry empty, with the not-found message |
| Interpreter.ExampleNotFound | backend/utils/interpretador.py:27-28 | with an empty glossary every term is not found |
| Interpreter.NoValueDescription | backend/utils/interpretador.py:31-32 | without a value the description (or its default) is returned as `normal` |
| Interpreter.SexCaseIrrelevant | backend/utils/interpretador.py:37 | the sex is matched in lower case: its case makes no difference to the outcome |
| Interpreter.MissingSexReadsGeneral | backend/utils/interpretador.py:36-37 | for a known term, a sex without a table of its own gives the same outcome as `geral` |
| Interpreter.LabelTest | backend/utils/interpretador.py:40-48 | a label with neither `+` nor `-` (such as "padrão") never matches; a match is a `+` match or a `-` match |
| Interpreter.PlusLabel | backend/utils/interpretador.py:41 | `PlusTest`: "N+" matches exactly the ages of at least N |
| Interpreter.SpanLabel | backend/utils/interpretador.py:44-46 | `DashTest`: "A-B" matches exactly the ages from A to B inclusive |
| Interpreter.SpanUnreadableEnd | backend/utils/interpretador.py:45-46 | `DashTest` reads the end only past the start: "A-x" with an unreadable end misses below A and raises from A on |
| Interpreter.TwoDashesRaise | backend/utils/interpretador.py:44-45 | `DashTest`: a label with a second `-` raises at every age, since `split("-")` must give two parts |
| Interpreter.Label0To17 | backend/utils/interpretador.py:44-46 | "0-17" matches exactly ages 0 to 17 |
| Interpreter.Label18To64 | backend/utils/interpretador.py:44-46 | "18-64" matches exactly ages 18 to 64 |
| Interpreter.Label65Plus | backend/utils/interpretador.py:41 | "65+" matches exactly ages of at least 65 |
| Interpreter.ScanFrom | backend/utils/interpretador.py:40-48 | a match is the first label that is not a miss; no match means every label misses; a raise comes from the first label that is not a miss |
| Interpreter.FirstMatch | backend/utils/interpretador.py:40-48 | the scan picks bracket k exactly when k matches and every earlier one misses |
| Interpreter.StoredOrderDecides | backend/utils/interpretador.py:40-48 | of two brackets that both match, the one stored first wins, in either order |
| Interpreter.Lookup | backend/utils/interpretador.py:49-50 | a value found is stored under the key; none found means the key is absent |
| Interpreter.FallbackRange | backend/utils/interpretador.py:49-50 | the fallback is the non-empty `padrão` range or nothing, and never raises |
| Interpreter.MatchBeforeFallback | backend/utils/interpretador.py:39-50 | a matching bracket with a non-empty range is chosen over `padrão` |
| Interpreter.FallbackWithoutMatch | backend/utils/interpretador.py:49-52 | when no bracket matches, a non-empty `padrão` range is chosen, otherwise none |
| Interpreter.Resolve | backend/utils/interpretador.py:39-52 | the choice raises exactly when the scan raises, and a chosen range is never empty |
| Interpreter.ChooseRange | backend/utils/interpretador.py:39-50 | the loop that stops at the first match, then falls back on `padrão`, makes the choice `Resolve` specifies |
| Interpreter.ExampleBrackets | backend/utils/interpretador.py:39-48 | with "0-17", "18-64" and "65+": age 10 picks the first range, ages 70 and 200 the last |
| Interpreter.RaisesIff | backend/utils/interpretador.py:40-48 | the call raises exactly when the term is found, a value is given, and the scan reaches an unreadable label before any match |
| Interpreter.NoRangeUnclassified | backend/utils/interpretador.py:52-53 | without a usable range the result is description and interpretation, as `normal` |
| Interpreter.Classify | backend/utils/interpretador.py:55-68 | the status is never `indeterminado`, and each status goes with its own status phrase |
| Interpreter.ClassifyValue | backend/utils/interpretador.py:55-68 | the status variables after the `if`/`elif` chain are those `Classify` specifies |
| Interpreter.ClassifyInterval | backend/utils/interpretador.py:59-68 | for lo < hi: `normal` exactly inside [lo, hi], `baixo` exactly below, `alto` exactly above |
| Interpreter.ClassifyPinpoint | backend/utils/interpretador.py:59-62 | for a pinpoint reference any other value is `alto`, with the "different" phrase |
| Interpreter.ClassifyOpen | backend/utils/interpretador.py:63-68 | an upper bound alone flags only values above it; a lower bound alone flags only values below it; no bound flags nothing |
| Interpreter.ExampleClassify | backend/utils/interpretador.py:59-68 | 5, 25 and 15 against 10-20 are `baixo`, `alto` and `normal`; 14 against 13 is `alto` |
| Interpreter.VerdictContents | backend/utils/interpretador.py:55-71 | a verdict carries the given value, the chosen range, the interpretation text, and the phrase and status of classifying the value against the range as the code parses it |
| Interpreter.ChosenVerdict | backend/utils/interpretador.py:55-71 | once a range is chosen for a found term and a given value, the call returns the verdict on that value: the phrase and status of classifying it against the range as the code parses it, with the range and the interpretation text |
| Interpreter.DecimalCommaVerdict | backend/utils/interpretador.py:55-62 | a value of 0.7 against the range "0,700" is reported `alto`; the corrected parser would classify it `normal` |
| Interpreter.InterpretExam | backend/utils/interpretador.py:22-71 | the method returns the outcome the function `Interpretation` specifies, for every glossary and input; the lemmas above state what that outcome is |

## Left out

- The glossary file is not read. The open and `json.load` at import time are replaced by the `Glossary` parameter.
- JSON objects with duplicate keys are not modelled, since a parsed JSON object has distinct keys.
- A bracket range that is not a string (for example a nested object) is left out: the model's tables map labels to strings.
- The other modules of the repository (term extraction, the analysis generator, the AI explainer, the web app and frontend) are not part of this model.
- The final message of a classified value is kept structurally (value, status phrase, range, interpretation). Python's rendering of the `float` in it and the fixed wording around it are left out.
- Interval.Value: numbers are exact decimals, so binary floating-point rounding of `float()` and of the comparisons with `valor` is not modelled (a NaN `valor` included).
- Text.Lower: covers Basic Latin and Latin-1 capital letters only. Python's full Unicode case mapping (Greek, Cyrillic, the multi-character `İ`) is not modelled.
- Text.IsDigit: digits are ASCII `0`-`9` only. Python's `\d` in the thousands look-arounds and in the `findall` tokenizer, and `float()` after them, also accept every other Unicode decimal digit: "١" parses to (1.0, 1.0) in the code but to (None, None) here.
- Text.IsIntLiteral: `int()` is modelled for an optional sign and ASCII digits, with surrounding whitespace. Underscore digit groups and non-ASCII decimal digits, which Python also accepts, are left out.
- Interpreter.Interpretation: JSON `null` values under the keys the code reads are not modelled. Each field of an entry is either absent or a string, or a table for `referencias`.

## Findings

| source | as written | input that shows it | evidently intended | confidence | as-written member | corrected member |
|---|---|---|---|---|---|---|
| backend/utils/interpretador.py:13-14 | commas become points before the thousands rule runs, so a decimal comma followed by three or more digits is then removed as a thousands separator | "0,700" parses to (700, 700); "0,700 a 1,200" to (700, 1200) | a decimal comma stays a decimal point: "0,700" is (0.7, 0.7); only points that were already in the text act as thousands separators | medium, not executed | Interval.ExampleDecimalComma | Interval.DecimalCommaRead |

`Interval.ParseIntervalAsWritten` is the parser as written. `Interval.DecimalCommaAsWritten` proves that it reads "a,bbb" as the whole number ab. `Interval.DecimalCommaScaled` proves that the result is too large by a factor of 10 to the number of fraction digits.

`Interval.ParseInterval` is the corrected parser. It drops thousands points on the original text and only then turns commas into points. `Interval.DecimalCommaRead` proves that it reads "a,b" as a.b.

The interpreter keeps the code's parser, so the model of `interpretar_exame` reports what the code reports. `Interpreter.DecimalCommaVerdict` shows the consequence for a caller: 0.7 against "0,700" comes out `alto`, where the corrected parser gives `normal`.
