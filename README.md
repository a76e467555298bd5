# Calculadora do Cidadão — verified model of the form and response logic

The Python package `calculadora_do_cidadao` wraps the Banco Central do
Brasil's "Calculadora do Cidadão", a web form that corrects a monetary
amount between two dates by a price index. Its base class
`BaseDaCalculadoraDoCidadão` does four pure or local jobs around the HTTP
call:

- it validates the chosen index against a fixed table, falling back to a
  default, and stores the constant form fields;
- it encodes dates as `MM/YYYY` and the amount with a decimal comma, then
  builds the request payload;
- it cleans the label and value texts of the result table:
  - labels get their whitespace collapsed and trimmed;
  - values are reduced to digits, `,`, `/` and `%`, then classified as
    nothing, a number, a month/year date or text;
- it pairs the cells into an insertion-ordered dict and drops falsy values.

This project models those jobs in Dafny and proves what they promise. It
has one module per concern:

| module | file | models |
|---|---|---|
| `Wrappers` | wrappers.dfy | `Option` and `Result` (a raised exception is a `Failure`) |
| `Strings` | strings.dfy | digits, `str(n)`, `int(s)`, `str.split`, `str.join`, `str.replace`, `0>2d` padding |
| `Dates` | dates.dfy | `datetime.date` construction and its range errors |
| `Registry` | registry.dfy | `ÍNDICES`, `ÍNDICE_PADRÃO` and the index check of the constructor |
| `KeyCleaning` | key_cleaning.dfy | `limpar_chave` |
| `ValueCleaning` | value_cleaning.dfy | `limpar_valor` |
| `FormEncoding` | form_encoding.dfy | `preparar_data` and the amount format |
| `OrderedMaps` | ordered_maps.dfy | the insertion-ordered `dict` operations used |
| `ResponseParser` | response_parser.dfy | `parser` from the tuple of cell texts onward |
| `Calculator` | calculator.dfy | the class: constructor, fields, `dados_para_requisição` |

Representation choices:

- **Dicts.** A Python `dict` is a sequence of `(key, value)` entries with
  distinct keys. Assigning to a present key replaces its value in place.
  Assigning to a new key appends it.
- **Numbers.** A `float` returned by `limpar_valor` is kept exactly as the
  decimal it spells, `Number(mantissa, scale)`, meaning `mantissa / 10^scale`.
- **Amounts.** The amount sent to the form is a whole number of cents.
- **Missing dates.** `date.today()` is a parameter `today`.
- **Whitespace.** `\s` is the fixed set of code points for which Python's
  `str.isspace` holds.
- **Digits.** `\d` is the ASCII digits.

The code differs from a plain reading of the package's description in
five places, and the model follows the code:

- Parsing the result table is not lenient: `limpar_valor` raises, and with
  it `parser`. `float()` refuses `"1,2,3"` or `","`
  (`calculadora_do_cidadao.py:68-69`). Unpacking refuses `"1/2/3"`, `int()`
  refuses `"/2020"`, and `date()` refuses `"13/2020"`
  (`calculadora_do_cidadao.py:72-73`). One such value cell makes the whole
  parse fail with its error: `ResponseParser.ParseSucceeds` and
  `ResponseParser.ParseFails` state this.

- `selIndice` is always the default index (`calculadora_do_cidadao.py:45`).
  The index the caller picks is validated and then discarded, so
  `Calculator.Calculator.New` promises `formData == BaseForm` for every
  accepted index.
- `limpar_valor` on text with no digit, comma, slash or percent sign
  returns the empty string, not `None` (`calculadora_do_cidadao.py:75`).
  Only the truthiness filter of `parser` drops it.
- That filter (`calculadora_do_cidadao.py:85`) also drops a number equal to
  zero (`0,00` becomes `0.0`, which is falsy), so `ValueCleaning.Truthy` is
  false for `Number(0, _)`.

- The year in `MM/YYYY` is Python's `str(year)`
  (`calculadora_do_cidadao.py:53`), so years below 1000 have fewer than
  four digits. `FormEncoding.MonthYearShape` states this: no leading zero.

`datetime.date` converts each argument to a C `int` before it checks any
range, so a month or year of 2^31 or more in a value cell raises
`OverflowError`, not `ValueError`. `Dates.MakeDate` reports that as
`ArgumentOverflow`, ahead of the range errors.

## Model

| member | source | states |
|---|---|---|
| Registry.ChosenIndex | calculadora_do_cidadao.py:35 | `índice or ÍNDICE_PADRÃO`: a missing or empty index becomes the default; its properties are in ResolveIndexSucceeds |
| Registry.InvalidIndexMessage | calculadora_do_cidadao.py:37-39 | the `ÍndiceInválido` text: the index, the fixed phrase and the valid keys joined by `", "`; ResolveIndexFails proves what it holds |
| Registry.ResolveIndex | calculadora_do_cidadao.py:35-40 | the index check of the constructor: the chosen index, or the `ÍndiceInválido` failure; ResolveIndexSucceeds and ResolveIndexFails give both outcomes |
| Registry.IndexKeysAreTheTable | calculadora_do_cidadao.py:21-30 | the key list used for messages holds exactly the table's keys, each once, in declaration order, and the default index is one of them |
| Registry.ResolveIndexSucceeds | calculadora_do_cidadao.py:35-36 | validation succeeds iff the index is missing, empty or a table key; missing and empty resolve to `00189IGP-M`, a table key to itself |
| Registry.ResolveIndexFails | calculadora_do_cidadao.py:36-40 | a non-empty unknown index fails with a message that starts with that index and contains every valid key |
| Strings.JoinContains | calculadora_do_cidadao.py:37 | each part joined by `", ".join` occurs in the joined string |
| Calculator.Calculator.New | calculadora_do_cidadao.py:32-48 | with the defaults of `índice=None` and `verificar_ssl=True`, construction succeeds iff `índice or ÍNDICE_PADRÃO` is a table key; the failure carries the `ÍndiceInválido` message; on success the object is new, keeps the SSL flag and holds exactly the base form whatever index was chosen |
| Calculator.Calculator.constructor | calculadora_do_cidadao.py:42-48 | the object holds the SSL flag and the four base fields with `selIndice` the default index |
| Calculator.BaseFormFields | calculadora_do_cidadao.py:43-48 | the base form has four distinct fields and none of the per-request fields |
| Calculator.Calculator.RequestData | calculadora_do_cidadao.py:87-98 | the payload maps `dataInicial` and `dataFinal` to the encoded dates and `valorCorrecao` to the encoded amount, keeps every other field of the form, has distinct fields, and on a form without those fields is the form followed by the three in order; the object is not modified |
| Calculator.SetField | calculadora_do_cidadao.py:91-97 | one `dados[k] = v`: `k` maps to `v`, other keys keep their values, keys stay distinct, a new key is appended, the key set gains exactly `k` |
| FormEncoding.FormatMonthYear | calculadora_do_cidadao.py:53 | the `f"{month:0>2d}/{year}"` text; MonthYearShape, MonthYearParts and MonthYearRoundTrip state its shape and that it reads back |
| FormEncoding.PrepareDate | calculadora_do_cidadao.py:50-53 | `preparar_data`, with today passed in; PrepareDateDefault and PrepareDateIgnoresDay state its promises |
| FormEncoding.FormatAmount | calculadora_do_cidadao.py:95 | `f"{valor:.2f}".replace(".", ",")` on whole cents; AmountReduced and AmountRoundTrip state its shape and that it reads back |
| Strings.ToDecimal | calculadora_do_cidadao.py:53 | `str(n)`: a non-empty digit string denoting `n`, without a leading zero unless it is `"0"` |
| Strings.PadLeft | calculadora_do_cidadao.py:53 | `0>2d` padding: the result is at least `width` long, ends with the input and is fill characters before it |
| FormEncoding.MonthField | calculadora_do_cidadao.py:53 | the month field is exactly two digits denoting the month |
| FormEncoding.MonthYearShape | calculadora_do_cidadao.py:53 | the encoded date is two digits for the month, `/`, then the year in digits with no leading zero |
| FormEncoding.PrepareDateIgnoresDay | calculadora_do_cidadao.py:51-53 | two dates in the same month and year encode identically |
| FormEncoding.PrepareDateDefault | calculadora_do_cidadao.py:52 | a missing date encodes as today's date |
| FormEncoding.MonthYearParts | calculadora_do_cidadao.py:53 | the encoded date is left unchanged by reduction, holds exactly one `/` and no `%` or `,`, and splits at the `/` into the month field and the year digits |
| FormEncoding.MonthYearRoundTrip | calculadora_do_cidadao.py:53 | cleaning an encoded date with `limpar_valor` gives back the first day of its month |
| FormEncoding.AmountReduced | calculadora_do_cidadao.py:95 | the encoded amount starts with `-` exactly when it is negative; the rest, which reduction keeps, is a non-empty digit string, `,` and two digits, together spelling the absolute amount in cents |
| FormEncoding.AmountRoundTrip | calculadora_do_cidadao.py:95 | cleaning an encoded amount gives back its absolute value in cents with two decimal places |
| KeyCleaning.IsSpace | calculadora_do_cidadao.py:57-58 | the characters `\s` and `str.strip()` treat as whitespace, those of `str.isspace` |
| KeyCleaning.CollapseSpaces | calculadora_do_cidadao.py:57 | `re.sub(r"\s+", " ", s)`; CollapseSpacesCollapsed, NonSpaceCollapse and CollapsedFixed state its promises |
| KeyCleaning.CleanKey | calculadora_do_cidadao.py:55-58 | `limpar_chave`: collapse, then strip; CleanKeyNormalized, CleanKeyKeepsText, CleanKeyFixedIff and CleanKeyIdempotent state its promises |
| KeyCleaning.TrimStart | calculadora_do_cidadao.py:58 | `lstrip`: the result is a suffix that does not start with whitespace, and everything removed is whitespace |
| KeyCleaning.TrimEnd | calculadora_do_cidadao.py:58 | `rstrip`: the result is a prefix that does not end with whitespace, and everything removed is whitespace |
| KeyCleaning.CollapseSpacesCollapsed | calculadora_do_cidadao.py:57 | after `sub(r"\s+", " ")` every whitespace character is a plain space, no two are adjacent, the text is empty only if the input was, and it starts with whitespace iff the input did |
| KeyCleaning.NonSpaceCollapse | calculadora_do_cidadao.py:57 | collapsing keeps every non-whitespace character in order |
| KeyCleaning.CollapsedFixed | calculadora_do_cidadao.py:57 | collapsing leaves already collapsed text unchanged |
| KeyCleaning.CleanKeyNormalized | calculadora_do_cidadao.py:56-58 | a cleaned label has single plain spaces between words and no whitespace at either end |
| KeyCleaning.CleanKeyFixedIff | calculadora_do_cidadao.py:56-58 | `limpar_chave` leaves a text unchanged iff the text is already normalized |
| KeyCleaning.CleanKeyIdempotent | calculadora_do_cidadao.py:56-58 | cleaning a label twice equals cleaning it once |
| KeyCleaning.CleanKeyKeepsText | calculadora_do_cidadao.py:56-58 | cleaning keeps every non-whitespace character in order |
| KeyCleaning.CleanKeyTwoWords | calculadora_do_cidadao.py:56-58 | two words with any whitespace before, between and after clean to the words joined by one space |
| ValueCleaning.CleanValue | calculadora_do_cidadao.py:60-75 | `limpar_valor`: reduce, then classify; CleanValueAbsent, CleanValueNumber, CleanValueDate, CleanValueDateErrors and CleanValueText cover every branch |
| ValueCleaning.Classify | calculadora_do_cidadao.py:64-75 | the branches of `limpar_valor` on the reduced text, in the source order `%`, `,`, `/`, text; CommaBranch and SlashBranch state the middle two |
| ValueCleaning.ParseFloat | calculadora_do_cidadao.py:69 | `float()` on digits, periods and slashes: at most one period, only digits around it, at least one digit; CommaBranch states when it succeeds and its value |
| ValueCleaning.Truthy | calculadora_do_cidadao.py:85 | the `if valor` test: `None`, `""` and a zero number are false, every other text, number and date is true |
| ValueCleaning.Reduce | calculadora_do_cidadao.py:62 | the reduced text is no longer than the input and holds only digits, `,`, `/` and `%` |
| ValueCleaning.ReduceAppend | calculadora_do_cidadao.py:62 | reducing a concatenation concatenates the reductions, so the kept characters stay in input order |
| ValueCleaning.ReduceChar | calculadora_do_cidadao.py:62 | a single character survives reduction iff it is a digit, `,`, `/` or `%` |
| ValueCleaning.ReduceMembers | calculadora_do_cidadao.py:62 | a character occurs in the reduced text iff it is a kept character occurring in the input |
| ValueCleaning.ReduceCount | calculadora_do_cidadao.py:62 | each kept character occurs as often after reduction as before |
| ValueCleaning.CleanValueAbsent | calculadora_do_cidadao.py:64-65 | `limpar_valor` gives `None` iff the text holds `%` |
| ValueCleaning.CommaBranch | calculadora_do_cidadao.py:67-69 | after replacing commas by periods, `float()` accepts the reduced text iff it has one comma, no slash and a digit, and reads the digits around the comma as a decimal |
| ValueCleaning.CleanValueNumber | calculadora_do_cidadao.py:67-69 | without `%`, text with a comma is a number iff it has exactly one comma, no slash and some digit; the number is the digits around the comma with as many decimals as digits after it |
| ValueCleaning.CleanValueOfDecimal | calculadora_do_cidadao.py:67-69 | text reducing to digits, a comma and digits cleans to exactly that decimal |
| ValueCleaning.ParseInt | calculadora_do_cidadao.py:73 | `int()` on a digit string fails iff it is empty and otherwise gives the number it denotes |
| Dates.MakeDate | calculadora_do_cidadao.py:73 | `date(y, m, d)` succeeds iff the date is valid in the proleptic Gregorian calendar within years 1..9999; an argument outside the C `int` range fails with `ArgumentOverflow` (year, then month, then day) before any range check; then the year, the month and the day are checked in that order, each failing with its own error |
| ValueCleaning.CleanValueDate | calculadora_do_cidadao.py:71-73 | without `%` or `,`: more than one `/` fails to unpack; with one `/` the result is the first of the month iff both sides are non-empty and in range, and with the year in range a month outside 1..12 that fits a C `int` fails with that month |
| ValueCleaning.CleanValueDateErrors | calculadora_do_cidadao.py:72-73 | with one `/` and both sides present: a year too large for a C `int` overflows, then a month too large does; otherwise a year outside 1..9999 fails with that year |
| ValueCleaning.SlashBranch | calculadora_do_cidadao.py:71-73 | on reduced text without `%` or `,` but with `/`: more than one `/` fails to unpack into two names; with one `/` both sides are digit strings, the result is a date iff both are non-empty with the year in 1..9999 and the month in 1..12, that date is the first of the month, and an out-of-range month that fits a C `int` fails with that month |
| ValueCleaning.SlashErrors | calculadora_do_cidadao.py:72-73 | on the same reduced text with both sides present: a year too large for a C `int` overflows, then a month too large does; otherwise a year outside 1..9999 fails with that year |
| ValueCleaning.CommaReplaced | calculadora_do_cidadao.py:68-69 | after the commas of reduced text without `%` become periods, only digits, periods and slashes remain, which is what `float()` is then given |
| ValueCleaning.CleanValueText | calculadora_do_cidadao.py:75 | text without `%`, `,` or `/` cleans to its digits in order, possibly none |
| Strings.Split | calculadora_do_cidadao.py:72 | `str.split(sep)` gives one more part than there are separators |
| Strings.SplitJoin | calculadora_do_cidadao.py:72 | no part of `str.split(sep)` holds the separator, and joining the parts with it gives the input back |
| Strings.SplitTwo | calculadora_do_cidadao.py:72 | a text split into two parts is the first part, the separator and the second part, neither part holding the separator |
| Strings.ReplaceChar | calculadora_do_cidadao.py:68 | `str.replace` of one character: same length, each target replaced, every other character kept |
| ResponseParser.Pairs | calculadora_do_cidadao.py:83 | `zip(textos[::2], textos[1::2])`; PairsAt, Evens, Odds and Zip state its length and elements |
| ResponseParser.CleanPair | calculadora_do_cidadao.py:82 | one step of the comprehension: the cleaned label with the cleaned value, or the error of `limpar_valor`; CleanPairResult states it |
| ResponseParser.Traverse | calculadora_do_cidadao.py:82-84 | evaluating a comprehension whose body may raise, in order; TraverseSuccess and TraverseFailure state its outcomes |
| ResponseParser.Parse | calculadora_do_cidadao.py:80-85 | `parser` from the tuple of cell texts: pair, clean, build the dict, drop falsy values; ParseSucceeds, ParseFails, ParseEntries and ParseOrder state its result |
| ResponseParser.Evens | calculadora_do_cidadao.py:83 | `s[::2]` has `(n + 1) / 2` elements, element `i` being `s[2i]` |
| ResponseParser.Odds | calculadora_do_cidadao.py:83 | `s[1::2]` has `n / 2` elements, element `i` being `s[2i + 1]` |
| ResponseParser.Zip | calculadora_do_cidadao.py:83 | `zip` is as long as the shorter input and pairs elements by position |
| ResponseParser.TraverseSuccess | calculadora_do_cidadao.py:82-84 | the comprehension completes iff every value cleans, and then holds one entry per pair in order |
| ResponseParser.TraverseFailure | calculadora_do_cidadao.py:82-84 | a comprehension that raises stops at the first failing entry with its error |
| ResponseParser.PairsSuccess | calculadora_do_cidadao.py:82-84 | a comprehension over the paired cells completes iff it completes on the label and value cells of every pair |
| ResponseParser.PairsFailure | calculadora_do_cidadao.py:82-84 | when it raises, it raises the error of some pair, all pairs before which succeeded |
| ResponseParser.ParseSucceeds | calculadora_do_cidadao.py:80-85 | parsing succeeds iff every value cell cleans |
| ResponseParser.ParseFails | calculadora_do_cidadao.py:82-84 | a failed parse reports the error of the first value cell that does not clean |
| ResponseParser.ParseEntries | calculadora_do_cidadao.py:80-85 | `k` maps to `v` iff `v` is truthy and is the cleaned value of the last pair whose cleaned label is `k` |
| ResponseParser.LastEntryAt | calculadora_do_cidadao.py:82-84 | entry `i` of the comprehension is the last one for label `k` with value `v` iff pair `i` is the last pair whose cleaned label is `k` and its value cell cleans to `v` |
| ResponseParser.ParseOrder | calculadora_do_cidadao.py:82-85 | the labels are distinct and stand in the order of their first appearance in the table, so a later duplicate overwrites in place |
| ResponseParser.ParseLabelsNormalized | calculadora_do_cidadao.py:83 | every label of the result is in `limpar_chave`'s normal form |
| ResponseParser.ParseIgnoresUnpairedCell | calculadora_do_cidadao.py:83 | a trailing cell without a partner does not change the result |
| OrderedMaps.Get | calculadora_do_cidadao.py:82-85 | dict lookup by key; GetEntry relates it to the entries |
| OrderedMaps.Assign | calculadora_do_cidadao.py:82-84 | `d[k] = v` on an insertion-ordered dict; AssignGet, AssignKeys, AssignAppends, AssignInPlace and AssignDistinct state its promises |
| OrderedMaps.Filter | calculadora_do_cidadao.py:85 | the filtering dict comprehension; FilterEntries and FilterSorted state its promises |
| OrderedMaps.GetEntry | calculadora_do_cidadao.py:82-85 | in a dict, a lookup finds `v` for `k` iff `(k, v)` is an entry |
| OrderedMaps.AssignGet | calculadora_do_cidadao.py:82-84 | after `d[k] = v`, `k` maps to `v` and every other key to its old value |
| OrderedMaps.AssignKeys | calculadora_do_cidadao.py:82-84 | `d[k] = v` appends a new key and keeps the key order when `k` is present |
| OrderedMaps.AssignAppends | calculadora_do_cidadao.py:82-84 | `d[k] = v` on a dict without `k` appends the entry `(k, v)` at the end |
| OrderedMaps.AssignInPlace | calculadora_do_cidadao.py:82-84 | `d[k] = v` on a dict holding `k` keeps the length and the key at every position |
| OrderedMaps.AssignDistinct | calculadora_do_cidadao.py:82-84 | assignment keeps the keys distinct |
| OrderedMaps.FromSeq | calculadora_do_cidadao.py:82-84 | a dict built from entries has distinct keys |
| OrderedMaps.FromSeqGet | calculadora_do_cidadao.py:82-84 | a dict built from entries maps each key to the last value given for it |
| OrderedMaps.LastValueSpec | calculadora_do_cidadao.py:82-84 | the last value for `k` is `v` iff some entry `(k, v)` has no later entry for `k` |
| OrderedMaps.FromSeqKeys | calculadora_do_cidadao.py:82-84 | a dict built from entries holds exactly the keys the entries give |
| OrderedMaps.FromSeqOrder | calculadora_do_cidadao.py:82-84 | its keys stand in the order of their first occurrence among the entries |
| OrderedMaps.FilterFromSeq | calculadora_do_cidadao.py:82-85 | `(k, v)` survives building the dict and filtering it iff `v` passes the filter and `(k, v)` is the last entry given for `k` |
| OrderedMaps.FilterEntries | calculadora_do_cidadao.py:85 | the filtering comprehension keeps exactly the entries whose value passes |
| OrderedMaps.FilterSorted | calculadora_do_cidadao.py:85 | filtering keeps the order and the distinctness of the kept keys |

## Left out

- HTTP transport (`calculadora_do_cidadao.py:101-126`): the subclasses `CalculadoraDoCidadão` and `CalculadoraDoCidadãoAsyncio` only post the payload with `requests` or aiohttp and pass the response text to `parser`. This is network I/O.
- HTML parsing (`calculadora_do_cidadao.py:78-80`): BeautifulSoup's selection of the `td.fundoPadraoAClaro3` cells is a foreign library. `ResponseParser.Parse` starts from the sequence of their texts.
- `date.today()`: a clock read, passed in as the parameter `today` of `FormEncoding.PrepareDate`.
- FormEncoding.FormatAmount: takes the amount as whole cents. Rounding a binary `float` to two decimals under `.2f` is not modelled, nor is the `-0,00` that a tiny negative float gives.
- ValueCleaning.CleanValue: a number is the exact decimal the text spells. The binary rounding of `float()` is not modelled, nor its overflow to infinity on very long digit strings.
- KeyCleaning.IsSpace: `\s` is Python's `str.isspace` set, fixed in the model. `\d` is ASCII `0-9` only, so the other Unicode decimal digits that Python's `\d` and `int()` accept are not modelled.
- The exact wording of the exceptions raised by `float()`, `int()`, tuple unpacking and `date()`: only their kind and the offending value are kept.
- ValueCleaning.ParseInt: does not model the limit of 4300 digits that `int()` puts on a decimal string, leading zeros included, since Python 3.7.14, 3.8.14 and 3.11; whether it applies depends on the Python release, and the model accepts digit strings of any length.
- `URL_DO_FORMULÁRIO` and the index labels are data for the HTTP layer. The labels are in `Registry.Indices`; the URL is not used by the modelled code.
- The package's `setup.py`: packaging metadata only.
