# Product-option scraper: pricing and ranking core

This project is a Dafny model of the deterministic core of a command-line scraper.
The scraper reads product "packages" from a web page and writes them out
ranked by yearly cost. The model covers four parts:

- **`findPrice`** (module `Utils`): the first `\d+\.\d+` in a text, read as a number.
  The regex engine's left-to-right scan is written out as functions:
  - `DigitRunEnd` is one greedy `\d+`;
  - `MatchAt` is one attempt at a start index;
  - `SearchFrom` tries every start index in order.
  It is proved against a declarative description. `IsMatchAt` says which
  slices are occurrences, and `IsFirstMatch` picks the one that
  `String.prototype.match` lists first. `parseFloat` of the match is the exact
  decimal `DecimalValue`.
- **`findFrequency`** (module `Utils`): `/year|annu/i` as a scan (`EitherFrom`) for
  either keyword with ASCII case folding. It is proved to answer yearly exactly
  when the lower-cased text contains `year` or `annu`.
- **`getTargetFrequencyPrice`** (module `Utils`): the conversion between monthly
  and yearly prices. It is proved to keep the price per month.
- **Record building and ranking in `run`** (module `Scraper`):
  - `BuildRecord` builds one record: it turns what the sub-selectors found in a
    product node into a `ProductOption`.
  - `BuildRecords` is the `for` loop that pushes the records.
  - `SortByAnnualPrice` is the in-place `.sort` by descending annual price, an
    insertion sort on an `array`.
  - `Run` is the two steps together.

  The sort is specified by a reference stable sort, `Rank`. Every ranked
  arrangement that keeps each annual price's records in input order equals
  `Rank`. So the in-place sort gives the same array as any stable sort
  (`Array.prototype.sort` is stable), whatever its algorithm.

`utils_tests.dfy` and `scraper_tests.dfy` state the cases of `utils.test.ts`
and a worked ranking as lemmas about the model.

## Model

| member | source | states |
|---|---|---|
| Utils.Frequency | utils.ts:1 | The two frequencies a price can have, yearly `Y` and monthly `M`, and no other |
| Utils.DigitRunEnd | utils.ts:11 | Greedy `\d+`: the end it returns lies between the start and the end of the text, every character up to it is a digit, and it stops at a non-digit or the end of the text |
| Utils.MatchFollowsRuns | utils.ts:11 | Every occurrence starting at `i` has its dot exactly where the greedy digit run from `i` ends, and ends no later than the greedy fraction run |
| Utils.RunEndUnique | utils.ts:11 | A digit run that ends at a non-digit or at the end of the text is the greedy run |
| Utils.RunEndCovers | utils.ts:11 | The greedy run from `k` reaches at least as far as any run of digits from `k` |
| Utils.MatchAt | utils.ts:11 | One attempt of the regex at index `i` succeeds exactly when some occurrence starts at `i`; on success it returns an occurrence whose fraction cannot be extended |
| Utils.NoMatchAt | utils.ts:11 | When the greedy whole part from `i` is not followed by a dot and a digit, no occurrence starts at `i` |
| Utils.SearchFrom | utils.ts:11-14 | The scan from `i` returns an occurrence at or after `i` with no occurrence starting between `i` and it, and with a maximal fraction; it returns nothing exactly when no occurrence starts at or after `i` |
| Utils.NatValueBound | utils.ts:22 | A string of `k` digits denotes a number below 10^k |
| Utils.DecimalValue | utils.ts:22 | `parseFloat` of `whole.frac`: the whole part is the integer part of the value |
| Utils.FindPrice | utils.ts:8-23 | `null` (None) exactly when the text holds no digits-dot-digits substring; otherwise a value that is never negative |
| Utils.SearchFindsFirstMatch | utils.ts:11-14 | The scan from the start of the text returns exactly the first occurrence |
| Utils.FindPriceFirstMatch | utils.ts:14-22 | When `s[i..j]` is the first occurrence (leftmost start, greedy fraction), the result is the exact decimal value of that slice |
| Utils.FirstMatch | utils.ts:14-17 | Whenever the text holds an occurrence, it has a first one |
| Utils.FirstMatchStartsRun | utils.ts:11 | The number read starts at the start of the text or right after a non-digit: it is maximal on the left |
| Utils.ShiftMatch | utils.ts:11 | Behind a digit-free prefix, the occurrences are those of the rest of the text, shifted by the prefix's length |
| Utils.ShiftFirstMatch | utils.ts:11-14 | Behind a digit-free prefix, the first occurrence is the rest's first occurrence, shifted |
| Utils.FindPriceSameFirstMatch | utils.ts:14-22 | Two texts whose first occurrences have equal digits read as the same price |
| Utils.FindPriceIgnoresNonDigitPrefix | utils.ts:11-22 | Text without digits before the number, such as a multi-character currency sign, never changes the result |
| Utils.TruncateMatch | utils.ts:11 | An occurrence in `t + u` whose dot and first fraction digit lie in `t` yields a (shorter) occurrence at the same start inside `t` |
| Utils.ExtendFirstMatch | utils.ts:11-14 | A first occurrence of `t` that a non-digit of `t` ends stays the first occurrence of `t + u`, whatever `u` is |
| Utils.FindPriceIgnoresSuffix | utils.ts:14-22 | Once a non-digit ends a text that holds a price, whatever follows is ignored: later prices never change the result |
| Utils.FindPriceNoDigits | utils.ts:17-19 | A text without digits gives `null` |
| Utils.FindPriceLeadingNumber | utils.ts:11-22 | A text that starts with `w.f` followed by a non-digit or the end reads as that decimal |
| Utils.FindPriceNineNinetyNine | utils.ts:22 | `9.99` followed by a non-digit reads as 9.99 |
| Utils.FindPriceTenNinetyNine | utils.ts:22 | `10.99` followed by a non-digit reads as 10.99 |
| Utils.LowerChar | utils.ts:31 | The `i` flag's folding of one character: only the capitals `A` to `Z` change, each to its own small letter, and the result is never a capital |
| Utils.LowerIdempotent | utils.ts:31 | Folding a text twice is folding it once |
| Utils.EitherFrom | utils.ts:31-34 | The `test` of the keyword alternation as a scan: some index from `i` on starts `v` or `w`, compared letter by letter after folding (its meaning is stated by `EitherFromOccurs`) |
| Utils.KeywordAtLower | utils.ts:31 | A case-insensitive keyword attempt at `i` succeeds exactly when the lower-cased text holds the keyword at `i` |
| Utils.EitherFromOccurs | utils.ts:31-34 | The scan for the alternation of `v` and `w` from `i` succeeds exactly when the lower-cased text holds `v` or `w` at some index from `i` |
| Utils.EitherContains | utils.ts:31-34 | A keyword occurs at some index exactly when the text contains `v` or contains `w` |
| Utils.NoKeywordNeither | utils.ts:34-38 | With no keyword at any index from `i`, the scan fails |
| Utils.FindFrequency | utils.ts:30-40 | Yearly exactly when the ASCII-lower-cased text contains `year` or `annu`, monthly otherwise |
| Utils.FindFrequencyIgnoresCase | utils.ts:31 | Texts that differ only in ASCII letter case get the same frequency |
| Utils.FindFrequencyUpper | utils.ts:31 | Upper-casing a text never changes its frequency |
| Utils.FindFrequencyEmpty | utils.ts:34-38 | The empty text is monthly |
| Utils.GetTargetFrequencyPrice | utils.ts:49-56 | The converted price per month of the target frequency equals the given price per month of the given frequency (so the same frequency gives the price back, M to Y multiplies by 12 and Y to M divides by 12), and a price that is not negative stays so |
| Utils.GetTargetFrequencyPriceRoundTrip | utils.ts:50-53 | Converting to any frequency and back returns the price exactly |
| UtilsTests.PlainSentenceHasNoDigits | utils.test.ts:5 | The sentence of the first `findPrice` case has no digits |
| UtilsTests.FindPriceExampleNone | utils.test.ts:4-7 | "This is a sentence without any price." gives `null` |
| UtilsTests.DollarLeadHasNoDigits | utils.test.ts:10 | The text before `9.99` in the second case has no digits |
| UtilsTests.FindPriceExampleSentence | utils.test.ts:9-12 | Any digit-free text followed by `9.99.` gives 9.99 |
| UtilsTests.FindPriceExampleFirst | utils.test.ts:14-17 | Any digit-free text followed by `9.99,` and then anything at all (such as a second price) gives 9.99 |
| UtilsTests.EuroLeadHasNoDigits | utils.test.ts:20 | The text before `10.99`, with a three-character currency sign, has no digits |
| UtilsTests.FindPriceExampleCurrency | utils.test.ts:19-22 | Any digit-free text followed by `10.99.` gives 10.99 |
| UtilsTests.FindFrequencyExamplesYearly | utils.test.ts:26-36 | "annual report", "annually" and "Yearly" are yearly |
| UtilsTests.FindFrequencyExampleMonthly | utils.test.ts:38-42 | "monthly report" is monthly |
| UtilsTests.GetTargetFrequencyPriceCases | utils.test.ts:46-65 | The same frequency returns the price; M to Y multiplies by 12 and Y to M divides by 12; 100 becomes 1200 and 1200 becomes 100 |
| Scraper.ProductNode | index.ts:97-108 | A product node as the six sub-selectors see it: for each, the text of the first matching element or nothing |
| Scraper.ProductOption | index.ts:69-77 | The output shape: title, description, price, annual price, discount, the optional discount frequency and the frequency |
| Scraper.TextOf | index.ts:100-108 | The optional `.text` defaulted to `""`: the selected element's text, or the empty text when nothing is selected |
| Scraper.PriceOrZero | index.ts:102-107 | The result of `findPrice` defaulted to 0: the price found in the text, or 0 when the text holds none; never negative |
| Scraper.BuildRecord | index.ts:100-119 | Title and description are the selected text or `""`. Price and discount are `findPrice` of the selected text, or 0 when nothing is selected or no price is found. The frequency is `findFrequency` of the selected text, and monthly when nothing is selected. A discount frequency is present exactly when the discount is positive, and then it is `findFrequency` of its text. The annual price is the price converted to yearly and is at least the price |
| Scraper.BuildRecords | index.ts:96-120 | One record per product node, in node order, each the node's `BuildRecord`, and each satisfying `Valid` |
| Scraper.Insert | index.ts:125 | Inserting a record adds exactly that record to the sequence's elements |
| Scraper.InsertBelowHead | index.ts:125 | When insertion goes past the head, every record behind the head is priced no higher than it |
| Scraper.InsertRanked | index.ts:125 | Inserting into a sequence in descending annual price keeps it descending |
| Scraper.Rank | index.ts:125 | The ranking is in descending annual price and is a permutation of its input |
| Scraper.WithAnnualPriceMember | index.ts:125 | The records listed for an annual price are input records with that price |
| Scraper.WithAnnualPriceConcat | index.ts:125 | The records of one annual price in `s + t` are those in `s` followed by those in `t` |
| Scraper.WithAnnualPriceNone | index.ts:125 | A sequence with no record of price `v` lists none for `v` |
| Scraper.InsertStable | index.ts:125 | Inserting a record into a ranked sequence appends it to the records of its own annual price and leaves every other price's records unchanged |
| Scraper.InsertFirstStable | index.ts:125 | The same, in the case where the record goes in front |
| Scraper.RankStable | index.ts:125 | The sort is stable: for every annual price, the ranking lists that price's records in input order |
| Scraper.GroupOfHead | index.ts:125 | The first record of a sequence heads the records of its own annual price |
| Scraper.HeadIsMax | index.ts:125 | The first record of a ranked sequence has the highest annual price |
| Scraper.RankedGroupsDetermine | index.ts:125 | Two ranked sequences that list the same records for every annual price are equal |
| Scraper.RankUnique | index.ts:125 | Any arrangement in descending annual price that keeps each price's records in input order is exactly `Rank` of the input. So every stable sort with this comparator gives the same array |
| Scraper.RankPair | index.ts:125 | Of two records the more expensive per year comes first; on a tie they keep their order |
| Scraper.RankSnoc | index.ts:125 | Ranking one more element inserts it into the ranking so far |
| Scraper.InsertAt | index.ts:125 | Inserting `x` puts it after every record at least as expensive and before every cheaper one |
| Scraper.InsertPastHead | index.ts:125 | Insertion keeps a head priced at least as high as the inserted record |
| Scraper.FillGap | index.ts:125 | The state the inner loop leaves, with the record written into the gap, is the record inserted into the ranked prefix |
| Scraper.OpenGap | index.ts:125 | The inner loop shifts right exactly the records of the prefix that are cheaper per year than the record at `i`, leaves a gap at `j`, and changes nothing else |
| Scraper.InsertInto | index.ts:125 | One outer step: the first `i + 1` cells become the record at `i` inserted into the ranked prefix, and the rest of the array is unchanged |
| Scraper.SortByAnnualPrice | index.ts:125 | In place, the array becomes `Rank` of its old contents: a permutation in descending annual price with ties in input order |
| Scraper.Run | index.ts:96-125 | The result is `Rank` of the built records. It is a permutation of them in descending annual price, and each annual price's records stay in node order. Every record satisfies `Valid` |
| ScraperTests.YearlyPlanRecord | index.ts:102-119 | A node priced 99.00 yearly with a 79.00 yearly discount gives price and annual price 99.00, discount 79.00 and a yearly discount frequency |
| ScraperTests.MonthlyPlanRecord | index.ts:102-119 | A node priced 9.99 monthly with no discount element gives price 9.99, annual price 119.88, discount 0 and no discount frequency |
| ScraperTests.MonthlyPlanOutranksCheaperYearly | index.ts:102-125 | These two plans are ranked monthly first, yearly second, in both orders the page may list them in |
| ScraperTests.FindPriceWholeAmount | utils.ts:11-22 | Two digits, `.00` and a non-digit read as the whole number the two digits denote |
| ScraperTests.ExampleYearlyPrice | utils.ts:11-22 | `99.00` followed by a non-digit reads as 99 |
| ScraperTests.ExampleDiscountPrice | utils.ts:11-22 | `79.00` followed by a non-digit reads as 79 |
| ScraperTests.ExampleFrequencies | utils.ts:30-40 | "Yearly" is yearly and "per month" is monthly |
| ScraperTests.ExamplePageRanked | index.ts:96-125 | A concrete page meets the assumptions of the two plan lemmas: its yearly node ("99.00/", "Yearly", discount "79.00/", "Yearly") and its monthly node ("9.99/", "per month", no discount) are ranked monthly first in both orders |

Lemmas that only help the solver with sequences and arithmetic have no row:
`FractionBelowOne`, `ShiftSlice` and `PrefixSlice` in `Utils`; `MultisetSnoc`,
`ConcatAssoc`, `RankedTail`, `SpliceAfterHead` and `PlacedAt` in `Scraper`.

## Left out

- Fetching the page and reading the response body (index.ts:84-87) are network I/O.
- Parsing the HTML and evaluating CSS selectors with `node-html-parser` (index.ts:90-93 and every `querySelector`) are a foreign library.
  - The product nodes arrive as a sequence.
  - Each sub-selector's result arrives as an `Option<string>`: the text of the first matching element, or `None`.
- Command-line parsing with `commander` (index.ts:11, 53-64, 137) is library state. This includes the unused `outDir` option and the short flag `-ps` given to two options.
- Writing the JSON file, naming it with `Date.now()`, `JSON.stringify`, `path.resolve` and console logging (index.ts:127-133) are I/O and the clock.
  - The JSON shape is not modelled.
  - A missing discount frequency is `None` here, where JavaScript leaves the field `undefined` and the JSON omits it.
- The top-level `try`/`catch` (index.ts:80, 132-134) swallows every error, and none of the modelled steps can fail.
- IEEE-754 arithmetic is not modelled. Prices are exact `real`s: `parseFloat`, `* 12` and `/ 12` are exact. So the round trips hold exactly here, but only up to rounding in JavaScript.
  - Very long digit strings that JavaScript reads as `Infinity` are not modelled.
  - A `NaN` from the comparator `b - a` of two infinities is not modelled either.
- `findPrice(...) || 0` is modelled as "the price, or 0 when there is none". In JavaScript, `||` would also replace `NaN`, but `parseFloat` of a `\d+\.\d+` match is never `NaN`.
- The `i` flag of `/year|annu/i`, without the `u` flag, never folds a character from U+0080 up onto an ASCII letter. So for the all-ASCII keywords `year` and `annu`, folding ASCII letters only, as the model does, gives the same answers.
- The `default:` branch of `getTargetFrequencyPrice` (utils.ts:54) cannot be reached here, because `Frequency` has only `Y` and `M`. For the same reason, the test at utils.test.ts:67-73, which passes `"W"` past the type checker, has no counterpart.
- index.ts:100-101 uses `.text` untrimmed; the model does the same.
- The algorithm behind `Array.prototype.sort` is not modelled. The model sorts by insertion. `RankUnique` proves that every stable sort with this comparator gives the same array, so the result is the one JavaScript computes.
