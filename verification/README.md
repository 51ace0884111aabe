# FundTracker valuation core in Dafny

This project models the part of FundTracker that turns a fund code into an intraday estimate of the fund's net asset value (NAV). It has three pieces, and each is modelled as pure functions over strings, sequences, maps and exact reals:

- **Market-code normaliser** (`guessPrefix`). It turns a bare numeric code into one qualified code (`sh…`, `sz…`, `bj…`, `hk…`, `jj…`) or into the ordered pair `[sz…, jj…]`.
- **Quote client** (`fetchFundValuations`, `parseTencentData`, `fetchFundValuation`).
  - It builds the batched query: candidates flattened, de-duplicated keeping first occurrence, then joined with commas.
  - It parses the feed's `;`-separated `v_<code>="f0~f1~…"` records into a map from full code to quote.
  - Fund (`jj`) records and equity records are read differently. Malformed records are dropped.
- **Holdings resolver and estimation engine** (`valuationService.js`).
  - The resolver strips one `jj`/`sz`/`sh` prefix. It asks the JSON source first and the HTML table source only when the first fails.
  - Non-empty results are cached under the code as passed.
  - The engine returns the fund company's direct estimate (which may be `null`) when the holdings are unusable. Otherwise it renormalises the holdings' weighted change by the weight it could price, with a 5 % threshold.

Modelling conventions:

- NaN is `None` in an `Option<real>`. JavaScript's `x || 0` is `GetOr(0.0)`. A string's truthiness is "present and not empty".
- `parseFloat` is a decimal grammar (`Numbers.ParseFloat`): optional sign, digits with an optional fraction, an optional exponent, leading white space skipped.
- Regular expressions are modelled by what they match:
  - `Patterns.GreedyCapture` is a greedy `(.*)` that cannot cross a line terminator;
  - `FundService.MatchRecord` is `v_([a-zA-Z0-9]+)="(.*)"`;
  - `Valuation.CaptureJsonp` is `jsonpgz\((.*)\)`.
- Every upstream is a function from what it is asked to what it answers:
  - the primary JSON source, the HTML rows, the JSONP text and the quote feed text;
  - `JSON.parse` of the JSONP payload is a `decode` parameter;
  - the wall clock of equity records is a `clock` parameter.
- A rejected promise is `Rejected`, a `Failed` result or a `Failed?` reply.
- The holdings cache is a `map` threaded through `Holdings.FetchHoldings`, `Holdings.ResolveAll` and `Valuation.EstimateFund`.

Behaviours worth noting:

- With no usable holdings the engine returns the direct estimate as it is, `null` included. (valuationService.js:179-182, 212-214)
- The cache is keyed by the fund code exactly as the caller passed it, not by the stripped code (valuationService.js:20, 42).
- A holding of 90 % up 1 % on a previous NAV of 3.8 gives 3.838, because the change is divided by the known weight 0.9 (`Valuation.RenormalisedExample`).
- The engine can reject rather than always resolve:
  - when a `null` holding is reached (valuationService.js:177, 185);
  - when the quote batch request fails (valuationService.js:186, fundService.js:48-51).
- Rows dropped by the name/price filter still add to the weighted change but not to the known weight (`Valuation.FilteredRowsStillCount`).

Modules: `Wrappers` (Option, Result), `Text` (character classes, `trim`, `split`, `join`, `includes`, `replace`), `Seqs` (`map`, `flatMap`, first-occurrence de-duplication), `Numbers` (`parseFloat`), `Patterns` (regular-expression pieces), `StockUtils`, `FundService`, `Holdings`, `Valuation`.

## Model

| member | source | states |
|---|---|---|
| StockUtils.GuessPrefix | src/utils/stockUtils.js:7-35 | A code that is empty or not all digits comes back unchanged. There are two candidates exactly for six digits starting `00` or `16`, and they are `[sz+code, jj+code]` in that order. Every produced code is the input, or a two-letter market tag followed by the unchanged input. |
| StockUtils.SixDigitGuess | src/utils/stockUtils.js:11-29 | A six-digit code gives candidates exactly when it starts `00` or `16`. Otherwise it gives one 8-character code: a market tag followed by the input. |
| StockUtils.SixDigitRules | src/utils/stockUtils.js:11-29 | For every six-digit code the result is fixed by the first two digits. Dual heads {00,16} give `[sz, jj]`. Shanghai {50,51,60,68}, Shenzhen {30,15} and Beijing {83,87,43} heads give their tag. Any other head gives `jj`. |
| StockUtils.DualHeadRule | src/utils/stockUtils.js:14-23 | A six-digit code starting `00` or `16` yields `[sz+code, jj+code]`. |
| StockUtils.MarketHeadRule | src/utils/stockUtils.js:12-25 | A six-digit code with a Shanghai, Shenzhen or Beijing head yields that market's tag followed by the code. |
| StockUtils.OtherHeadRule | src/utils/stockUtils.js:28 | A six-digit code with no listed head yields `jj+code`. |
| StockUtils.OtherLengths | src/utils/stockUtils.js:31-34 | A five-digit code yields `hk+code`. An all-digit code of any other length other than six comes back unchanged. |
| StockUtils.GuessPrefixIdempotent | src/utils/stockUtils.js:8-34 | Normalising any produced code again returns it unchanged as a single code. |
| Text.TrimPadded | src/services/fundService.js:64 | Trimming white space placed around a text that starts and ends with other characters gives that text back. |
| Text.Trim | src/services/fundService.js:64 | The result is a slice of the input with only white space before and after it, and no white space at either of its own ends. It is empty exactly when the input is all white space. An input already free of white space at both ends comes back unchanged. |
| Text.Split | src/services/fundService.js:60 | There is always at least one piece, even for empty text. |
| Text.SplitCount | src/services/fundService.js:60 | A split has one more piece than the text has separators. |
| Text.Join | src/services/fundService.js:30 | The joined text holds the separator exactly when there are two or more parts or some part holds it. |
| Text.RemoveFirst | src/services/valuationService.js:132 | Text without the character comes back unchanged. Otherwise exactly its first occurrence is removed: the text before it is kept, the length drops by one and the multiset of characters loses one copy of it. |
| Text.SplitJoin | src/services/fundService.js:30 | Splitting a comma-joined list whose items hold no comma gives the list back. |
| Text.JoinSplit | src/services/fundService.js:60 | Joining the pieces of a split gives the text back. |
| Text.SplitAround | src/services/fundService.js:60 | Splitting `a;b` gives the pieces of `a` followed by the pieces of `b`. |
| Text.SplitPieces | src/services/fundService.js:77 | No piece of a split holds the separator. |
| Seqs.Flatten | src/services/fundService.js:25 | An element is in the flattening exactly when it is in one of the pieces. |
| Seqs.FlattenConcat | src/services/fundService.js:25 | Flattening two runs of pieces is flattening each, one after the other, so the pieces keep their order. |
| Seqs.FlattenOne | src/services/fundService.js:25 | Flattening a single piece gives that piece. |
| Seqs.FlattenSingletons | src/services/fundService.js:25 | Flattening one-element pieces gives the elements back. |
| Seqs.Dedup | src/services/fundService.js:28 | The result has no repeats and holds exactly the input's elements. |
| Seqs.DedupKeepsFirstOccurrenceOrder | src/services/fundService.js:28 | The de-duplicated elements appear in the order of their first occurrence in the input. |
| Seqs.DedupOfDistinct | src/services/fundService.js:28 | A list without repeats is its own de-duplication, so de-duplication is idempotent. |
| Seqs.MapConcat | src/services/valuationService.js:113-137 | Mapping two runs one after the other is mapping each. |
| Numbers.ParseFloat | src/services/valuationService.js:154 | A number is read only if the text holds a decimal digit. After leading white space, a number is read exactly when the text starts with an optional sign and then a digit, or a point and a digit; otherwise the result is NaN. |
| Numbers.ParseSignedDecimal | src/services/valuationService.js:256-257 | An optionally signed `a.b` followed by text that cannot continue the literal reads as its value, negated for `-`; the rest of the text is ignored. |
| Numbers.ParseScientific | src/services/valuationService.js:154 | An optionally signed `a.b` with an exponent part (`e` or `E`, an optional sign, digits), followed by text that does not go on with a digit, reads as the mantissa times ten to the signed exponent. |
| Numbers.NegativeRateExample | src/services/valuationService.js:257 | A falling fund's `gszzl` of "-0.13" reads as -0.13. |
| Numbers.ParseSignedWhole | src/services/valuationService.js:154 | An optionally signed run of digits with no point, followed by text that does not go on with a digit, a point or an exponent letter, reads as the run's value, negated for `-`; the rest of the text is ignored. |
| Numbers.PercentExample | src/services/valuationService.js:154 | "5%" reads as 5: reading stops at the first character that cannot continue the literal. |
| Numbers.NegativeWholeExample | src/services/valuationService.js:154 | "-1" reads as -1. |
| Numbers.NoLiteral | src/services/valuationService.js:154 | Text that starts with neither white space nor a number's start (an optional sign, then a digit or a point and a digit) reads as NaN. |
| Numbers.NotANumberExamples | src/services/valuationService.js:154 | "abc5", "--1" and "%5" read as NaN, although each holds a digit. |
| Numbers.ParseDecimal | src/services/valuationService.js:154 | The text `a.b` over digits reads as the value of `a` plus `b` over 10 to the length of `b`. |
| Numbers.ParseDigits | src/services/valuationService.js:154 | A whole number in decimal digits reads as its value. |
| Numbers.ParseSkipsLeadingSpace | src/services/valuationService.js:154 | Leading white space does not change what is read. |
| Patterns.AlnumRun | src/services/fundService.js:72 | The run of `[a-zA-Z0-9]` from the index is all alphanumeric and stops at a non-alphanumeric or at the end. |
| Patterns.GreedyCapture | src/services/fundService.js:72 | The capture ends at a closing character with no line terminator before it. Every closing character reachable without crossing a line terminator is at or before the end. |
| Patterns.GreedyToEnd | src/services/fundService.js:72 | A line that ends with the closing character is captured up to that last character. |
| FundService.QueryCodes | src/services/fundService.js:25-28 | The queried codes have no repeats. They hold every candidate of every input code, and only those, in the order of their first occurrence in the flattened candidate lists. |
| FundService.QueryOfTwo | src/services/fundService.js:25-28 | An ambiguous code followed by a Shanghai code asks for the first code's `sz` and `jj` candidates, then the second's `sh` code. |
| FundService.BuildQuery | src/services/fundService.js:20-30 | There is no query exactly when the list is empty. When no input holds a comma, splitting the query on commas gives the queried codes back. |
| FundService.QueryOfQualified | src/services/fundService.js:25-30 | A single qualified code is asked for as it is. |
| FundService.MatchAt | src/services/fundService.js:72 | A match at an index is the text `v_<code>="<data>"` occurring there, with a non-empty alphanumeric code and data on one line. The data is greedy: no later `"` on the same line could end it. |
| FundService.MatchRecord | src/services/fundService.js:72 | A match is a record pattern occurring somewhere in the line. |
| FundService.MatchFrom | src/services/fundService.js:72 | The search from an index returns the match at the first index where matching succeeds, and nothing exactly when matching fails at every index. |
| FundService.MatchRecordLeftmost | src/services/fundService.js:72-73 | The match is a record pattern occurring at an index before which the pattern occurs nowhere. No match means the pattern occurs nowhere in the line. |
| FundService.MatchAtComplete | src/services/fundService.js:72-73 | Wherever the record pattern occurs, matching at that index succeeds with that code. |
| FundService.MatchFromComplete | src/services/fundService.js:72-73 | The leftmost search finds a match whenever the pattern occurs at or after its start. |
| FundService.MatchRecordExact | src/services/fundService.js:72-76 | A line that is exactly one record yields its code and data. |
| FundService.RecordFields | src/services/fundService.js:63-77 | A blank segment or one holding `v_pv_none_match` yields nothing. A segment that yields fields holds the record pattern. Its code is the code of the leftmost match in the trimmed segment, and its fields are that match's data split on `~`. |
| FundService.RecordFieldsComplete | src/services/fundService.js:63-77 | Every segment that holds the record pattern and not the marker yields fields. |
| FundService.FundQuote | src/services/fundService.js:82-102 | A fund record's previous close is the parsed field 5. Its price is that value or 0, and its growth is 0. Its update time is field 8 when non-empty, else `EOD`. |
| FundService.EquityQuote | src/services/fundService.js:103-119 | An equity record takes name, code, price and previous close from fields 1 to 4. Its growth is the percentage change when the previous close is positive (NaN when the price is not a number), and 0 otherwise. |
| FundService.ChangePercent | src/services/fundService.js:116 | The change times the previous close is 100 times the price difference. |
| FundService.ParseRecord | src/services/fundService.js:63-133 | A segment yields an entry exactly when it has record fields and is a `jj` record or has at least 5 fields. The entry is keyed by the full code, with `code == key` and a consistent growth rate. |
| FundService.EquityRecordRoundTrip | src/services/fundService.js:63-119 | Rendering an equity code and at least five fields as a record, with any white space before and after it (the line break that starts every later segment of a reply), then parsing it, gives back that code and the quote of those fields. |
| FundService.FundRecordRoundTrip | src/services/fundService.js:63-102 | Rendering a `jj` code and its fields as a record, with any white space before and after it, then parsing it, gives back that code and the quote of those fields. |
| FundService.RecordLineFields | src/services/fundService.js:64-77 | A rendered record with any white space around it yields back its code and fields. |
| FundService.ReplyOfTwo | src/services/fundService.js:60-77 | A reply in the feed's layout, `first;` then a line break, `second;` then a line break, holds exactly the entries of its two segments when their codes differ. |
| FundService.ParseThenBlank | src/services/fundService.js:60-66 | The line break after a reply's last `;` adds no entry. |
| FundService.BlankReply | src/services/fundService.js:60-66 | A reply of white space only has no entry. |
| FundService.Collect | src/services/fundService.js:122-133 | Every stored key comes from some entry. A key whose entry is the last one under that key maps to that entry's quote, so later records overwrite earlier ones. |
| FundService.ParseTencentData | src/services/fundService.js:59-137 | Every stored quote sits under its own full code, a non-empty alphanumeric one, and has a consistent growth rate. |
| FundService.ParseConcat | src/services/fundService.js:59-137 | Parsing two responses joined by `;` is parsing each, with the second's entries overriding. |
| FundService.CollectConcat | src/services/fundService.js:122 | Storing two runs of entries is the map union of storing each, the later run winning. |
| FundService.ParseSingle | src/services/fundService.js:60-133 | A response with no `;` gives the empty map or the one entry of its record. |
| FundService.OneValidOneMalformed | src/services/fundService.js:63-73 | A good record followed by a malformed one gives exactly one key. |
| FundService.FetchFundValuations | src/services/fundService.js:19-52 | An empty list gives an empty map whatever the source answers. The call fails exactly when the request for the query fails. Otherwise the result is the parse of the reply, keyed by full code. |
| FundService.FetchFundValuation | src/services/fundService.js:140-143 | The result is the quote the batch stores under exactly the given code, or nothing when it stores none. It fails exactly when the request fails. |
| FundService.FetchEquityRecord | src/services/fundService.js:140-143 | A qualified equity code whose record comes back yields the quote of that record's fields. |
| FundService.FetchUnknown | src/services/fundService.js:68 | A reply holding only the no-match marker yields no quote. |
| Holdings.Or | src/services/valuationService.js:68-69 | `a \|\| b` is truthy exactly when one side is. It is `a` when `a` is truthy and `b` otherwise. |
| Holdings.FirstTruthy | src/services/valuationService.js:68-69 | A chain of `\|\|` gives the first truthy value, or the last value when none is truthy. It is truthy exactly when some value is. |
| Holdings.StripPrefix | src/services/valuationService.js:24 | The result is either the input, or the input without its first two characters when they are `jj`, `sz` or `sh`. It changes exactly when the input starts with one of those. |
| Holdings.StripQualified | src/services/valuationService.js:24 | Stripping undoes `sh`/`sz`/`jj` qualification and leaves `hk`/`bj` codes unchanged. |
| Holdings.StripBare | src/services/valuationService.js:24 | A bare numeric code has nothing to strip. |
| Holdings.StripOnce | src/services/valuationService.js:24 | Only one prefix is removed: `shsz…` becomes `sz…`. |
| Holdings.FirstStockCandidate | src/services/valuationService.js:148-150 | The result is the first candidate starting `sz` or `sh`. There is none exactly when no candidate starts that way. |
| Holdings.MakeHolding | src/services/valuationService.js:146-159 | A single guess gives its code, and an ambiguous one the `sz` candidate. The weight times 100 is the parsed percentage, or 0 when it is NaN. |
| Holdings.ParseHoldingItem | src/services/valuationService.js:142-160 | The result is `null` exactly when the code is missing or empty; otherwise it is the holding of that code and weight. |
| Holdings.HoldingCodeNormal | src/services/valuationService.js:146-152 | A holding's code is already normalised: guessing its prefix again leaves it unchanged. |
| Holdings.FundItem | src/services/valuationService.js:66-75 | The code is the first truthy of `GPDM`, `BZDM`, `CODE`, `DM` and the weight the first truthy of `JZBL`, `ZJZBL`, `WEIGHT`, each falling back to its last field. The item is `null` exactly when none of the code fields is truthy. |
| Holdings.StockItem | src/services/valuationService.js:86-90 | A stock-holding item is `null` exactly when `GPDM` is not truthy. Otherwise it is the holding of `GPDM` weighted by `JZBL`. |
| Holdings.FetchHoldingsPrimary | src/services/valuationService.js:47-91 | An unavailable reply fails. A non-empty `FundHolding` list is used exclusively, else the `Holding` list. With neither, a missing `Data` fails and a present one gives `[]`. |
| Holdings.PercentCell | src/services/valuationService.js:122-129 | There is no weight text exactly when no trimmed cell holds `%`. Otherwise it is the first trimmed cell that does. |
| Holdings.RowHolding | src/services/valuationService.js:113-136 | A row yields a holding exactly when it has at least 3 cells, a non-empty trimmed cell 1, a `%` cell whose text, with its first `%` removed, reads as a number. The holding is made of the trimmed cell 1 and that number. |
| Holdings.Emitted | src/services/valuationService.js:111-134 | Only present entries are kept, each from the input. When all are present, all are kept. |
| Holdings.RowHoldings | src/services/valuationService.js:110-139 | Every emitted holding is the reading of some row, and there are no more than there are rows. |
| Holdings.RowHoldingsConcat | src/services/valuationService.js:113-137 | Reading two runs of rows is reading each, in order. |
| Holdings.RowHoldingsOfOne | src/services/valuationService.js:113-137 | A single row yields its holding or nothing. |
| Holdings.FetchHoldingsFallback | src/services/valuationService.js:93-140 | The HTML source fails exactly when it is unavailable; otherwise the result is the holdings of its rows. |
| Holdings.FetchHoldings | src/services/valuationService.js:18-45 | A cache hit returns the stored list and asks no source. A miss asks the primary source for the stripped code, and asks the fallback exactly when the primary fails. When both fail the result is `[]` and the cache is unchanged. A non-empty result is stored under the code as passed. |
| Holdings.Store | src/services/valuationService.js:41-43 | Only a non-empty list is stored. Every other key keeps its value. |
| Holdings.SecondLookupHits | src/services/valuationService.js:20-43 | Resolving the same code again after a non-empty result is a cache hit with the same holdings. |
| Holdings.FetchHoldingsCache | src/services/valuationService.js:18-45 | One resolution keeps the cache free of empty lists and changes no other key. |
| Holdings.ResolveAll | src/services/valuationService.js:11-45 | Over a sequence of resolutions: earlier entries stay unchanged and new keys are only codes that were asked. A cached code's result is its cached list, and every non-empty result ends up cached. |
| Valuation.CaptureAt | src/services/valuationService.js:250 | A capture at an index is the text after `jsonpgz(` up to a `)`, on one line. It is greedy: no later `)` on the same line could end it. Where `jsonpgz(` occurs, there is a capture exactly when a `)` follows on the same line. |
| Valuation.CaptureJsonp | src/services/valuationService.js:250 | The capture is the one at the first index where capturing succeeds. There is none exactly when capturing fails at every index. |
| Valuation.CaptureFrom | src/services/valuationService.js:250 | The search from an index returns the capture at the first index where capturing succeeds, and nothing exactly when capturing fails at every index. |
| Valuation.CaptureWrapped | src/services/valuationService.js:250-251 | `jsonpgz(<payload>)<tail>` with a single-line payload and no `)` in the tail captures exactly the payload. |
| Valuation.FetchEastMoneyValuation | src/services/valuationService.js:240-265 | The result is `null` exactly when: there is no reply, no capture, an empty capture, or the payload does not decode. Otherwise it holds `gsz` and `gszzl` as parsed numbers. |
| Valuation.AnyPositiveWeight | src/services/valuationService.js:177 | False exactly when every holding is present with a non-positive weight. True exactly when a positive weight comes before any missing holding. |
| Valuation.Details | src/services/valuationService.js:191-209 | Every surviving row has a quote with a name and a positive price. There are no more rows than holdings. |
| Valuation.DetailsMembers | src/services/valuationService.js:191-209 | A row is present exactly when it is the row of a holding whose code is quoted and whose quote has a name and a positive price. |
| Valuation.SingleHolding | src/services/valuationService.js:191-209 | One holding gives its row exactly when it is quoted and kept, and nothing otherwise. A quoted holding contributes its growth times its weight over 100, whether or not it is kept; an unquoted one contributes nothing. |
| Valuation.UnquotedAddNothing | src/services/valuationService.js:193-194 | Holdings without a quote add nothing to the weighted change. |
| Valuation.LastQuotedChange | src/services/valuationService.js:189-200 | A quoted holding adds its growth times its weight to 100 times the weighted change. |
| Valuation.KnownWeight | src/services/valuationService.js:217 | The known weight is not negative when no row's weight is. |
| Valuation.KnownWeightOne | src/services/valuationService.js:217 | One row's known weight is its weight. |
| Valuation.KnownWeightConcat | src/services/valuationService.js:217 | The known weight of two runs of rows is the sum of theirs. |
| Valuation.Denominator | src/services/valuationService.js:217-223 | The divisor is never below 0.05. It is the known weight from 0.05 up, and 1 below. |
| Valuation.Renormalised | src/services/valuationService.js:225-233 | The growth rate times the divisor is 100 times the weighted change. The estimated NAV is the previous NAV grown by that rate. |
| Valuation.Combine | src/services/valuationService.js:189-233 | With no row, the result is the direct estimate. The estimate is weighted exactly when some row survives and the known weight reaches 0.05 or there is no direct estimate; then it is the weighted change over the divisor. |
| Valuation.CalculateRealtimeEstimate | src/services/valuationService.js:169-234 | Empty holdings, or none with a positive weight, give the direct estimate. A missing holding, or a failed quote request, rejects. Otherwise the quotes for the holdings' codes are combined. |
| Valuation.NullHoldingRejects | src/services/valuationService.js:177-193 | Once some holding has a positive weight, a missing holding anywhere rejects. |
| Valuation.DetailsConcat | src/services/valuationService.js:189-209 | The rows and the weighted change of two runs of holdings are those of each, in order. |
| Valuation.DetailsInOrder | src/services/valuationService.js:191-209 | When every holding is quoted and kept, there is one row per holding in holding order. |
| Valuation.WeightedSumBounds | src/services/valuationService.js:189-217 | With all holdings kept and no negative weight, 100 times the weighted change lies between the least and greatest growth times the known weight. |
| Valuation.GrowthWithinRange | src/services/valuationService.js:189-233 | If every holding is quoted and kept, no weight is negative, every growth lies between `lo` and `hi`, and the known weight reaches 0.05, then the estimate is weighted and its growth rate lies between `lo` and `hi`. |
| Valuation.FilteredRowsStillCount | src/services/valuationService.js:200-217 | Two half weights both up 2 %, one quote unnamed, estimate +4 % at 1.04, not +2 %. The filtered row adds to the change but not the weight. |
| Valuation.RenormalisedExample | src/services/valuationService.js:217-227 | One holding of 90 % up 1 % on a previous NAV of 3.8 estimates +1 % at 3.838. |
| Valuation.ThresholdExample | src/services/valuationService.js:219-223 | Below 0.05 known weight, the direct estimate wins when there is one. Without one, the change is divided by 1. |
| Valuation.HoldingsQuery | src/services/valuationService.js:185-186 | The quotes asked for normalised holdings are their codes, each once, in first-occurrence order. |
| Valuation.EstimateFund | src/services/valuationService.js:169-174 | The estimate combines the direct estimate and the resolved holdings, and the cache is the resolver's. |
| Valuation.EstimateTwice | src/services/valuationService.js:169-186 | Estimating twice with the same upstreams gives the same estimate and leaves the cache as the first call left it. |

## Left out

- Network I/O, `fetch`, response status codes, GBK `TextDecoder`, `DOMParser`/`querySelectorAll` and `JSON.parse` are outside the model. Their results are inputs: reply datatypes and the `decode` parameter.
- The JSONP payload's own decoding is left to `decode`; only locating the captured text is modelled.
- Numeric JSON fields (`JZBL` given as a number rather than a string) are taken as text. The model has no number-valued fields.
- Numbers.ParseFloat: its own contract states that a number needs a digit and that NaN comes exactly when no literal starts after the white space. Its values are pinned down by `Numbers.ParseDecimal`, `Numbers.ParseDigits`, `Numbers.ParseSignedDecimal`, `Numbers.ParseSignedWhole`, `Numbers.ParseScientific` and `Numbers.ParseSkipsLeadingSpace`. No lemma gives the value for an exponent on a literal without a point, or for an exponent letter with no digits after it. It does not read `Infinity`, because a real cannot hold it. Exponents give exact reals, with no overflow to Infinity and no IEEE-754 rounding.
- Holdings.RowHolding: takes `parseFloat(weightVal.toString())` to be the parsed value itself. The round trip through a decimal string is the identity on the finite numbers the model has.
- FundService.EquityQuote: the update time is the `clock` parameter instead of `new Date().toLocaleTimeString()`.
- Valuation.CalculateRealtimeEstimate: `prevNav` is a real, so a NaN or missing previous NAV is not modelled.
- The `Promise.all` fan-out and the read-then-write race on the holdings cache are left out. The two fetches are modelled as already joined, in sequence.
- FundService.FetchFundValuations: takes a list of codes. The single-string form (`[codes]` wrapping) is not modelled.
- Property lookups on the plain objects `data[code]`, `holdingsCache[fundCode]` and `marketDataMap[h.code]` also see properties inherited from `Object.prototype`. For instance `fetchFundValuation("constructor")` returns a function and `fetchHoldings("toString")` returns one without asking a source (fundService.js:142, valuationService.js:20-21). The model's maps hold only stored keys.
- Seqs.Flatten: its own contract states membership only. The order of the pieces is stated by `Seqs.FlattenConcat` and `Seqs.FlattenOne`.
- Text.Split: its own contract states only that there is a piece. The pieces are pinned down by `Text.SplitCount`, `Text.SplitPieces`, `Text.JoinSplit` and `Text.SplitAround`.
- Valuation.Details: its own contract states only where rows come from and how many there can be. Which holdings produce rows, and in what order, is stated by `Valuation.DetailsMembers`, `Valuation.SingleHolding`, `Valuation.DetailsConcat` and `Valuation.DetailsInOrder`.
- Valuation.KnownWeight: its own contract states only the sign. Its value is pinned down by `Valuation.KnownWeightOne` and `Valuation.KnownWeightConcat` together, which fix it by induction as the sum of the rows' weights.
- The engine's sums, its division and the `< 0.05` threshold test run on IEEE-754 doubles in the source (valuationService.js:217-224). The model compares exact sums, so a double sum that rounds across 0.05 can choose the other branch there.
- Console logging, `toFixed` formatting and the React components (dashboard, cards, modals) are left out, and so is the dev-server proxy configuration.
