# Real-time trading desk: the sequential core

`TradingSystemGUI_EnhancedConcurrency.java` is a small Swing trading desk.
A Buy click parses the quantity field, resolves the display name, fetches a
price for the chosen symbol, appends one comma-separated trade line to the
shared trade list (`tradeLogs`) and rewrites `trades_local.csv` from that
list. A Summary click splits every trade line, groups the lines by
`user-symbol` and sums their quantities with a parallel stream. The price
fetch reads a GLOBAL_QUOTE response body and cuts out the text after the
marker `"05. price": "`.

This project models the string and list handling behind those actions and
proves what it guarantees:

- `java_text.dfy` (module `JavaText`): `String.trim`, `String.join`,
  `split` with a one-character separator (trailing empty pieces removed, as
  Java does) and `indexOf`.
- `java_int.dfy` (module `JavaInt`): 32-bit `int`, `String.valueOf(int)`
  and `Integer.parseInt`, with `None` standing for `NumberFormatException`.
- `username.dfy` (module `Username`): the display-name rule.
- `trade_records.dfy` (module `TradeRecords`): the trade line
  `user,symbol,quantity,price` and how the summary reads it back.
- `trade_summary.dfy` (module `TradeSummary`): the `groupingBy`/`summingInt`
  summary as a sequential fold, against an independent definition (per-key
  sums over the whole ledger). The fold is proved independent of line order
  and of how the ledger is cut into chunks, which is what makes the parallel
  stream's result deterministic.
- `trade_ledger.dfy` (module `TradeLedger`): the trade list as a class with
  `Append` and `Persist`. `Persist` rewrites the saved file text with a loop
  over the lines.
- `trading_desk.dfy` (module `TradingDesk`): the Buy action over the session
  state (the current name and the ledger).
- `quote_parsing.dfy` (module `QuoteParsing`): the price-text extraction,
  as written and with the missing-marker case handled.
- `wrappers.dfy` (module `Wrappers`): `Option`.

The price of a trade is the text `String.valueOf(double)` produced. The
model takes it as an opaque string parameter of `Buy`. The quote service's
answer and the file's previous content are also parameters.

Each save opens `trades_local.csv` with `Files.newBufferedWriter` and no
options, so it truncates the file and writes the whole list again; nothing
is appended to the file (`TradeLedger.Ledger.Persist`).

## Model

| member | source | states |
|---|---|---|
| JavaText.Trim | TradingSystemGUI_EnhancedConcurrency.java:70 | the result is the slice of the input that starts after its leading characters at or below U+0020, with only such characters outside it, and it neither starts nor ends with one; it is empty exactly when every character is such a blank |
| JavaText.TrimCharacterized | TradingSystemGUI_EnhancedConcurrency.java:70 | any slice with blank-only surroundings and non-blank ends is the trim, so the contract of `Trim` pins its result down |
| JavaText.TrimTrimmed | TradingSystemGUI_EnhancedConcurrency.java:70 | trimming a string without blank ends returns it unchanged |
| JavaText.Join | TradingSystemGUI_EnhancedConcurrency.java:76 | `String.join` with a one-character separator; SplitAll, SplitJoin and JavaSplitJoin state that splitting inverts it |
| JavaText.SplitAll | TradingSystemGUI_EnhancedConcurrency.java:88 | splitting gives at least one piece, no piece holds the separator, and joining the pieces with the separator gives back the input |
| JavaText.SplitAtSeparator | TradingSystemGUI_EnhancedConcurrency.java:88 | splitting `a + sep + b` with `a` separator-free gives `a` followed by the pieces of `b` |
| JavaText.SplitJoin | TradingSystemGUI_EnhancedConcurrency.java:76 | joining separator-free pieces and splitting again gives back the same pieces |
| JavaText.JavaSplitJoin | TradingSystemGUI_EnhancedConcurrency.java:88 | `split` as Java does it (trailing empty pieces dropped) inverts `String.join` when the last piece is nonempty |
| JavaText.JavaSplit | TradingSystemGUI_EnhancedConcurrency.java:88 | no piece of Java's `split` holds the separator |
| JavaText.IndexOf | TradingSystemGUI_EnhancedConcurrency.java:118-120 | the result is -1, or the first index at or after `from` where the pattern occurs; no earlier index in range holds it |
| JavaInt.NatToDigits | TradingSystemGUI_EnhancedConcurrency.java:76 | the decimal digits of a natural number are nonempty, denote that number and have no leading zero ("0" for zero) |
| JavaInt.IntToString | TradingSystemGUI_EnhancedConcurrency.java:76 | `String.valueOf(int)` is nonempty, has no comma, and starts with '-' exactly for negative values |
| JavaInt.ParseInt | TradingSystemGUI_EnhancedConcurrency.java:90 | `parseInt` accepts exactly an optional `+` or `-` followed by at least one ASCII digit whose value is in the range of `int`, and returns that value with the sign applied; anything else is rejected |
| JavaInt.ParseIntToString | TradingSystemGUI_EnhancedConcurrency.java:76 | parsing the decimal text of any 32-bit int gives back that int |
| JavaInt.ParseIntRejectsWord | TradingSystemGUI_EnhancedConcurrency.java:90 | text that starts with neither a digit nor a sign is rejected |
| Username.ResolveName | TradingSystemGUI_EnhancedConcurrency.java:70 | the name is never empty and has no blank ends; it is the trimmed field when that is nonempty; it is "Anonymous" exactly when the trimmed field is empty or is "Anonymous" itself |
| Username.ResolveNameIdempotent | TradingSystemGUI_EnhancedConcurrency.java:70 | resolving a resolved name changes nothing |
| TradeRecords.DecodeLine | TradingSystemGUI_EnhancedConcurrency.java:88-90 | a line that reads successfully yields a group key without commas |
| TradeRecords.Encode | TradingSystemGUI_EnhancedConcurrency.java:76 | the trade line `user,symbol,quantity,price`; EncodeSplits and DecodeEncode state what reading it back gives |
| TradeRecords.GroupKey | TradingSystemGUI_EnhancedConcurrency.java:89 | the summary's classifier `user + "-" + symbol`; GroupKeyInjective states when it separates groups |
| TradeRecords.EncodeSplits | TradingSystemGUI_EnhancedConcurrency.java:76 | a trade line whose user, symbol and price have no comma splits into exactly its four fields |
| TradeRecords.DecodeEncode | TradingSystemGUI_EnhancedConcurrency.java:88-90 | such a line reads back as its key `user-symbol` and its original quantity |
| TradeRecords.CommaInUserMisreads | TradingSystemGUI_EnhancedConcurrency.java:70 | a user name containing a comma never reads back as its own key and quantity |
| TradeRecords.CommaInUserAbortsRead | TradingSystemGUI_EnhancedConcurrency.java:76 | with one comma in the user name, field 2 is the symbol, `parseInt` fails on it and the line cannot be read |
| TradeRecords.GroupKeyInjective | TradingSystemGUI_EnhancedConcurrency.java:89 | for hyphen-free symbols, equal keys mean the same user and the same symbol |
| TradeRecords.OfferedSymbolIsWord | TradingSystemGUI_EnhancedConcurrency.java:38 | each symbol the form offers is nonempty, has no comma or hyphen, and is rejected by `parseInt` |
| TradeSummary.GroupIsTotals | TradingSystemGUI_EnhancedConcurrency.java:89-90 | the fold `Group` yields the per-key sums `Totals` over all lines when every line reads, and aborts otherwise |
| TradeSummary.Summarize | TradingSystemGUI_EnhancedConcurrency.java:87-90 | the summary: read every line, then fold them into per-key sums; GroupIsTotals, SummarizeContents, SummarizeAborts and SummarizeOrderIndependent state its meaning |
| TradeSummary.Group | TradingSystemGUI_EnhancedConcurrency.java:89-90 | the `groupingBy`/`summingInt` accumulation as a fold over the readings; GroupIsTotals ties it to `Totals` |
| TradeSummary.Totals | TradingSystemGUI_EnhancedConcurrency.java:89-90 | the reference summary: each key present in the ledger mapped to the sum of its quantities |
| TradeSummary.SumForConcat | TradingSystemGUI_EnhancedConcurrency.java:90 | the sum for a key over two stretches of ledger is the sum of the two sums |
| TradeSummary.SumForAbsent | TradingSystemGUI_EnhancedConcurrency.java:90 | a key that no line carries sums to 0 |
| TradeSummary.SumForPermutation | TradingSystemGUI_EnhancedConcurrency.java:87-90 | the sum for a key does not depend on the order of the lines |
| TradeSummary.KeysOfPermutation | TradingSystemGUI_EnhancedConcurrency.java:87-89 | every key of the lines, and any line that fails to read, is still there after a reordering |
| TradeSummary.GroupOrderIndependent | TradingSystemGUI_EnhancedConcurrency.java:87-90 | any reordering of the readings gives the same summary or the same abort |
| TradeSummary.SummarizeOrderIndependent | TradingSystemGUI_EnhancedConcurrency.java:87-90 | any permutation of the ledger gives the same summary, so the parallel stream's result is deterministic |
| TradeSummary.SummarizeAborts | TradingSystemGUI_EnhancedConcurrency.java:88-90 | the summary aborts exactly when some line cannot be read (too few fields or a quantity `parseInt` rejects) |
| TradeSummary.CommaInUserAbortsSummary | TradingSystemGUI_EnhancedConcurrency.java:70 | a ledger holding a trade in an offered symbol by a user whose name has one comma cannot be summarised |
| TradeSummary.SummarizeContents | TradingSystemGUI_EnhancedConcurrency.java:87-90 | a summary's keys are exactly the keys of the ledger's lines, and each maps to the sum of its lines' quantities |
| TradeSummary.AllReadConcat | TradingSystemGUI_EnhancedConcurrency.java:88-90 | two stretches read fully exactly when each of them does |
| TradeSummary.KeysOfConcat | TradingSystemGUI_EnhancedConcurrency.java:89 | the keys of two stretches are the union of their keys |
| TradeSummary.TotalsConcat | TradingSystemGUI_EnhancedConcurrency.java:89-90 | the per-key sums of two stretches are the merge of their per-key sums |
| TradeSummary.Merge | TradingSystemGUI_EnhancedConcurrency.java:90 | the parallel collector's combiner: partial sums of the same key are added; TotalsConcat and GroupSplit state that it reassembles the whole |
| TradeSummary.Combine | TradingSystemGUI_EnhancedConcurrency.java:87-90 | combining two partial summaries, an abort in either aborting the result; GroupSplit and SummarizeAnyChunking state that it gives the whole ledger's summary |
| TradeSummary.GroupSplit | TradingSystemGUI_EnhancedConcurrency.java:87-90 | summarising two halves separately and combining the maps gives the summary of the whole |
| TradeSummary.SummarizeAnyChunking | TradingSystemGUI_EnhancedConcurrency.java:87-90 | however the ledger is cut into chunks, combining the chunks' summaries gives the summary of the whole ledger |
| TradeSummary.SummarizeAfterTrade | TradingSystemGUI_EnhancedConcurrency.java:76 | after a trade with comma-free fields, the summary adds its quantity to the key `user-symbol` and changes nothing else |
| TradeSummary.AliceBuysAaplTwice | TradingSystemGUI_EnhancedConcurrency.java:87-90 | alice buying AAPL 10 and then 5, at any prices, summarises to exactly `{"alice-AAPL": 15}` |
| TradeLedger.FileText | TradingSystemGUI_EnhancedConcurrency.java:131 | the saved text: every line followed by "\n", in ledger order; WriteLines computes it and PersistedFileReadsBack states that it reads back as the ledger |
| TradeLedger.FileTextConcat | TradingSystemGUI_EnhancedConcurrency.java:131 | the file text of two stretches of ledger is the two texts one after the other |
| TradeLedger.SplitFileText | TradingSystemGUI_EnhancedConcurrency.java:131 | splitting the file text at newlines gives the lines and one final empty piece |
| TradeLedger.PersistedFileReadsBack | TradingSystemGUI_EnhancedConcurrency.java:130-131 | reading the saved file back line by line gives exactly the ledger, in order |
| TradeLedger.WriteLines | TradingSystemGUI_EnhancedConcurrency.java:131 | the writing loop produces every line followed by "\n", in ledger order |
| TradeLedger.Ledger.constructor | TradingSystemGUI_EnhancedConcurrency.java:23 | the trade list starts empty |
| TradeLedger.Ledger.Append | TradingSystemGUI_EnhancedConcurrency.java:76 | one line is added at the end; earlier lines are unchanged and the list never shrinks |
| TradeLedger.Ledger.Persist | TradingSystemGUI_EnhancedConcurrency.java:128-137 | the file is overwritten with the text of the whole ledger, whatever it held before; the ledger is unchanged |
| TradingDesk.TradingSystem.constructor | TradingSystemGUI_EnhancedConcurrency.java:23-25 | the session starts as "Anonymous" with an empty trade list |
| TradingDesk.TradingSystem.Buy | TradingSystemGUI_EnhancedConcurrency.java:67-83 | a trade is placed exactly when the quantity parses; then the name is resolved, exactly the encoded trade line is appended and the file is rewritten from the ledger; otherwise nothing changes |
| QuoteParsing.ExtractPrice | TradingSystemGUI_EnhancedConcurrency.java:118-121 | the extraction fails exactly when no quote follows the start; otherwise the result is the quote-free text from the start up to the next quote |
| QuoteParsing.ExtractPriceFindsValue | TradingSystemGUI_EnhancedConcurrency.java:118-121 | a body whose first marker is followed by a quote-free value and a quote yields exactly that value |
| QuoteParsing.ExtractPriceWithoutMarker | TradingSystemGUI_EnhancedConcurrency.java:118-121 | a body without the marker still yields a number, read from offset 13 |
| QuoteParsing.ExtractPriceChecked | TradingSystemGUI_EnhancedConcurrency.java:118-121 | with the missing marker rejected, a value comes only from just after the first marker occurrence and stops at the next quote |
| QuoteParsing.ExtractPriceCheckedRejectsMissingMarker | TradingSystemGUI_EnhancedConcurrency.java:118-121 | the corrected extraction rejects the body that the code as written misreads |

## Left out

- The Swing frame, widgets, listeners and the rendering of the log and price areas (lines 32-63, 75, 91, 98-102, 110): user interface.
- The HTTP request in `fetchPrice` (lines 115-117): network I/O. The extraction works on a given body.
- `Double.parseDouble` of the extracted text, the `Math.random() * 100 + 50` fallback, `%.2f` formatting and `String.valueOf(double)` (lines 74, 97, 121, 124): floating point and randomness. The price is an opaque text parameter of `Buy`.
- The thread per trade and its `join` (lines 80-82), the price poller loop with its sleep and interrupt (lines 94-108) and its updates of the `prices` map (lines 21, 97): concurrency and timing. Those map updates only feed the price display.
- `fileLock` (lines 24, 129, 135) and the two-lock deadlock demonstration (lines 28-29, 139-150): lock ordering cannot be stated in a sequential model. Saving is modelled as sequential.
- Real file I/O and the `IOException` that is printed and ignored (lines 130-133): the model computes the text the save writes.
- TradeSummary.Summarize: sums are unbounded integers, so `summingInt`'s 32-bit wrap-around on very large totals is not modelled.
- TradeSummary.Summarize: the summary is a map, so the iteration order in which the `HashMap` is printed (line 91) is not modelled.
- JavaInt.ParseInt: accepts ASCII digits only, while `Integer.parseInt` also accepts other Unicode decimal digits.
- QuoteParsing.ExtractPrice: Dafny's `char` is a Unicode scalar value, so every offset in the model, the unchecked start of 13 included, counts characters where Java counts UTF-16 code units; the two differ only on text with supplementary characters (the body `😀abcdefghijk42"` yields `2` here and `42` in Java), and a Java string with an unpaired surrogate cannot be represented. `trim`, `split` and the marker search are unaffected, because everything they match is ASCII.
- TradeRecords.GroupKeyInjective: holds only for symbols without '-'; the symbols offered (line 38) have none (`TradeRecords.OfferedSymbolIsWord`), but the model does not tie `Buy` to that list.

## Findings

| source | as written | input that shows it | evidently intended | confidence | as-written member | corrected member |
|---|---|---|---|---|---|---|
| TradingSystemGUI_EnhancedConcurrency.java:118-121 | the result of `indexOf` for the price marker is not checked, so a body without the marker is read from offset -1 + 14 = 13 | the body `{"Note":"x", 42"}` has no marker, yet the text from offset 13 to the next quote is `42`, which parses as a price | a body without the marker fails and the random fallback price is used | medium, not executed | QuoteParsing.ExtractPriceWithoutMarker | QuoteParsing.ExtractPriceChecked |
