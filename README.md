# Malicious hash detection, modelled in Dafny

`main.py` reads candidate file hashes, one per line. It checks that each one
looks like an MD5, SHA-1 or SHA-256 digest. It asks the Team Cymru Malware Hash
Registry about each valid one, through a DNS TXT lookup under
`hash.cymru.com`. It keeps every hash the registry answers for, as a tuple
`(hash, av_rate, timestamp)`, and sorts those tuples by AV detection rate,
highest first, to write the report.

The model follows that pipeline, one module per stage:

- `Text` gives the Python string built-ins the script relies on:
  `str.strip(chars)`, `str.split()` with Python's whitespace set, and the
  ordering `<` on `str` (by code point, where a proper prefix counts as
  smaller).
- `Validate` models `validate_hash`. Its pattern match includes Python's `$`,
  which also matches just before one final newline.
- `Reputation` models `query_mhr`. The DNS resolver is an oracle
  `resolve: string -> Resolution`. For each queried name it gives either one of
  the failures the script handles or the answer's records, in their
  `to_text()` form. `QueryMhr` is the loop over the records, with its early
  return.
- `Batch` models `check_hashes`: the specification function `Scan` and the
  method `CheckHashes`, which has the source's `for` loop.
- `RateSort` models `sort(key=lambda x: x[1], reverse=True)`. `SortByRate` is
  the functional specification, a stable sort from highest to lowest on the
  rate as a string. `SortInPlace` sorts an array in place by insertion and is
  proved to produce `SortByRate` of its input. `StableSortIsSortByRate` shows
  that every stable descending sort on this key produces the same list, so
  insertion sort is a faithful stand-in for the library's sort.
- `Pipeline` models `main`. It strips `',\n'` from the lines, scans them,
  stops when nothing is found, and otherwise returns the sorted rows the
  report would hold.

The rate is compared as a string, because the code uses the string itself
as the sort key. So "9" sorts above "80" and "100", but below "90": "9" is a
proper prefix of "90", which makes it the smaller string. Numerically "9"
would come after "80" and "100"; the code puts it before them, and the model
follows the code (`Text.StringOrderOfRates`, `RateSort.SampleOrder`).

## Model

| member | source | states |
|---|---|---|
| Validate.ValidateHash | main.py:20-25 | definition: one of the three anchored patterns (32, 40 or 64 hex digits, `$` allowing one final newline) matches |
| Validate.ValidateHashIff | main.py:20-25 | a string that does not end in a newline is accepted exactly when it is 32, 40 or 64 characters long and all hex digits of either case |
| Validate.ValidateHashWithNewline | main.py:20-25 | a hash followed by one newline is accepted too (Python's `$`), and only when the part before the newline is a valid hash |
| Validate.NonHexRejected | main.py:20-25 | the match is anchored: any non-hex character other than one final newline makes the string invalid |
| Reputation.LookupDomain | main.py:30-35 | the queried name is the hash plus ".hash.cymru.com", with one more dot inside when the hash has 64 characters |
| Reputation.DomainRoundTrip | main.py:30-35 | removing the suffix and the inserted dot gives back any hash without a dot |
| Reputation.LookupDomainInjective | main.py:30-35 | two different valid hashes never give the same query string (DNS letter-case folding is not modelled, see below) |
| Reputation.SplitLabels | main.py:32-33 | a SHA-256 hash is looked up as two labels, its first 32 and its last 32 characters |
| Reputation.SampleSha256Domain | main.py:32-33 | 64 'a's are looked up as two labels of 32 'a's under hash.cymru.com |
| Reputation.ParseRecord | main.py:41-48 | definition: strip quotes from both ends, split on whitespace, usable only with exactly two tokens, taken as (timestamp, rate) |
| Reputation.FirstAnswer | main.py:40-50 | definition: the first record, in answer order, that parses |
| Reputation.Query | main.py:28-62 | definition: the first usable record of the answer for the lookup name; nothing when there is no TXT answer, no such domain, or any other resolver error |
| Reputation.StripQuoted | main.py:41 | `strip('"')` gives back a quoted body that itself neither starts nor ends with a quote |
| Reputation.ParseWellFormedPayload | main.py:41-49 | the payload `"<timestamp> <rate>"` gives exactly its two values, in that order |
| Reputation.SamplePayload | main.py:41-49 | the record `"1700000000 75"` gives timestamp "1700000000" and rate "75" |
| Reputation.ParseRecordWords | main.py:45-48 | both values of a usable record are non-empty runs without whitespace |
| Reputation.FirstAnswerWords | main.py:40-49 | the values the loop returns are never empty |
| Reputation.FirstAnswerNone | main.py:40-62 | the lookup gives nothing exactly when no record splits into two tokens |
| Reputation.FirstAnswerIsFirstParsed | main.py:40-49 | a result comes from the first record that splits into two tokens; every record before it does not |
| Reputation.FirstAnswerIgnoresLater | main.py:47-49 | records after the first usable one are never looked at |
| Reputation.QueryMhr | main.py:28-62 | the method returns the two tokens of the first usable record; no TXT answer, a missing domain and any other error all give (None, None) |
| Batch.Step | main.py:69-72 | definition: what one candidate adds: nothing when invalid or unanswered or a value is empty, else the row (hash, rate, timestamp) |
| Batch.Scan | main.py:65-79 | definition: the rows of all candidates, in input order |
| Batch.Queried | main.py:68-70 | definition: the valid candidates, in input order, which are the ones handed to the lookup |
| Batch.CheckHashes | main.py:65-79 | the loop builds exactly `Scan`; only valid hashes are ever given to the lookup |
| Batch.StepKeepsEveryAnswer | main.py:69-72 | a candidate adds one row (hash, rate, timestamp) exactly when it is valid and its lookup answers, because the truthiness test never drops an answer |
| Batch.SampleAnswer | main.py:69-72 | a valid hash answered with `"1700000000 75"` adds the row (hash, "75", "1700000000") |
| Batch.QueryIsWords | main.py:70-71 | both values of an answer are non-empty, so the truthiness test holds for every answer |
| Batch.ScanRecordsAreAnswers | main.py:68-72 | every row names a valid hash and carries that hash's answer, with rate and timestamp swapped into row order |
| Batch.ScanIsSubsequence | main.py:68-79 | the hashes of the rows are the input with entries left out, in input order |
| Batch.ScanLength | main.py:65-79 | there are never more rows than candidates |
| Batch.ScanCounts | main.py:68-72 | each hash appears among the rows as often as in the input when it is kept, and not at all otherwise |
| Batch.QueriedCounts | main.py:69-70 | each valid candidate is looked up once per occurrence, and an invalid one never is |
| Text.Strip | main.py:41 | definition: `str.strip(chars)`, dropping the leading run of `chars`, then the trailing run |
| Text.Split | main.py:45 | definition: `str.split()`, skipping whitespace (Python's `isspace` set) and taking each maximal whitespace-free run as a token |
| Text.Below | main.py:104 | definition: `str <`, by code point at the first difference, a proper prefix being smaller |
| Text.StripIsTrim | main.py:41 | `strip(chars)` returns a contiguous slice whose cut-off ends consist only of the given characters and whose own ends do not |
| Text.StripIdempotent | main.py:93 | stripping twice is stripping once |
| Text.SplitYieldsWords | main.py:45 | `split()` yields only non-empty tokens without whitespace |
| Text.SplitJoinWords | main.py:45 | splitting words joined by single spaces gives the words back |
| Text.SplitBlank | main.py:45 | whitespace alone yields no token |
| Text.SplitAppend | main.py:45 | splitting a concatenation whose seam is whitespace gives the tokens of each part, in order, so tokens are the maximal whitespace-free runs and only whitespace is dropped |
| Text.SplitSeparatedWords | main.py:45-47 | two words with any non-empty whitespace between them (tabs, several spaces) and any around them give exactly those two tokens |
| Reputation.ParseSpacedPayload | main.py:41-48 | a quoted payload whose two fields are separated by any whitespace run parses to those two fields |
| Text.BelowTotal | main.py:104 | string order is total: two different strings are ordered one way or the other |
| Text.BelowTransitive | main.py:104 | string order is transitive |
| Text.StringOrderOfRates | main.py:104 | as strings, "80" < "9", "100" < "9" and "9" < "90" |
| Pipeline.CleanLine | main.py:93 | the cleaned line is a contiguous slice of the line, everything cut off before and after it is commas and newlines, and it neither begins nor ends with either |
| Pipeline.CleanLines | main.py:93 | one cleaned entry per input line, in order |
| Pipeline.Detect | main.py:93-104 | definition: nothing when the scan of the cleaned lines is empty, else those rows sorted by `SortByRate` |
| Pipeline.CleanLineValidation | main.py:93-96 | a cleaned line never ends in a newline, so it is valid exactly when it has a hash length and only hex digits |
| Pipeline.CleanLineFixedPoints | main.py:93 | cleaning is idempotent, and it leaves alone a line with no comma or newline at either end |
| Pipeline.CleanTrailingJunk | main.py:93 | trailing commas and newlines are removed and nothing else: inner commas and spaces stay |
| Pipeline.SampleHashLine | main.py:93-96 | an MD5 line ending in a newline is cleaned to the bare hash, which is valid |
| Pipeline.SampleJunkLine | main.py:93-96 | "invalidhash,\n" is cleaned to "invalidhash", which is rejected |
| Pipeline.RunDetection | main.py:93-104 | the run yields `Detect`; it reports nothing exactly when no cleaned line is a valid hash with an answer |
| Pipeline.NoneFoundIffNoneKept | main.py:96-101 | the scan is empty exactly when no candidate is both valid and answered |
| Pipeline.ReportIsStableDescending | main.py:96-104 | the report holds exactly the scanned rows, from highest to lowest rate, with equal rates in scan order |
| RateSort.Insert | main.py:104 | definition: put a row after every row whose rate is not below its own |
| RateSort.SortByRate | main.py:104 | definition: insert the rows one by one, in input order, into the sorted list |
| RateSort.SortByRatePermutes | main.py:104 | sorting neither loses nor adds a row |
| RateSort.SortByRateSorted | main.py:104 | the sorted rows never have a higher rate following a lower one |
| RateSort.SortByRateStable | main.py:104 | rows with equal rates keep their original order (Python's sort is stable, also with `reverse=True`) |
| RateSort.StableSortIsSortByRate | main.py:104 | any stable descending sort by rate yields `SortByRate`, so the list is determined uniquely |
| RateSort.NonIncreasingDeterminedByRates | main.py:104 | two descending lists that hold the same rows for every rate are equal |
| RateSort.InsertPermutes | main.py:104 | inserting one row adds exactly that row |
| RateSort.InsertSorted | main.py:104 | inserting into a descending list keeps it descending |
| RateSort.WithRateInsert | main.py:104 | insertion puts a row after every row with the same rate |
| RateSort.SortPair | main.py:104 | two rows swap exactly when the first rate is below the second |
| RateSort.SampleOrder | main.py:104 | rates "9" and "90" sort as "90", "9"; rates "80" and "9" sort as "9", "80" |
| RateSort.InsertAt | main.py:104 | insertion lands after the rows not below it and before the rows below it |
| RateSort.InsertInPlace | main.py:104 | the in-place step moves the new row left past exactly the rows with a lower rate; the rest of the array is unchanged |
| RateSort.InsertStep | main.py:104 | where the in-place step puts the row gives the sorted longer prefix |
| RateSort.SortInPlace | main.py:104 | the array ends up holding `SortByRate` of its old contents |

## Left out

- DNS resolution (`dns.resolver.resolve`) is an oracle. Each name has one fixed outcome, and every exception other than NoAnswer and NXDOMAIN is a single `ResolverError`. Time-outs, retries and a resolver that answers differently on each call are not modelled.
- DNS compares names without regard to letter case, so an upper-case hash and its lower-case form reach the same registry entry. The resolver oracle is keyed on the exact query string and may answer the two differently; the model does not impose the case folding.
- `to_text()` of a TXT record is not modelled. The resolver oracle hands over that text directly.
- An exception raised while the answer's records are being iterated (`main.py:40-51`) is not modelled. The model treats it the same as a resolver error only when the oracle reports it up front.
- The regular-expression engine is not modelled. Only the three fixed patterns of `validate_hash` are modelled, with their `^`, `{n}` and `$`.
- `debug_print`, and every `print` (including "Invalid response"), are left out because they are console output only. `DEBUG_MODE` is 0.
- File input and output (`hashes.txt`, `malicious_hashes.csv`) are left out. The lines come in as a parameter and the sorted rows go out as the result. The CSV header and row formatting are not modelled.
- `datetime.fromtimestamp(int(timestamp)).strftime(...)` is left out. It depends on the local time zone and the clock library, and `int()` raises on a non-numeric timestamp while the report is being written. The model ends at the sorted rows, before this conversion.
- The library's sort algorithm (timsort) is not modelled. It is replaced by an insertion sort; `RateSort.StableSortIsSortByRate` shows that any stable sort with this key gives the same result.
- `readlines()` splits the file into lines, and this is not modelled. Each line is assumed to keep its newline, as `readlines` does.
