# Log analyzer: a Dafny model

`logAnalyzer.py` reads a web-server access log and counts, per client address, the lines
that record a successful `GET` request. This project models the two functions that do
the work:

- `parseSuccessIPs` (lines 29-56). Each line is matched against three regular expressions:
  - an IPv4 pattern;
  - an IPv6 pattern;
  - a status pattern.
  When `'200'` is among the captured status codes, the matched address is counted in an
  `OrderedDict`.
- `writeOutputFile` (lines 59-71). It renders that table as one line `ip count` per entry,
  or writes nothing and returns `False` when the table is empty.

The modules follow the program's structure:

| module | file | models |
|---|---|---|
| `Addresses` | addresses.dfy | `ip4_ptrn` and `ip6_ptrn` with Python's `search` semantics; greedy groups, backtracking order, longest match |
| `Status` | status.dfy | `http_resp.findall`: a leftmost, non-overlapping scan; greedy `.*` that stops at a newline, then backtracks |
| `OrderedTable` | table.dfy | the `OrderedDict`: a sequence of entries with distinct keys in insertion order; `ip_table[k] += 1` or `= 1` |
| `Analyzer` | analyzer.dfy | the loop body (two independent `if` blocks), the whole pass, and the method with the loop as written |
| `Report` | report.dfy | the text `writeOutputFile` writes, the empty-table outcome, and a reader for the report |
| `Program` | program.dfy | lines 95-96: parse, then write |
| `Chars`, `Wrappers` | chars.dfy, wrappers.dfy | character classes; `Option` |

What the regular expressions do, as the code has them:

- **Both address patterns match only at the start of the line.** Each starts with `^` and is
  applied with `search` without `MULTILINE`.
- **No line matches both address patterns.**
  - An IPv4 match means the line starts with 1 to 3 digits followed by `.`.
  - The IPv6 pattern's first `\w{1,4}` then covers exactly those digits, and needs `:` next.
  - So the two `if` blocks of the loop never both fire on one line (`Addresses.Ip4ExcludesIp6`).
  - The model keeps the two independent checks as written and proves that they collapse to
    one update (`Analyzer.StepBumpsKey`).
- **`\w{1,4}` accepts any word character, not only hexadecimal digits.**
  - A compressed IPv6 address such as `::1` does not match.
  - A prefix that is only IPv6-shaped, such as `abcd:efgh:…`, does match.
- **With two requests on one line, the first match swallows the second.**
  - `.*` is greedy, so the match that starts at the first `"GET ` runs to the rightmost tail
    on the line whose code is in the alternation, and reports that tail's code.
  - Example: a line `"GET /a HTTP/1.1" 200 "GET /b HTTP/1.1" 404` captures only `404`, so
    it does not count (`Status.GreedyHidesEarlierRequest`).
  - When the second code is outside the alternation, as in `... 200 "GET /b HTTP/1.1" 403`,
    the second tail does not match, and the first request's `200` is reported.
- **Quoted fields around the request do not hide it.** In the Combined Log Format the
  referrer and user agent follow the request in double quotes. The request's code is still the
  one reported, provided no other `"GET ` occurs and no tail follows the request
  (`Status.SoleRequest`, `Analyzer.CombinedLogLine`).
- **Nothing follows the status group, so `2000` is captured as `200`.**
- **The `.` of `1.1` is any character except a newline, and `\s` is exactly one whitespace
  character.** Among ASCII characters, `\s` matches tab, newline, vertical tab, form feed,
  carriage return, the separators U+001C to U+001F, and space.

## Model

| member | source | states |
|---|---|---|
| Addresses.Ip4 | logAnalyzer.py:14 | a match is a prefix of the line made of four 1-3 digit groups separated by `.` |
| Addresses.Ip6 | logAnalyzer.py:18 | a match is a prefix of the line made of eight 1-4 word-character groups separated by `:` |
| Addresses.Search | logAnalyzer.py:14-18 | the `search` result of either anchored pattern is a prefix of the line with the pattern's shape |
| Addresses.Run | logAnalyzer.py:14-18 | `\d{1,3}` / `\w{1,4}` take at most the bound, only class characters, and stop early only at a non-class character |
| Addresses.GroupsSound | logAnalyzer.py:14-18 | the groups the matcher returns have the pattern's count and sizes, and joined they are a prefix of the line |
| Addresses.GroupsGreedy | logAnalyzer.py:14-18 | the backtracking order: if any prefix has the shape, the matcher succeeds, agrees on all groups but the last, and its last group is no shorter |
| Addresses.SearchLongest | logAnalyzer.py:14-18 | `search` succeeds whenever some prefix has the shape, and every shaped prefix is a prefix of its match (it is the longest) |
| Addresses.Ip4Longest | logAnalyzer.py:14 | a line that starts with an IPv4-shaped text matches, and the match extends every such prefix |
| Addresses.Ip6Longest | logAnalyzer.py:18 | a line that starts with an IPv6-shaped text matches, and the match extends every such prefix |
| Addresses.Ip4ExcludesIp6 | logAnalyzer.py:14-18 | no line matches both the IPv4 and the IPv6 pattern |
| Addresses.AddressHasNoSpace | logAnalyzer.py:14-18 | any matched address holds only word characters, `.` and `:`, so no whitespace |
| Status.TailOf | logAnalyzer.py:22 | the part after `.*` captures a code from the alternation, after the closing `"` and one whitespace character |
| Status.TailShape | logAnalyzer.py:22 | every window ` HTTP/1`, any non-newline, `1"`, one whitespace, a listed code is a tail capturing that code |
| Status.TailSound | logAnalyzer.py:22 | every tail is exactly such a window: ` HTTP/1`, a non-newline, `1"`, a whitespace character, the code |
| Status.LineRun | logAnalyzer.py:22 | `.*` reaches exactly to the next newline or the end of the line |
| Status.Backtrack | logAnalyzer.py:22 | backtracking finds a tail exactly when one exists in range, and finds the rightmost |
| Status.MatchAt | logAnalyzer.py:22 | an attempt at a position succeeds exactly when a match starts there, and the match ends at the last possible tail |
| Status.FindAll | logAnalyzer.py:22 | `findall` reports only codes from the alternation |
| Status.FindAllSound | logAnalyzer.py:22 | every reported code belongs to a real match of the whole pattern in the line |
| Status.FindAllComplete | logAnalyzer.py:22 | a match anywhere at or after the scan's start makes `findall` report at least one code |
| Status.FindAllLeftmost | logAnalyzer.py:22 | `findall` reports first the code of the leftmost match, then resumes where that match ends |
| Status.Codes | logAnalyzer.py:41 | `http_stat` is non-empty exactly when the line holds a match of the pattern |
| Status.Qualifies | logAnalyzer.py:43 | a line with `'200'` among its codes holds a `"GET … HTTP/1.1" 200` request |
| Status.NoGetNoCodes | logAnalyzer.py:22 | a line without `"GET ` has no codes |
| Status.NoQuoteNoCodes | logAnalyzer.py:22 | a line without a double quote has no codes |
| Status.SingleRequest | logAnalyzer.py:22 | a line with one request (no quote around it, no newline inside) reports exactly that request's code |
| Status.OnlyMatchGeneral | logAnalyzer.py:22 | a match with no `"GET ` before it, no later tail, and no `"GET ` after its code is the only one reported |
| Status.SoleRequest | logAnalyzer.py:22 | a line with one request, no other `"GET ` and no tail after it reports exactly that code; other quoted fields may surround it |
| Status.GreedyHidesEarlierRequest | logAnalyzer.py:22 | two requests on one line report only the second code, although the first request alone matches |
| OrderedTable.Count | logAnalyzer.py:45-46 | an absent key counts 0; a present key counts its entry's value |
| OrderedTable.Bump | logAnalyzer.py:45-48 | keys stay distinct; an absent key is appended with count 1; a present key is incremented in place and nothing else changes |
| OrderedTable.BumpCount | logAnalyzer.py:45-48 | after the update, the key's count is one higher and every other count is unchanged |
| OrderedTable.BumpTotal | logAnalyzer.py:45-48 | the update adds exactly one to the sum of all counts |
| OrderedTable.BumpValid | logAnalyzer.py:45-48 | the update keeps keys distinct and counts at least 1 |
| OrderedTable.TotalZero | logAnalyzer.py:62 | a valid table is empty exactly when its counts sum to zero |
| OrderedTable.Dedup | logAnalyzer.py:33 | first appearances: distinct, and the same elements as the input |
| OrderedTable.FirstIndex | logAnalyzer.py:33 | the position where an element first occurs |
| OrderedTable.DedupOrder | logAnalyzer.py:33 | first appearances are listed in the order they first occur |
| Analyzer.Step | logAnalyzer.py:39-55 | the loop body keeps keys distinct and leaves the table unchanged unless `'200'` is among the line's codes |
| Analyzer.StepValid | logAnalyzer.py:39-55 | the loop body keeps keys distinct and counts at least 1 |
| Analyzer.StepBumpsKey | logAnalyzer.py:43-55 | the two `if` blocks amount to one update of the line's single key, or none |
| Analyzer.StepCount | logAnalyzer.py:43-55 | per line, the count of the line's key goes up by one and every other count stays |
| Analyzer.NoRequestKeepsTable | logAnalyzer.py:41-55 | a line without `"GET `, such as an empty line, changes nothing |
| Analyzer.Key | logAnalyzer.py:43-55 | a qualifying line has a key exactly when an address pattern matches, and the key is whichever match there is |
| Analyzer.RequestLineCounts | logAnalyzer.py:38-55 | a line with a leading address and a space, then one `"GET … HTTP/1.1" 200` request, with no other `"GET ` and no tail after it, counts once for that address |
| Analyzer.CombinedLogLine | logAnalyzer.py:38-55 | the Combined Log Format line `1.2.3.4 - - [d] "GET / HTTP/1.1" 200 512 "-" "curl/8"` counts once for `1.2.3.4` |
| Analyzer.KeyShape | logAnalyzer.py:44-51 | every inserted key is a prefix of its line shaped as an IPv4 or IPv6 address, without whitespace |
| Analyzer.Aggregate | logAnalyzer.py:33-56 | the pass over the lines yields a valid table: distinct keys, every count at least 1 |
| Analyzer.FoldLines | logAnalyzer.py:38-56 | the loop from any table keeps keys distinct |
| Analyzer.AggregateCount | logAnalyzer.py:37-56 | each address's count is the number of lines that count for it |
| Analyzer.AggregateTotal | logAnalyzer.py:37-56 | the counts sum to the number of lines that count for some address |
| Analyzer.AggregateOrder | logAnalyzer.py:33-56 | the keys are the distinct addresses of the counted lines, in first-appearance order |
| Analyzer.AggregateFirstSeen | logAnalyzer.py:33-56 | of two keys, the earlier one was first counted on an earlier line |
| Analyzer.AggregateKeysFromLines | logAnalyzer.py:37-56 | every key comes from some line whose key it is, and consists of address characters |
| Analyzer.AggregateAppend | logAnalyzer.py:38-56 | the pass is a left fold: more lines continue from the table the earlier lines left |
| Analyzer.ParseSuccessIPs | logAnalyzer.py:29-56 | the loop returns the pass's table, which is valid, is ordered by first appearance, has per-address counts equal to the matching lines, and sums to the counted lines |
| Report.Itos | logAnalyzer.py:65 | `{1}` of a count is one or more decimal digits, with no leading zero unless the count is 0 |
| Report.RenderLine | logAnalyzer.py:65 | a written line ends in a newline, reads back as its entry, and holds no other newline when the address holds none |
| Report.Render | logAnalyzer.py:64-65 | the text is empty exactly when the table is, ends in a newline otherwise, and has one newline per entry when no address holds a newline |
| Report.ItosRoundTrip | logAnalyzer.py:65 | reading a rendered count back gives the count |
| Report.RenderLineRoundTrip | logAnalyzer.py:65 | a rendered line, split at its last space, gives back the address and count |
| Report.ReportRoundTrip | logAnalyzer.py:64-65 | when no address holds a newline, the written text, read back line by line, gives the table's entries in order |
| Report.WriteOutputFile | logAnalyzer.py:59-71 | no output exactly when the table is empty; otherwise text that reads back as the table |
| Program.AggregateKeysSingleLine | logAnalyzer.py:95-96 | no address in the parsed table contains a newline |
| Program.Run | logAnalyzer.py:95-96 | no report exactly when no line counted; otherwise a report that reads back as the parsed table |

## Left out

- Reading the log file (line 37) is left out. The model takes the lines as the file iterator
  yields them, any trailing newline included.
- Writing the output file (line 63) is left out. The model returns the text the file would hold.
- The messages of lines 67 and 70 are left out; they are prints.
- Argument parsing, the existence check and `sys.exit` (lines 76-90) are left out; they are
  I/O glue.
- Errors while reading the log are left out. A missing or unreadable file raises from `open`
  (line 37), and a read or decoding error raises during the iteration (line 38), possibly after
  some lines were processed. In both cases the exception leaves the function, and no table
  results. The model takes the lines as already read.
- `writeOutputFile` returns `True`/`False`. The model returns `Some(text)` / `None`, so the
  boolean is `Some?`.
- The unused initial assignments `ip4_addr = None` and `ip6_addr = None` (lines 34-35) are
  not modelled. They have no effect.
- Python 3 interprets `\d`, `\w` and `\s` over Unicode. The model restricts them to ASCII:
  - digits;
  - letters, digits and `_`;
  - tab, newline, vertical tab, form feed, carriage return, U+001C to U+001F, and space.
- Status.TailOf: `\s` also matches non-ASCII whitespace such as U+0085, U+00A0 and U+2028.
  The model rejects those, so a tail written with one of them reports no code here.
- Report.WriteOutputFile: the read-back is stated only for tables whose addresses contain no
  newline. Addresses with a newline cannot be split back into lines. `Program.Run` discharges
  this for every table the analyzer produces.
- Report.ReportRoundTrip: the read-back is stated only for tables whose addresses hold no
  newline; `Program.Run` discharges this for every table the analyzer produces. The reader is
  this model's own: split at newlines, then at the last space. No reader appears in the program.
- "The same log gives the same table" has no lemma: `Aggregate` is a function of the lines.
