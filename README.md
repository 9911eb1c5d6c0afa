# Line search server and its matchers, in Dafny

The system is a TCP string-search service. A client reads lines from
the terminal and sends each non-blank one as a query. Each query is framed
as a 1024-character header, holding the decimal length padded with `'\n'`,
followed by the payload. The server reads the dataset path from the
`linuxpath=` line of `config.ini`. It answers `STRING EXISTS\n` when some
line of the dataset equals the query once both are stripped, and
`STRING NOT FOUND\n` otherwise. Its reply uses the same framing. The
`search_algorithms` package holds alternative matchers. Each takes a
pattern and a text, and several come with a `find_string_match` that
keeps the dataset in a module-level cache.

This project models all of it. It covers:

- the server's configuration lookup, its matcher and its per-connection
  loop;
- the client's framing, its reply parser and its input loop;
- every matcher in the package.

Each matcher is proved against an independent reference. That reference
is one of:

- "some line, stripped, equals the stripped query";
- "the pattern's lines occur as a contiguous run of the text's lines";
- "the pattern occurs in one line";
- "the pattern occurs in the text".

Where a matcher does not meet its reference, the gap is exhibited on a
concrete input and a corrected matcher is proved (see "## Findings").

Python's string semantics that the code relies on are modelled once, in
`PyStr`:

- `str.strip` (ASCII whitespace);
- `str.split('\n')`;
- `str.splitlines()` (on `'\n'`);
- `str.find`;
- slicing past the end;
- `str.lower` on ASCII letters.

`Decimal` models `str(n)` and `int(s)`. `Frame` models header encoding,
the `recv` of a scripted connection and the UTF-8 length of a string.

Sockets are modelled as data. What a side sends is returned as a
sequence of frames. What it receives is a script of chunks: each `recv(n)`
takes up to `n` characters from the next chunk and leaves the rest of that
chunk for the next read, as a stream does, `recv(0)` takes nothing, and
an exhausted script reads as `""` (the peer closed). The dataset file is
a parameter: the text the file holds. A server connection takes that text
to stay the same while the connection lasts. The
module-level `file_data` cache is a class with one `Option<string>` field.

## Model

| member | source | states |
|---|---|---|
| PyStr.Strip | src/server.py:104 | the result is no longer than the input and has no whitespace at either end |
| PyStr.StripBounds | src/server.py:104 | the stripped string is a slice `s[a..b]` with only whitespace before `a` and after `b` |
| PyStr.StripPadded | src/server.py:104 | stripping ignores any whitespace added on either side |
| PyStr.StripIdempotent | src/client.py:109 | stripping twice is stripping once |
| PyStr.StripEmpty | src/client.py:112 | the stripped string is empty exactly when the input is all whitespace |
| PyStr.StripKeepsOut | src/server.py:104 | stripping never introduces a character |
| PyStr.Find | search_algorithms/depth_first_serach.py:34 | the result is -1 or the first index at or after `from` holding the character; no earlier such index exists |
| PyStr.Split | search_algorithms/linear_search.py:20 | `split` always gives at least one piece |
| PyStr.SplitPieceFree | search_algorithms/linear_search.py:20 | no piece contains the separator |
| PyStr.JoinSplit | search_algorithms/linear_search.py:20 | joining the pieces with the separator gives back the string |
| PyStr.SplitJoin | search_algorithms/linear_search.py:20 | splitting a join of separator-free pieces gives back the pieces |
| PyStr.SplitTrailingSep | search_algorithms/linear_search.py:20 | a trailing separator adds exactly one empty piece |
| PyStr.SplitLines | src/server.py:102 | `splitlines` gives no lines exactly for the empty string |
| PyStr.SplitLinesPieceFree | src/server.py:102 | no line contains `'\n'` |
| PyStr.SplitVersusSplitLines | search_algorithms/linear_search.py:20 | `split('\n')` is `splitlines()` plus one empty piece when the text is empty or ends in `'\n'`, and equal otherwise |
| PyStr.SplitLinesFirst | search_algorithms/depth_first_serach.py:34-43 | the first line runs up to the first `'\n'`, and the rest are the lines after it |
| PyStr.SplitLinesOneLine | search_algorithms/depth_first_serach.py:38-39 | a non-empty text without `'\n'` is one line |
| PyStr.SplitLinesPieceLength | src/server.py:102 | no line is longer than the text |
| PyStr.StripKeepsPrefix | src/server.py:38-41 | a prefix with no whitespace at its ends survives `strip` |
| PyStr.LastIndex | search_algorithms/two_way_search.py:20-23 | the last position holding a value: it holds it, and no later one does |
| PyStr.LowerAscii | src/client.py:115 | `str.lower` keeps the length |
| PyStr.Take | src/server.py:156 | slicing `s[:n]` for `n >= 0`: a prefix of `s`, of length `n` when `n` fits and all of `s` otherwise |
| Decimal.Digits | src/server.py:202 | `str(n)` is a non-empty string of digits with no leading zero |
| Decimal.ValueOfDigits | src/server.py:166 | reading back the digits of `n` gives `n` |
| Decimal.ParseSigned | src/server.py:166 | `int` of a stripped string: an optional sign then ASCII digits; `PyIntDigits` and `ParseSignedRejects` state what it accepts and rejects |
| Decimal.PyInt | src/server.py:166 | `int(s)` strips its argument first; `PyIntDigits` gives `int(str(n)) == n` |
| Decimal.PyIntDigits | src/server.py:166 | `int(str(n)) == n` |
| Decimal.ParseSignedRejects | src/server.py:164-167 | `int` rejects a string holding a character that is no digit or sign |
| Frame.Padding | src/server.py:205 | the padding is `max(k, 0)` whitespace characters |
| Frame.EncodeHeader | src/server.py:201-205 | the header is `HEADERSIZE` long whenever the digits fit, and the bare digits otherwise |
| Frame.HeaderStrips | src/server.py:166 | stripping a header gives the digits of the length |
| Frame.HeaderRoundTrip | src/server.py:166 | `int(header.strip())` gives back the encoded length |
| Frame.HeaderWidth | src/server.py:14 | every length below 10^1024 gives a header of exactly `HEADERSIZE` characters |
| Frame.MaxSizeDigits | src/server.py:201-205 | every length up to `sys.maxsize` has at most 19 digits, so its header is exactly `HEADERSIZE` long |
| Frame.VerdictText | src/server.py:111 | each verdict text is ASCII and ends in `'\n'` |
| Frame.VerdictLength | src/server.py:119 | a verdict text is shorter than 100 characters |
| Frame.VerdictOf | src/server.py:111-119 | the verdict is `STRING EXISTS` exactly when the search succeeded |
| Frame.Utf8Length | src/client.py:59 | the UTF-8 length is at least the character count, and equal exactly for ASCII text |
| Frame.Recv | src/server.py:174-175 | `recv(n)`: an error exactly when `n < 0` or `n > sys.maxsize`, `OverflowError` outside the C `ssize_t` range and `ValueError` for the other negative sizes; at most `n` characters; `recv(0)` or a closed peer reads nothing; otherwise up to `n` characters of the next chunk, what is read followed by what is left being exactly the stream before the read |
| DatasetCache.Refreshed | search_algorithms/linear_search.py:56-57 | the data searched is the file when the flag is set or nothing is cached, and the cached text otherwise |
| DatasetCache.Cache.constructor | search_algorithms/linear_search.py:33 | the cache starts empty |
| DatasetCache.Cache.Resolve | search_algorithms/linear_search.py:56-57 | returns the data to search and leaves it cached |
| DatasetCache.StaleAfterSourceChange | search_algorithms/linear_search.py:36-57 | with the lazy default, a later call searches the first text; with re-reading, it searches the new one |
| LineScan.StrippedScan | src/server.py:102-104 | the scan succeeds exactly when some line equals the query once both are stripped |
| LineScan.StrippedScanCons | src/server.py:102-104 | the scan of `[line] + rest` is "this line matches, or the rest does" |
| LineScan.HasStrippedLineBlank | search_algorithms/linear_search.py:20-26 | one more empty piece adds exactly the queries that strip to nothing |
| LineScan.FirstWindowFrom | search_algorithms/boyer_moore.py:30-44 | the result is -1 or a window start at or after `lo`, and no earlier window from `lo` matches |
| LineScan.FirstWindowOccurs | search_algorithms/boyer_moore.py:44 | there is a first window exactly when the pattern occurs |
| LineScan.FirstWindowSkip | search_algorithms/boyer_moore.py:39-42 | skipping positions that hold no window keeps the first window |
| LineScan.FirstWindowHere | search_algorithms/boyer_moore.py:35-36 | a window at `lo` is the first from `lo` |
| SkipTable.LastSkips | search_algorithms/two_way_search.py:20-23 | the last-write-wins table of distances from the end; its lemmas state its keys, values and range |
| SkipTable.LastSkipsKeys | search_algorithms/two_way_search.py:20-23 | the table has an entry exactly for the values in the prefix processed |
| SkipTable.LastSkipsValue | search_algorithms/two_way_search.py:23 | a value's entry is its distance from the end at its last position, since later writes win |
| SkipTable.LastSkipsRange | search_algorithms/two_way_search.py:23 | every entry lies between `m - k` and `m - 1` |
| SkipTable.LastSkipsAt | search_algorithms/boyer_moore.py:24-25 | the entry of `p[j]` is at most its distance from the end |
| SkipTable.Fill | search_algorithms/two_way_search.py:16-25 | the loop fills exactly the table of the last-write-wins rule |
| Server.AfterKey | src/server.py:40-41 | the stripped line is the key followed by the returned rest |
| Server.ConfigValue | src/server.py:40-41 | `split('=')[1]`: the text after the key up to the next `=`, with no `=` in it |
| Server.ReadConfig | src/server.py:25-46 | `None` exactly when no line starts with `linuxpath=`; otherwise the value of the first such line |
| Server.FindStringMatch | src/server.py:74-119 | `STRING EXISTS` exactly when some line of the file equals the message once both are stripped |
| Server.ServerFindsEveryLine | src/server.py:102-111 | every line of the file, padded with any whitespace, is found |
| Server.ServerRejectsMultiLine | src/server.py:102-119 | a message with a `'\n'` inside its stripped text is never found |
| Frame.Drop | src/server.py:156 | what a read of `n` characters leaves: the read prefix followed by what is left is the stream before the read, and a read of at least one character shrinks the script |
| Server.NextRequest | src/server.py:156-175 | one request: closed exactly on an empty header; a header `int` rejects is skipped, with no payload read (`continue`); refused exactly when the header's length lies outside `0 .. sys.maxsize`; a query's message and the input left are exactly what `recv` of the announced length returns after the header |
| Server.NextRequestReply | src/server.py:156-175 | the frames of a non-empty payload are read back as a query holding exactly that payload, and the input after them is left |
| Server.DecodeReply | src/server.py:154-175 | a query frame pair in front of the input is answered first, then the rest is decoded |
| Server.Decode | src/server.py:154-175 | every message uses up input, so a connection yields no more messages than its input holds characters and chunks |
| Server.ReadRequest | src/server.py:156-175 | the loop's reading step computes exactly `NextRequest` |
| Server.Reply | src/server.py:201-208 | a reply is two frames |
| Server.ReplyFrames | src/server.py:201-208 | the reply frames are a `HEADERSIZE` header whose `int` is the verdict's length, then the verdict |
| Server.SendVerdict | src/server.py:201-208 | sends exactly the reply frames |
| Server.Answers | src/server.py:181 | one verdict text per message |
| Server.Answer | src/server.py:181-182 | the verdict text is `STRING EXISTS` exactly when some line of the file equals the message once both are stripped, and `STRING NOT FOUND` exactly otherwise |
| Server.Responses | src/server.py:206-208 | two frames per verdict text |
| Server.ResponsesAt | src/server.py:206-208 | frame `2k` is the header of verdict `k` and frame `2k + 1` is that verdict |
| Server.AnswerOneMore | src/server.py:154-208 | answering one more message appends its reply to what was sent |
| Server.DecodeNext | src/server.py:154-175 | the session decodes one request at a time: close, skip, failure or message |
| Server.DecodeOverflow | src/server.py:174 | a header announcing more than `sys.maxsize` ends the handler with `OverflowError` before any reply, through the outer `except` |
| Server.Serve | src/server.py:153-208 | sends the replies of exactly the decoded messages, in order, each searched against the one dataset text, and ends as the session does |
| Server.HandleClients | src/server.py:122-213 | with no path configured, nothing is sent and the handler fails with `File Path not found.`; otherwise it serves the connection |
| BruteForce.LineEqualScan | search_algorithms/brute_force.py:25-28 | the scan succeeds exactly when the pattern is one of the lines |
| BruteForce.BruteForceMatch | search_algorithms/brute_force.py:5-30 | true exactly when the pattern equals a line of the text; the length guard changes nothing |
| BruteForce.BruteForceSingleLine | search_algorithms/brute_force.py:25-28 | a non-empty one-line text matches itself |
| BruteForce.BruteForceEmptyText | search_algorithms/brute_force.py:21-22 | nothing matches the empty text |
| LinearSearch.LinearSearch | search_algorithms/linear_search.py:6-29 | true exactly when some `split('\n')` piece equals the pattern once both are stripped |
| LinearSearch.LinearIgnoresPadding | search_algorithms/linear_search.py:26 | padding the pattern with whitespace changes nothing |
| LinearSearch.LinearBlankMatchesTrailingPiece | search_algorithms/linear_search.py:20-26 | a blank pattern matches any text that is empty or ends in `'\n'` |
| LinearSearch.LinearEmptyText | search_algorithms/linear_search.py:20-26 | the empty text matches exactly the blank patterns |
| LinearSearch.LinearLongPattern | search_algorithms/linear_search.py:26 | a stripped pattern longer than the text never matches |
| LinearSearch.LinearEmptyPatternNeedsBlankPiece | search_algorithms/linear_search.py:26 | the empty pattern matches only when some piece is blank |
| LinearSearch.FindStringMatch | search_algorithms/linear_search.py:36-75 | caches the data and reports `linear_search` on it |
| TwoWaySearch.Preprocess | search_algorithms/two_way_search.py:5-25 | keys are exactly the pattern's characters; each value is the distance from the end to the character's last occurrence, within `0..m-1` |
| TwoWaySearch.PreprocessAbcd | search_algorithms/two_way_search.py:5-25 | for `ABCD` the table is `A:3, B:2, C:1, D:0` |
| TwoWaySearch.TwoWayStringMatch | search_algorithms/two_way_search.py:28-52 | true exactly when the pattern's lines occur as a run of the text's lines; the empty pattern always matches |
| TwoWayChar.Min | search_algorithms/2_way_search.py:61 | `min` of two integers |
| TwoWayChar.MatchedStep | search_algorithms/2_way_search.py:45-54 | one more matching character extends the matched suffix |
| TwoWayChar.MatchedWhole | search_algorithms/2_way_search.py:49-50 | a matched suffix reaching index 0 is an occurrence |
| TwoWayChar.CharScan | search_algorithms/2_way_search.py:43-64 | the right-to-left `while j < n` scan; `CharScanSound` and `CharScanFinds` state it |
| TwoWayChar.CharScanSound | search_algorithms/2_way_search.py:43-64 | whatever the table, the scan reports only real occurrences |
| TwoWayChar.SafeMove | search_algorithms/2_way_search.py:61 | with a last-occurrence table, no occurrence starts inside the skipped range |
| TwoWayChar.MismatchMove | search_algorithms/2_way_search.py:61-62 | with a last-occurrence table, a shift keeps the first occurrence |
| TwoWayChar.MismatchAtEnd | search_algorithms/2_way_search.py:58-59 | a mismatch on the last text character leaves no occurrence |
| TwoWayChar.CharScanComplete | search_algorithms/2_way_search.py:43-64 | with a last-occurrence table, the scan succeeds exactly when an occurrence follows |
| TwoWayChar.FoundAtStart | search_algorithms/2_way_search.py:49-50 | a full right-to-left match reports the occurrence |
| TwoWayChar.CompleteOnMatch | search_algorithms/2_way_search.py:45-54 | completeness carries over a matching character |
| TwoWayChar.CompleteOnMismatch | search_algorithms/2_way_search.py:55-62 | completeness carries over a mismatch |
| TwoWayChar.CharScanFinds | search_algorithms/2_way_search.py:39-64 | with a last-occurrence table, the scan from the end of the first window finds exactly the occurrences |
| TwoWayChar.RightToLeft | search_algorithms/2_way_search.py:39-64 | the loop computes the scan |
| TwoWayChar.TwoWayStringMatch | search_algorithms/2_way_search.py:24-64 | the empty pattern raises `IndexError`; `True` only for a real occurrence; a pattern longer than the text gives `False` |
| TwoWayChar.TwoWayMissesShiftedMatch | search_algorithms/2_way_search.py:19 | `xyaz` occurs in `qxyaz`, yet the scan over `preprocess`'s table misses it |
| TwoWayChar.LastOccurrence | search_algorithms/2_way_search.py:19 | turns a distance-from-end table into a last-index table, key for key |
| TwoWayChar.LastOccurrenceSafe | search_algorithms/2_way_search.py:16-19 | the converted table gives each character of the pattern its last index |
| TwoWayChar.TwoWayFixed | search_algorithms/2_way_search.py:24-64 | with the last-index table: `IndexError` for the empty pattern, otherwise true exactly when the pattern occurs |
| BoyerMoore.SkipFor | search_algorithms/boyer_moore.py:39-42 | every jump is between 1 and `m`, and `m` for a line not in the table |
| BoyerMoore.ScanFrom | search_algorithms/boyer_moore.py:30-44 | the `while index < text_length` loop from `index`; `ScanFromSound` and `ScanFromFinds` state it |
| BoyerMoore.Window | search_algorithms/boyer_moore.py:32 | `text_lines[index:index + m]`: non-empty, at most `m` lines, the full window when it fits |
| BoyerMoore.ScanFromStep | search_algorithms/boyer_moore.py:35-42 | a mismatch continues the scan from the jumped-to index |
| BoyerMoore.ScanFromSound | search_algorithms/boyer_moore.py:30-44 | the scan returns -1 or an index at or after its start that holds the pattern |
| BoyerMoore.SafeJump | search_algorithms/boyer_moore.py:39-40 | with a safe table, no window starts inside a jump |
| BoyerMoore.ScanFromFinds | search_algorithms/boyer_moore.py:30-44 | with a safe table, the scan returns the first window from its start |
| BoyerMoore.SkipScan | search_algorithms/boyer_moore.py:30-44 | the loop computes the scan |
| BoyerMoore.BmSkips | search_algorithms/boyer_moore.py:24-26 | the table's jumps are valid, and `skip['']` is `m` |
| BoyerMoore.LastSkipsSafe | search_algorithms/boyer_moore.py:24-25 | the comprehension's table alone is safe |
| BoyerMoore.BmSkipsSafe | search_algorithms/boyer_moore.py:24-26 | the table is safe when no pattern line except the last is empty |
| BoyerMoore.BuildSkips | search_algorithms/boyer_moore.py:24-26 | builds exactly that table |
| BoyerMoore.BoyerMoore | search_algorithms/boyer_moore.py:7-44 | -1 for an empty pattern or text; a hit is a real window at index `m - 1` or later; with no blank leading pattern line, exactly the first such window |
| BoyerMoore.BoyerMooreMissesLeadingWindow | search_algorithms/boyer_moore.py:28 | `["a","b"]` starts the text `["a","b"]`, yet the scan returns -1 |
| BoyerMoore.BoyerMooreBlankLineJump | search_algorithms/boyer_moore.py:26 | `["","x"]` occurs at 2 in `["y","y","","x"]`, yet the scan returns -1 |
| BoyerMoore.BoyerMooreFixed | search_algorithms/boyer_moore.py:7-44 | from index 0 with a safe table: -1 for the empty pattern, otherwise the first window, found exactly when the pattern occurs |
| BoyerMoore.ScanVerdictSound | search_algorithms/boyer_moore.py:28-44 | the as-written scan from `m - 1` reports only real occurrences |
| BoyerMoore.ScanVerdictFirst | search_algorithms/boyer_moore.py:28-44 | with no blank line before the pattern's last, the as-written scan returns the first window from `m - 1` |
| BoyerMoore.BoyerMooreVerdict | search_algorithms/boyer_moore.py:77-98 | `STRING EXISTS` only for a non-empty message whose lines occur in the data's; with no earlier blank pattern line, exactly when a window starts at `m - 1` or later |
| BoyerMoore.VerdictMissesWholeDataset | search_algorithms/boyer_moore.py:81 | the message `"a\nb"` is reported missing from the data `"a\nb"`, in which it occurs |
| BoyerMoore.FindStringMatch | search_algorithms/boyer_moore.py:51-98 | caches the data and reports the as-written `boyer_moore`'s verdict on it |
| BoyerMoore.FindStringMatchFixed | search_algorithms/boyer_moore.py:51-98 | caches the data and reports, with the corrected scan, whether the message's lines occur as a run of the data's lines |
| KnuthMorrisPratt.BorderChain | search_algorithms/knuth_morris_algorithm.py:33-34 | a shorter match ending at the same place is a border of the longer one |
| KnuthMorrisPratt.Extend | search_algorithms/knuth_morris_algorithm.py:47-48 | a match grows by one exactly when the next characters agree |
| KnuthMorrisPratt.FallBack | search_algorithms/knuth_morris_algorithm.py:45-46 | falling back to `pi[q - 1]` keeps the longest match that can still grow |
| KnuthMorrisPratt.Advance | search_algorithms/knuth_morris_algorithm.py:47-48 | after the compare, `q` is the longest match ending at the next position |
| KnuthMorrisPratt.LongestEmpty | search_algorithms/knuth_morris_algorithm.py:43 | at the start the longest match is empty |
| KnuthMorrisPratt.PrefixTableExtend | search_algorithms/knuth_morris_algorithm.py:37 | storing the longest border extends the prefix table |
| KnuthMorrisPratt.Step | search_algorithms/knuth_morris_algorithm.py:33-36 | one fall-back-and-advance step leaves `k` the longest match ending one further |
| KnuthMorrisPratt.ComputePrefixFunction | search_algorithms/knuth_morris_algorithm.py:19-38 | `pi[q]` is the length of the longest proper border of `pattern[..q+1]`, between 0 and `q` |
| KnuthMorrisPratt.LineAround | search_algorithms/knuth_morris_algorithm.py:51-56 | the bounds are the nearest `'\n'` (or the text's ends) around the match |
| KnuthMorrisPratt.IsWholeLine | search_algorithms/knuth_morris_algorithm.py:51-59 | a yes means the pattern is a whole line; on a one-line text, yes exactly when it equals the pattern |
| KnuthMorrisPratt.KnuthSearch | search_algorithms/knuth_morris_algorithm.py:6-62 | `IndexError` exactly for an empty pattern on a non-empty text; `True` only for a pattern that is a whole line; on one line, `True` exactly when the line equals the pattern |
| KnuthMorrisPratt.KnuthVerdict | search_algorithms/knuth_morris_algorithm.py:95-115 | a non-empty message is found exactly when it equals some line; the empty message raises unless every line is empty |
| KnuthMorrisPratt.FindStringMatch | search_algorithms/knuth_morris_algorithm.py:68-115 | caches the data and reports the line-by-line verdict |
| NaiveSearch.NaiveScan | search_algorithms/naive_search.py:22-24 | the scan succeeds exactly when some stripped line equals the pattern |
| NaiveSearch.NaiveStringMatch | search_algorithms/naive_search.py:5-39 | `STRING EXISTS` exactly when some stripped line equals the unstripped pattern; the empty text gives `NOT FOUND` |
| NaiveSearch.NaivePaddedPattern | search_algorithms/naive_search.py:24 | a pattern starting or ending in whitespace is never found |
| NaiveSearch.NaiveFindsStrippedLine | search_algorithms/naive_search.py:22-31 | every stripped line of the text is found |
| NaiveSearch.Globals.constructor | search_algorithms/naive_search.py:57 | module globals start with no `file_data` binding |
| NaiveSearch.FindStringMatch | search_algorithms/naive_search.py:42-72 | with the flag set, the file is loaded and searched; without it, an unbound `file_data` raises `NameError`; otherwise the bound text is searched |
| NaiveSearch.FirstDefaultCallFails | search_algorithms/naive_search.py:62 | the first call with the default flag raises `NameError` |
| NaiveSearch.FindStringMatchFixed | search_algorithms/naive_search.py:42-72 | with `file_data = None` bound: caches the data and reports the naive verdict on it |
| NaiveSearch.FirstDefaultCallFixed | search_algorithms/naive_search.py:62-69 | the first default call searches the file |
| NativeSearch.ContainsScan | search_algorithms/native_search.py:20-21 | the scan succeeds exactly when the pattern occurs inside some line |
| NativeSearch.NativeStringMatch | search_algorithms/native_search.py:5-36 | `STRING EXISTS` exactly when `pattern in line` for some line; the empty text gives `NOT FOUND` |
| NativeSearch.NativeCoversBruteForce | search_algorithms/native_search.py:20-21 | every text the whole-line brute-force matcher accepts is accepted here as well |
| NativeSearch.NativeEmptyPattern | search_algorithms/native_search.py:21 | the empty pattern is found exactly in a non-empty text |
| NativeSearch.NativeNewlinePattern | search_algorithms/native_search.py:20-21 | a pattern holding `'\n'` is never found |
| KarpLines.LineWindowScan | search_algorithms/karp_algorithm.py:27-29 | the window loop from `i`; `LineWindowScanFinds` states it |
| KarpLines.LineWindowScanFinds | search_algorithms/karp_algorithm.py:27-29 | the window scan from `i` succeeds exactly when a window at or after `i` matches |
| KarpLines.KarpRabinStringMatch | search_algorithms/karp_algorithm.py:5-46 | `STRING EXISTS` exactly when the pattern's lines occur as a run of the text's lines; the empty pattern always; more pattern lines than text lines never |
| KarpLines.KarpAgreesWithTwoWay | search_algorithms/karp_algorithm.py:20-29 | this matcher and the line-window two-way matcher agree on every input |
| KarpLines.FindStringMatch | search_algorithms/karp_algorithm.py:52-78 | caches the data and reports the line-window verdict on it |
| KarpLines.LoadedCacheIsReused | search_algorithms/karp_algorithm.py:72-73 | with the default flag, a second call answers from the first text |
| KarpRolling.Roll | search_algorithms/karp.py:43-46 | the rolled hash lies in `0 .. sys.maxsize - 1` |
| KarpRolling.RollingScan | search_algorithms/karp.py:28-46 | the `for` loop with its rolling `text_hash`; `RollingScanSound` states it |
| KarpRolling.KarpVerdict | search_algorithms/karp.py:21-46 | `STRING EXISTS` only when the pattern occurs, and always for the empty pattern |
| KarpRolling.RollingScanSound | search_algorithms/karp.py:28-31 | whatever `hash` is, a reported hit is a real occurrence |
| KarpRolling.KarpRabinStringMatch | search_algorithms/karp.py:5-46 | the loop computes the rolling scan; a hit is a real occurrence; the empty pattern and a text starting with the pattern hit; a pattern longer than the text never does |
| KarpRolling.RollingMissesLaterWindow | search_algorithms/karp.py:44-46 | with the hash that maps every string to 0, `"b"` occurs in `"ab"` yet is reported missing |
| KarpRolling.FreshScanFinds | search_algorithms/karp.py:28-31 | hashing every window afresh finds exactly a first window |
| KarpRolling.KarpRabinFixed | search_algorithms/karp.py:5-46 | with fresh hashes, `STRING EXISTS` exactly when the pattern occurs in the text |
| DepthFirstSearch.DfsHelper | search_algorithms/depth_first_serach.py:14-54 | `dfs_helper`; `DfsHelperNext` and `DfsHelperLines` state it |
| DepthFirstSearch.DfsHelperNext | search_algorithms/depth_first_serach.py:34-54 | one call compares the segment up to the next `'\n'` (or the end) and otherwise continues after that `'\n'` |
| DepthFirstSearch.DfsHelperLines | search_algorithms/depth_first_serach.py:14-54 | from any start, the helper scans exactly the lines of the rest of the text |
| DepthFirstSearch.DfsSearch | search_algorithms/depth_first_serach.py:1-57 | true exactly when some `'\n'`-delimited segment equals the pattern once both are stripped (the segment after a final `'\n'` excluded); false on the empty text |
| DepthFirstSearch.DfsAgreesWithLinear | search_algorithms/depth_first_serach.py:34-54 | on a non-empty text without a final `'\n'`, the result equals `linear_search` |
| DepthFirstSearch.DfsVersusLinearAtEnd | search_algorithms/depth_first_serach.py:29-30 | on an empty text or one ending in `'\n'`, `linear_search` also accepts every blank pattern, and otherwise agrees |
| Client.SendSearchQuery | src/client.py:35-59 | sends the server's reply framing of the query, whose header reads back as the character count |
| Client.HeaderCountsCharacters | src/client.py:47 | for `é` the header announces 1 while the payload is 2 bytes |
| Client.QueryFrames | src/client.py:35-59 | header then query; the header reads back as the query's UTF-8 length; for ASCII queries the frames are the as-written ones |
| Client.SendSearchQueryUtf8 | src/client.py:35-59 | sends exactly those frames |
| Client.Shown | src/client.py:90 | the line is the fixed prefix, the length's digits, ` : `, and ends with the payload read |
| Client.Reported | src/client.py:92-97 | a `ValueError` raises `Invalid message header`; every other error raises `Error reading message from server` |
| Client.ReceiveMessage | src/client.py:62-97 | succeeds exactly when the header parses to a length in `0 .. sys.maxsize`; a parsed length outside the C `ssize_t` range raises `Error reading message from server`; every other failure raises `Invalid message header`; a success uses up input |
| Client.ReceiveEmptyHeader | src/client.py:77-83 | an empty header raises `Invalid message header`, after printing |
| Client.ReceiveNonNumericHeader | src/client.py:83 | a header character that is no digit, sign or whitespace raises `Invalid message header` |
| Client.ReceiveParsed | src/client.py:83-90 | a header chunk of length `n` in `1 .. sys.maxsize`, then a chunk: the line for `n` and the first `n` characters of that chunk, the rest left unread |
| Client.ReceiveZero | src/client.py:83-90 | a header of length 0 prints `[Received message from server] 0 : ` and reads nothing after the header |
| Client.ReceiveOverflow | src/client.py:86 | a length beyond `sys.maxsize` makes `recv` raise `OverflowError`, reported as `Error reading message from server` |
| Client.ReceiveReply | src/client.py:74-90 | a server reply of any length up to `sys.maxsize`, followed by anything, is parsed to its length and text, and leaves the rest |
| Client.AllFrames | src/client.py:118 | two frames per query, each pair `send_search_query`'s |
| Client.QueriesClean | src/client.py:109-116 | no query sent is blank, padded with whitespace, or a spelling of `exit` |
| Client.Run | src/client.py:100-121 | what `main` sends, prints and how it ends; `RunSendsQueries` and `RunStopsAtExit` state it |
| Client.ServerReadsQueries | src/client.py:118 | the server decodes the frames of non-empty queries back to exactly those queries, in order |
| Client.RunSendsQueries | src/client.py:100-121 | a run no exception ends sends `send_search_query`'s frames of exactly the queries, in order, and prints one line each |
| Client.RunStopsAtExit | src/client.py:115-116 | an `exit` line in any letter case stops the loop before the input ends |
| Client.RunNext | src/client.py:107-121 | one pass of the loop: skip, exit, failure, or an answered query |
| Client.ClientMain | src/client.py:100-121 | the loop sends, prints and ends exactly as `Run` says |

## Left out

- Sockets, `ssl`, threads, `time`, `sys.exit`, `print`, file reads and
  `config.ini` access are not modelled. The dataset and the configuration
  are parameters, and connections are scripts of chunks. A chunk stands
  for what the peer's data lets one `recv` return at once. How the
  network splits data into chunks is part of the script, so the model
  covers every split but does not say which one occurs.
- `fetch_file_data` errors are not modelled. A missing or unreadable
  dataset ends the process.
- Timing fields of the `find_string_match` result tuples are not
  modelled, and neither is the elapsed-time printing. Only the verdict
  text is.
- `str.splitlines` is modelled on `'\n'` only. Python also breaks at
  `'\r'`, `'\x0b'`, `'\x0c'`, `'\x1c'`–`'\x1e'`, `'\x85'`, `'\u2028'`
  and `'\u2029'`.
- `str.strip` is modelled on ASCII whitespace only, not on Unicode
  whitespace.
- `str.lower` is modelled on ASCII letters only. The `exit` test in
  `main` works on ASCII.
- Decoding and encoding are not modelled. `recv` hands back characters,
  not bytes. UTF-8 appears only as a length, `Frame.Utf8Length`.
- `Server.FindStringMatch`: the `REREAD_ON_QUERY=False` branch tests for
  a global `file_data` that the server module never binds. So both
  settings fetch the file, and the parameter is kept only for its
  signature.
- `find_string_match` of `brute_force.py` and `two_way_search.py` is not
  modelled. Neither module imports `read_config` or `fetch_file_data`,
  so both functions raise `NameError` on every call. Their matchers are
  modelled.
- `TwoWaySearch.TwoWayStringMatch` builds `preprocess`'s table but never
  uses it. The model keeps `Preprocess` separate.
- Frame.Recv: a size up to `sys.maxsize` that the process cannot
  allocate makes CPython's `recv` raise `MemoryError`. That depends on
  the machine's memory, so the model returns the chunk.
- A `recv` that cuts a multi-byte character makes `.decode('UTF-8')`
  raise `UnicodeDecodeError`. The model has characters, not bytes, so
  this is not modelled. In the server that error ends the handler. In
  the client it would be reported as `Invalid message header`, since it
  is a `ValueError`.
- DepthFirstSearch.DfsSearch: the model assumes unbounded recursion
  depth. `dfs_helper` recurses once per line, and CPython does not
  eliminate tail calls. Under the default recursion limit of 1000, a
  text with about a thousand lines before the first match, or with no
  match, raises `RecursionError`. The model returns the Boolean.
- Server.Serve: one dataset text answers every message of a connection.
  `find_string_match` re-reads the file for each message, so a file
  changed during a connection is not modelled. `Server.HandleClients`
  inherits this.
- Test expectations that the code does not meet (for instance a client
  test expecting a bare `Error receiving message: `) are not modelled.
  The model follows the code.
- `KarpRolling.KarpRabinStringMatch`: Python's `hash` of `str` is
  randomised per process, so it is a parameter. The as-written scan is
  shown sound for every hash function. Its completeness fails (see
  Findings), so the contract does not state it.
- `Client.Run` and `Client.ClientMain` follow `main` as written and send
  `send_search_query`'s frames. The corrected framing,
  `Client.QueryFrames`, stands on its own. It coincides with the
  as-written framing on ASCII queries (`Client.QueryFrames`, third
  ensures).
- Python's `int()` also accepts `_` between digits and non-ASCII digits.
  `Decimal.PyInt` accepts ASCII digits with an optional sign and
  surrounding whitespace.

## Findings

| source | as written | input that shows it | evidently intended | confidence | as-written member | corrected member |
|---|---|---|---|---|---|---|
| search_algorithms/boyer_moore.py:28 | the scan starts at `index = m - 1`, so no window before it is ever compared | pattern lines `["a","b"]`, text lines `["a","b"]`: returns -1 | every window from index 0 is considered | not executed | BoyerMoore.BoyerMooreMissesLeadingWindow | BoyerMoore.BoyerMooreFixed |
| search_algorithms/boyer_moore.py:26 | `skip[''] = m` overwrites the jump of an empty pattern line, so a window is jumped over | pattern lines `["","x"]`, text lines `["y","y","","x"]`: returns -1 | the comprehension's jump for `''` is kept | not executed | BoyerMoore.BoyerMooreBlankLineJump | BoyerMoore.BoyerMooreFixed |
| search_algorithms/2_way_search.py:19 | the table holds distance from the end (`m - i - 1`), but line 61 uses it as a last-occurrence index, so the shift overshoots | pattern `xyaz`, text `qxyaz`: returns `False` | the table holds each character's last index | not executed | TwoWayChar.TwoWayMissesShiftedMatch | TwoWayChar.TwoWayFixed |
| search_algorithms/karp.py:44-46 | the rolling update is the polynomial hash, while the hashes compared come from `hash()`, so later windows are compared against unrelated values | pattern `b`, text `ab`, with the hash that maps every string to 0: returns `STRING NOT FOUND` | each window's hash is computed by the same function as the pattern's | not executed | KarpRolling.RollingMissesLaterWindow | KarpRolling.KarpRabinFixed |
| search_algorithms/naive_search.py:62 | `file_data` is declared `global` but never bound at module level, so `file_data is None` raises `NameError` | the first call with the default `REREAD_ON_QUERY=False` | a module-level `file_data = None`, as every other matcher module has | not executed | NaiveSearch.FirstDefaultCallFails | NaiveSearch.FindStringMatchFixed |
| src/client.py:47 | the header announces `len(search_query)` characters, while line 59 sends the UTF-8 encoding | query `é`: the header says 1, the payload is 2 bytes. The server's `recv(1)` gets the first byte, `.decode('UTF-8')` at server.py:174-175 raises `UnicodeDecodeError` outside the inner `try`, and the outer `except` at 210-213 ends the handler | the header announces the encoded length | not executed | Client.HeaderCountsCharacters | Client.QueryFrames |
