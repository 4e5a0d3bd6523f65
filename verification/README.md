# Access-log statistics, modelled in Dafny

This project models the core of a small access-log analyser, `parser_for_log_file.py`. The
analyser reads every `.log` file in a folder and parses each line against a fixed
combined-log pattern:

    host - - [timestamp] "request" status bytes "referer" "user_agent" duration

It keeps the lines that match, each as a record of eight text fields. It then reports four
statistics over the records:

- the number of records;
- the number of requests per method (the request line's text before its first space);
- the three most frequent hosts, with their counts;
- the three records with the greatest duration, where durations are compared as text.

The model has five modules.

- `LogLine` (`log_line.dfy`): the line parser.
  - The regular expression is not run by an engine. It is stated as a predicate,
    `IsReadingOf`: the line is the record printed with the fixed separators, optionally
    followed by one newline. Status, bytes and duration are non-empty digit runs. No field
    contains a newline.
  - A group-by-group matcher, `MatchFrom`, tries each lazy group's earliest end first. It ends
    each digit group at the end of its digit run.
  - The lemmas prove three things. The parser is sound and complete for that predicate. Among
    all readings of a line, it returns the one whose groups end earliest, which is the one the
    backtracking engine reports. Printing a well-formed record whose host has no space and whose other text fields contain no closing `]` or `"`, and parsing the result, gives the record back.
- `Collect` (`collect.dfy`): the accumulation loop over the files' lines. It is a method with
  two nested loops that appends to a sequence. It is proved equal to a recursive definition,
  and that definition keeps exactly the lines that parse, in order.
- `Counter` (`counter.dfy`): the insertion-ordered frequency counter.
  - A new key is appended with count 1. A known key is incremented where it stands.
  - Each count is exact, the keys are distinct and in first-seen order, and the counts add up
    to the number of keys counted.
- `Ranking` (`ranking.dfy`): a stable descending sort and its first `n` entries, for any strict
  weak order.
  - This covers both `sorted(..., reverse=True)[:3]` and `Counter.most_common(3)`. The latter
    is documented to equal a stable sort by count followed by a slice.
  - The result is proved to be descending and a sub-multiset of the input. Nothing left out
    ranks above the last entry kept. Tied entries keep their input order, and the kept ones of
    any tie class are the first of that class.
- `Aggregates` (`aggregates.dfy`): the four statistics, built on the modules above.

## Model

| member | source | states |
|---|---|---|
| LogLine.ParseLog | parser_for_log_file.py:8-24 | a record is returned only for a line the pattern describes: all eight groups present, status/bytes/duration non-empty digit strings, no field holding a newline, and the record printed with the separators is the line, or the line without its one trailing newline |
| LogLine.ParseLogIff | parser_for_log_file.py:10-11 | the parser returns a record exactly when the line has some reading by the pattern, and None otherwise |
| LogLine.ParseLogComplete | parser_for_log_file.py:9-12 | every line with a reading is parsed, and the groups returned end no later, group by group, than those of any reading (the lazy `.*?` choice) |
| LogLine.ParseRendered | parser_for_log_file.py:9-22 | a well-formed record whose lazy fields do not contain their closing character is read back exactly from its printed line, with or without a trailing newline |
| LogLine.DigitRun | parser_for_log_file.py:9 | the greedy `\d+` run: the longest prefix made only of digits |
| LogLine.MatchFrom | parser_for_log_file.py:9-10 | every split the matcher returns is a match of the remaining groups and separators |
| LogLine.MatchFromFindsEarliest | parser_for_log_file.py:9-10 | whenever the remaining pattern has a match, the matcher finds one whose groups end no later than it |
| LogLine.MatchFromExact | parser_for_log_file.py:9-10 | when no lazy group contains the first character of its closing separator, the matcher returns exactly that split |
| Collect.CollectRecords | parser_for_log_file.py:30-38 | looping over the files and their lines, appending each parsed record, yields the records of the lines that parse, over all files, in order |
| Collect.CollectWith | parser_for_log_file.py:34-38 | the same two nested loops, for any line parser: after each line, the collection is the records of all lines so far; at the end, of all lines of all files |
| Collect.KeptSnoc | parser_for_log_file.py:37-38 | one more line appends its record when it parses and leaves the collection unchanged when it does not |
| Collect.KeepsExactlyAcceptedLines | parser_for_log_file.py:36-38 | the k-th record is what the k-th accepted line parses to; accepted lines are taken in increasing order; a line is taken exactly when it parses |
| Collect.ParsedRecordsAreReadings | parser_for_log_file.py:34-38 | each collected record is a reading of its line, and every line that has a reading is collected |
| Collect.KeptAppend | parser_for_log_file.py:30-38 | collecting two runs of lines one after the other gives the concatenation of their records |
| Collect.KeptCount | parser_for_log_file.py:37-38 | one record per accepted line: the number of records is the number of lines that parse |
| Aggregates.TotalRequests | parser_for_log_file.py:43-44 | the total number of requests, the length of the collection; stated by TotalOfParsedLines |
| Aggregates.TotalOfParsedLines | parser_for_log_file.py:43-44 | the total over the collected lines is the number of lines that parse |
| Aggregates.RequestMethod | parser_for_log_file.py:48 | the method is a prefix of the request with no space in it, followed by a space or by the end of the request |
| Aggregates.RequestMethodUnique | parser_for_log_file.py:48 | any prefix with those properties is the method, so the method is the first piece of a split on single spaces |
| Aggregates.MethodCounts | parser_for_log_file.py:47-49 | the requests per method, a count over each record's method; stated by MethodCountsSpec |
| Aggregates.MethodCountsSpec | parser_for_log_file.py:47-49 | one entry per distinct method, holding the number of records with that method; entries in first-seen order; the counts add up to the total |
| Counter.Tally | parser_for_log_file.py:48 | counting keys gives entries with distinct keys, exactly the keys counted, each with its number of occurrences, in first-seen order |
| Counter.TallyStep | parser_for_log_file.py:48 | counting one more key keeps every part of the invariant: distinct keys, exactly the keys counted, exact counts, first-seen order |
| Counter.Bump | parser_for_log_file.py:48 | one more occurrence appends a new key with count 1, or increments a known key's entry where it stands |
| Counter.FirstSeen | parser_for_log_file.py:48 | the index of the first occurrence of a key, or the length when it does not occur |
| Counter.TallySum | parser_for_log_file.py:48 | the counts add up to the number of keys counted |
| Counter.TallySize | parser_for_log_file.py:54 | there is one entry per distinct key |
| Ranking.SortDescending | parser_for_log_file.py:59 | the sort is a permutation of its input |
| Ranking.SortDescendingIsDescending | parser_for_log_file.py:59 | no entry of the sorted sequence is ranked above an earlier one |
| Ranking.SortKeepsTies | parser_for_log_file.py:59 | stability: the entries tied with any entry keep their input order |
| Ranking.SortKeepsTieOrder | parser_for_log_file.py:59 | stability, pairwise: a relation that held between tied entries in input order still holds in sorted order |
| Ranking.Top | parser_for_log_file.py:54 | the first n entries: min(n, length) of them, drawn from the input with multiplicity |
| Ranking.TopDescending | parser_for_log_file.py:54 | the kept entries are in descending order |
| Ranking.TopLeavesOutNothingAbove | parser_for_log_file.py:54 | no entry left out ranks above the last entry kept |
| Ranking.TopLeavesOutLaterTies | parser_for_log_file.py:54 | an entry left out that is tied with the last kept one comes after it in input order |
| Ranking.TopKeepsTies | parser_for_log_file.py:59-60 | the kept entries of any tie class are the first entries of that class, in input order |
| Ranking.TopKeepsTieOrder | parser_for_log_file.py:54 | tied kept entries stay in input order |
| Aggregates.Top3Ips | parser_for_log_file.py:52-55 | the three most frequent hosts with their counts; stated by Top3IpsCounts, Top3IpsOrder, Top3IpsOmitted |
| Aggregates.Top3IpsCounts | parser_for_log_file.py:52-55 | min(3, number of distinct hosts) entries, each a host with its exact number of records, no host twice |
| Aggregates.Top3IpsOrder | parser_for_log_file.py:52-55 | counts never increase along the result; equal counts are in the order their hosts first occur |
| Aggregates.Top3IpsOmitted | parser_for_log_file.py:52-55 | a host left out has no more records than the last host kept, and with as many it first occurs later |
| Aggregates.LexLessAsymmetric | parser_for_log_file.py:59 | text order is asymmetric |
| Aggregates.LexLessTransitive | parser_for_log_file.py:59 | text order is transitive |
| Aggregates.LexLessTotal | parser_for_log_file.py:59 | text order is total: two texts are equal or one is less |
| Aggregates.LongerDurationOrder | parser_for_log_file.py:59 | ranking records by duration text is a strict weak order |
| Aggregates.TiedIsSameDuration | parser_for_log_file.py:59 | two records are tied exactly when their durations are the same text |
| Aggregates.Top3Longest | parser_for_log_file.py:58-60 | the three records with the greatest duration text; stated by Top3LongestShape, Top3LongestOmitted, Top3LongestStable |
| Aggregates.Top3LongestShape | parser_for_log_file.py:58-60 | min(3, number of records) records drawn from the input with multiplicity, their durations never increasing as text |
| Aggregates.Top3LongestOmitted | parser_for_log_file.py:58-60 | no record left out has a duration greater, as text, than the last one kept |
| Aggregates.Top3LongestStable | parser_for_log_file.py:58-60 | the kept records with any given duration are the first records with that duration, in input order |
| Aggregates.TextOrderMisranks | parser_for_log_file.py:59 | as written, a record of duration "9" is ranked before one of duration "80" |
| Aggregates.Top3LongestByValue | parser_for_log_file.py:58-60 | the corrected ranking, by the number each duration denotes; stated by Top3LongestByValueSpec |
| Aggregates.Top3LongestByValueSpec | parser_for_log_file.py:58-60 | ranking by the number the duration denotes: descending by value, nothing left out with a greater value, ties in input order |

## Left out

- Listing the folder, the regular-file check and the `.log` name filter are not modelled. The collector's input is the text lines of each selected file, in listing order.
- Opening and reading files is not modelled. Each line is given as the file iterator yields it, with its newline if it has one.
- The re-decoding of each line (encode as Latin-1, decode as UTF-8) is not modelled: lines are given already decoded. Neither of its errors is modelled, and each stops the whole run: the encoding error for a character above U+00FF, and the decoding error for bytes that are not valid UTF-8.
- Writing the statistics as a JSON document is not modelled (I/O and serialisation only).
- Locating the script folder and prompting for a folder path are not modelled (user interaction only).
- The console report is not modelled. This includes the `split(' ')[1]` of the request when a top request is printed, which raises an error for a request without a space.
- LogLine.ParseLog, LogLine.DigitRun: `\d` is modelled as the ASCII digits 0-9. Python's `\d` on text also matches other Unicode decimal digits. A line whose status, bytes or duration is written in such digits (Arabic-Indic digits, say) is parsed by the code. The model returns None for it, or, when the line also has a reading that uses only ASCII digits, that other reading: a longer lazy field and different numeric fields, which can also change the method counted for it.
- The regular-expression engine itself is not modelled. Its result is characterised instead: which lines match, and which split is reported.
- `Counter.most_common(3)` selects with a heap. It is modelled by its documented equivalent, a stable sort by count followed by the first three entries.
- The counter's dictionary interface is modelled as a list of (key, count) entries in insertion order.
- The method is `request.split(' ')[0]`: the text before the first single space. A request starting with a space has an empty method, and a tab does not separate. The model follows this.

## Findings

| source | as written | input that shows it | evidently intended | confidence | as-written member | corrected member |
|---|---|---|---|---|---|---|
| parser_for_log_file.py:59 | records are ranked by `duration` compared as text | two records with durations "80" and "9": "9" is ranked first, though 9 < 80 | rank the longest requests by the number the duration denotes | medium, not executed | Aggregates.TextOrderMisranks | Aggregates.Top3LongestByValueSpec |

The faithful statistic, `Aggregates.Top3Longest`, keeps the text comparison the code performs.
`Aggregates.Top3LongestByValue` is the numeric ranking, with its properties proved alongside.
