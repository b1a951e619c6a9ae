# Tagging blog posts: a Dafny model

`tagging.py` builds a tag cloud for a static blog. Each post is read into a `Document`:
its first line is the title, the header lines after it may carry a
`meta-creation_date:` line and a `Tags:` line, and the body may hold `[[name words]]`
markers that tag the post as well. The first `<p>…</p>` paragraph becomes the excerpt.
A `DocumentTree` then indexes documents by tag. `cloudify` turns the index into
`(tag, bucket, url)` triples, where the bucket is the natural logarithm of the tag's
document count, rounded down.

This project models that core in Dafny and proves what it promises:

- `options.dfy`: the `Option` type. It stands for the source's falsy "nothing found" values.
- `strings.dfy`: Python 2's byte-string helpers. These are `strip`, `split` on one
  character, and case-insensitive search. The character classes are the ASCII ones.
- `dates.dfy`: a date as an integer record that `datetime` would accept. `strptime` is
  modelled for the three formats the parser tries, following the field patterns of
  Python 2.7's `_strptime`. Each working format is characterised by a grammar: a value
  parses to a date exactly when it spells that date in fields the pattern allows, with or
  without leading zeros.
- `extractors.dfy`: the four `_extract*` methods. Each is a total function of a string,
  with a hand-written scanner for its regular expression.
- `documents.dfy`: `class Document`. `Parse` reads the title and then runs the `_parseLines` loop
  (`ScanHeader`) over the lines that `readline` returns. It is proved equal to the loop-free
  specification `ParseText`, whose properties `ParseTextSpec` states.
- `documenttrees.dfy`: `class DocumentTree` with `Add` and `Cloudify`. It also holds the
  integer form of the logarithmic bucket rule and the inactive linear rule from the comments.

## Model

| member | source | states |
|---|---|---|
| Strings.Strip | tagging.py:65 | result has no whitespace at either end and sits in the input with only whitespace around it; stripped input is unchanged |
| Strings.Split | tagging.py:90 | one piece more than there are separators, and no piece contains the separator |
| Strings.JoinSplit | tagging.py:90 | joining the pieces of `split` with the separator gives back the original string |
| Strings.FindCI | tagging.py:104 | the first index at or after `from` where the pattern occurs in any case; no earlier occurrence exists |
| Dates.Strptime | tagging.py:98 | a parsed date is always a valid calendar date; the `%m/%d/%Y %H:%M:%s` format never parses |
| Dates.StrptimeMonthDayYearSpec | tagging.py:98 | `%m/%d/%Y` parses a value to a date exactly when the value is month, day and year fields that `_strptime` accepts, separated by `/`, spelling that valid date at midnight |
| Dates.StrptimeMonthDayYearHourMinuteSpec | tagging.py:98 | `%m/%d/%Y %H:%M` parses a value to a date exactly when the value is month, day and year fields, whitespace, and hour and minute fields, spelling that valid date |
| Dates.FirstParse | tagging.py:96-100 | nothing exactly when every format fails; otherwise the date of the first format that succeeds, which is valid |
| Dates.FormatDateRoundTrip | tagging.py:96-98 | every valid date written zero-padded as `MM/DD/YYYY HH:MM` is read back exactly by the first format |
| Dates.FormatDateUnpaddedRoundTrip | tagging.py:96-98 | every valid date written without leading zeros, as in `8/13/2012 10:20`, is read back exactly by the first format |
| Dates.FormatDayRoundTrip | tagging.py:96-98 | every valid date at midnight written as `MM/DD/YYYY` is read back exactly by `%m/%d/%Y` |
| Extractors.CreationDateValue | tagging.py:94 | a value is found only on a line starting `meta-creation_date:`; it holds no newline and starts with no whitespace |
| Extractors.Captured | tagging.py:94 | `(.*?)$` captures the text less a final newline, and matches exactly when no other newline is in it |
| Extractors.CreationDateValueSpec | tagging.py:94 | the value is the line after the key and a run of whitespace, less a final newline; a key line with no newline before its last character always yields a value |
| Extractors.ExtractDate | tagging.py:93-101 | a date only for a `meta-creation_date:` line with a captured value; the date is valid |
| Extractors.ExtractDateFallback | tagging.py:95-100 | the date of a captured value is its `%m/%d/%Y %H:%M` parse when there is one, and its `%m/%d/%Y` parse otherwise |
| Extractors.ExtractDateOfSpelling | tagging.py:93-101 | a header line of the key, any whitespace and a value spelling a date in either working format, padded or not, yields exactly that date |
| Extractors.ExtractDateRoundTrip | tagging.py:93-101 | a header line `meta-creation_date: MM/DD/YYYY HH:MM` plus newline yields exactly the date written |
| Extractors.ExtractExplicitTags | tagging.py:86-91 | non-empty exactly when the line begins with `Tags:`; then there is one tag per comma plus one, each stripped and comma-free |
| Extractors.ExplicitTagsArePieces | tagging.py:90 | the tags are the stripped pieces of the text after `Tags:`, and the unstripped pieces joined by commas give that text back |
| Extractors.TagsLineIsNotDateLine | tagging.py:68-75 | a `Tags:` line never parses as a date line, so the loop reaches its tags |
| Extractors.UpperCaseTagsKeyNotRecognised | tagging.py:88 | `TAGS: atag, btag` yields no tags: the key is case-sensitive |
| Extractors.ExtractExcerpt | tagging.py:103-105 | a non-empty excerpt runs from the first `<p>` to the first `</p` after it (any case); whenever such a pair exists the result is exactly the text between; no `<p>` means no excerpt |
| Extractors.UnclosedParagraphHasNoExcerpt | tagging.py:104-105 | when the first `<p>` has no `</p` after it, the excerpt is empty |
| Extractors.CloseEnd | tagging.py:109 | `[^[]*?\]\]` ends just after the first `]]` reached without crossing a `[`, and fails exactly when there is no such `]]` |
| Extractors.MarkerAt | tagging.py:109 | a marker is `[[`, a whole non-empty run of word characters as its name, and text up to the first `]]` with no `[` before it; no marker exactly when no such name and `]]` exist at that position |
| Extractors.RunEnd | tagging.py:109 | the outer `+` swallows directly abutting markers; the name kept is the last marker's name, and no marker starts where the run stops; the run is contiguous: any marker inside it that no marker directly follows is the one whose name is kept |
| Extractors.NoMarkerInside | tagging.py:109 | a marker cannot start inside another marker, because `[` is neither a word character nor allowed before the closing `]]` |
| Extractors.TagsFrom | tagging.py:110 | every name reported is the name of a marker that starts at or after the search position and that no marker directly follows |
| Extractors.TagsFromFinds | tagging.py:109-110 | conversely, the name of every marker at or after the search position that no marker directly follows is reported |
| Extractors.TagsFromEmpty | tagging.py:110 | the search finds nothing exactly when no marker starts at or after its position |
| Extractors.ExtractTagsFromBody | tagging.py:107-110 | the body tags are exactly the names of the markers of the text that no marker directly follows (the last marker of each abutting run), and there are none exactly when no marker starts anywhere |
| Extractors.NoOpeningNoBodyTags | tagging.py:107-110 | a text with no `[[` has no body tags |
| Extractors.MarkerMatched | tagging.py:109 | a well-formed `[[name words]]` is matched in full whatever surrounds it, and reports `name` |
| Extractors.AbuttingMarkersReportLastName | tagging.py:109-110 | `[[a x]][[b y]]` yields only `b` |
| Extractors.SeparatedMarkersReportBothNames | tagging.py:109-110 | `[[a x]] [[b y]]` yields `a` then `b` |
| Documents.LinesFrom | tagging.py:66-76 | the lines `readline` returns are non-empty |
| Documents.LinesFromShape | tagging.py:66-76 | every line but the last ends with a newline, and no line holds a newline anywhere else |
| Documents.LinesCoverText | tagging.py:66-76 | the lines `readline` returns, put back together, are the rest of the text |
| Documents.HeaderScan | tagging.py:66-76 | the header loop keeps a valid date valid |
| Documents.HeaderScanSpec | tagging.py:66-76 | tags come from the first `Tags:` line, or stay unchanged without one; the date is the last parseable date line before it, or stays unchanged |
| Documents.TagsLineIndex | tagging.py:72-75 | the index of the first line starting `Tags:`, or the number of lines when there is none |
| Documents.LastDate | tagging.py:68-70 | the starting date when no line parses as a date line, otherwise the date of some line |
| Documents.LastDateIsLastDateLine | tagging.py:68-70 | when line `i` has a date and no later line does, the result is line `i`'s date |
| Documents.Dedup | tagging.py:80 | the same elements as the input, each exactly once |
| Documents.ParseTextSpec | tagging.py:64-84 | title is the first line stripped, with no newline in it; the date comes from the last parseable date line before the first `Tags:` line, otherwise it is unchanged, and a valid date stays valid; the tags are that line's tags (or the earlier ones), merged with the body tags without repeats when there are body tags; the excerpt is replaced only by a non-empty one |
| Documents.Document.constructor | tagging.py:44-53 | missing date becomes `now`; fields as given, with the source's defaults; a non-empty file name means the file's contents are parsed into them |
| Documents.Document.ScanHeader | tagging.py:66-76 | the date and tags after the header loop are those `HeaderScan` gives for the remaining lines; title, excerpt, url and file are untouched |
| Documents.Document.Parse | tagging.py:60-84 | the fields afterwards are `ParseText` of the text and the fields before; url and file are unchanged; a valid date stays valid |
| DocumentTrees.AddTags | tagging.py:20-23 | keys outside the document's tags keep their lists; every tag of the document gets a non-empty list; no other key appears |
| DocumentTrees.AddTagsSpec | tagging.py:20-23 | each list becomes the old list (or `[]`) followed by one copy of the document per occurrence of its tag |
| DocumentTrees.LogBucket | tagging.py:33 | the bucket is the number of thresholds ceil(e^k) that the count reaches |
| DocumentTrees.LogBucketAtLeast | tagging.py:33 | the bucket is at least k exactly when the count is at least ceil(e^k) |
| DocumentTrees.LogBucketMonotone | tagging.py:33 | a larger count never gets a smaller bucket |
| DocumentTrees.RareTagsNeverInCloud | tagging.py:33-35 | a tag of one or two documents is never in the cloud, whatever `minCount` is |
| DocumentTrees.DocumentTree.constructor | tagging.py:17-18 | the index starts empty |
| DocumentTrees.DocumentTree.Add | tagging.py:20-23 | the map afterwards is `AddTags` of the old map and the document's tags; lists stay non-empty |
| DocumentTrees.DocumentTree.Cloudify | tagging.py:25-38 | a triple is in the output exactly when its tag has enough documents, a bucket of at least 1 and is not blacklisted, with that bucket and `baseURL + tag + suffix`; no tag appears twice; the index is not changed; the parameters default to the source's values |
| DocumentTrees.LinearBucket | tagging.py:29-30 | the commented linear bucket is the largest `r` with `r * maxCount <= count * numBuckets`, and never exceeds `numBuckets` |
| DocumentTrees.LinearAndLogBucketsOfSixTags | tagging.py:33 | for counts 6..1 the linear rule gives the weights 6..1 and 3,2,2,1,1,0, while the active rule gives 1,1,1,1,0,0 |

## Code and tests

The model follows the code where `vows/vows.py` expects something else:

- `vows/vows.py:143-151` and `vows/vows.py:174-184` feed a `TAGS:` line and expect its tags.
  `re.match('^Tags:', …)` is case-sensitive, so the code finds no tags there
  (`UpperCaseTagsKeyNotRecognised`).
- `vows/vows.py:57-83` expect the weights of the commented linear rule. The active rule is
  `int(math.log(count))`, which gives other weights (`LinearAndLogBucketsOfSixTags`).
- The middle date format `%m/%d/%Y %H:%M:%s` uses `%s`, a directive `strptime` rejects.
  It never parses anything, and the model says so (`Strptime`).
- `vows/vows.py:153-163` expect `meta-creation_date: 8/13/2012 10:20` to give 13 August 2012,
  10:20. The code agrees: unpadded fields parse (`FormatDateUnpaddedRoundTrip`,
  `ExtractDateOfSpelling`).

## Left out

- `Document.load`, `buildDocumentTree`, `generateTagResourcesHTML` and the `__main__` script: file and directory I/O. The constructor takes the text of the file as a parameter (`contents`).
- `tagFilePath`, `tagsToHTML`, `documentToHTML`, `tagResourceHTML` and `htmlCloud`: HTML produced by `string.Template` substitution, with no decisions of its own.
- `datetime.now()`: the constructor takes the current date as the parameter `now`. It and `contents` come first, because they have no default; the other parameters keep the source's defaults.
- Seconds and microseconds of `datetime` are not modelled. A date holds year, month, day, hour and minute, which is everything the parsed formats can set.
- DocumentTrees.LogBucket: exact up to counts below ceil(e^23) = 9744803447. Above that it stays at 22, where `int(math.log(count))` would keep growing. Floating-point `math.log` is replaced by integer thresholds, which agree with it at every threshold.
- DocumentTrees.DocumentTree.Cloudify: the order of the triples follows Python's dict order, which is arbitrary. The contract states membership and distinct tags, not order. It requires every list in the index to be non-empty: `math.log(0)` would raise, and only lists built by `add` are non-empty.
- Extractors.ExtractDate: a captured value holding a NUL character makes Python 2.7's `strptime` raise `TypeError`, which the loop at tagging.py:97-100 does not catch, so parsing fails. The model treats such a value as one that does not parse (no date).
- Documents.Dedup: `tuple(set(...))` has an arbitrary order. The model keeps first occurrences, and the contracts state only membership and the absence of repeats.
- Documents.Document.Parse: `self.tags + bodyTags` raises `TypeError` when the constructor was given a list rather than a tuple. Tags are sequences here, and the concatenation always succeeds.
- DocumentTrees.LinearBucket: the commented rule divides in floating point. The model uses integer division, and `cloudify` does not use this rule.
- The regular expressions are replaced by hand-written scanners. The comments in `extractors.dfy` argue why each scanner agrees with the pattern, for example why lazy matching and backtracking cannot change the result. That equivalence is not itself proved.
