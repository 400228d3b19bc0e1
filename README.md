# web_report: the page-analysis pipeline, verified

`web_report.py` fetches one web page and prints a report on it. Under the HTTP
and HTML-parsing plumbing is a small text-analysis pipeline, and this project
models that pipeline in Dafny and proves what it computes:

- `is_visible` decides which text nodes are page content. It rejects text under
  `head`, `title`, `style`, `script` and the document root, and text that
  `re.match('<!--.*-->', …)` accepts (module `Visibility`).
- `filter_content` turns the visible text into a flat word list. Each non-blank
  row is stripped and split on single spaces. Each piece is stripped, loses
  every `,` and `.`, and is lower-cased. Empty words are kept (module `Tokenizer`).
- `word_tally` counts the words into a dictionary that remembers insertion
  order (module `Tally`).
- The five most common words come from `sorted(items, key=count, reverse=True)[:5]`,
  a stable sort (module `Ranking`).
- `get_meta` collects the `<meta>` tags and the comma-separated keywords of
  `name="keywords"` tags. The loop at lines 200-202 lists the keywords whose
  lower-cased, stripped form is not one of the words (module `Meta`).
- `run_report` without its printing: the figures the report shows (module `Report`).

The parsed page is given as data (module `Page`):

- its text nodes in document order, each with its parent tag's name;
- its `<meta>` tags, each with an optional `name` and an optional `content`.

The Python string operations the pipeline uses are modelled over ASCII in
module `Strings`: `strip()`, `lower()`, `replace(c, '')`, `split(c)` and `c.join`.

`filter_content`, `word_tally`, `get_meta` and the keyword loop build their
results step by step, so they are methods with loops. Each is proved equal to a
specification function, and the lemmas are about those functions.
`is_visible` and the ranking are pure expressions in the source and are
functions here.

Three facts about the code shape the model:

- Empty words are kept: line 83 appends every piece's normalised form, empty or not.
- Every text node has a parent name: line 103 reads `element.parent.name` without a check.
- A comment needs a `-->` after its opening `<!--` with no line feed in between,
  and need not end with it: line 107 uses `re.match`, which is anchored only at
  the start, and `.` does not match a line feed.

## Model

| member | source | states |
|---|---|---|
| Strings.CountChar | web_report.py:83 | the number of `c`s in a string is at most its length, and zero exactly when `c` does not occur |
| Strings.SkipSpaces | web_report.py:80-83 | the end of the leading whitespace run lies between the start index and the string's end |
| Strings.CutSpaces | web_report.py:80-83 | the start of the trailing whitespace run lies between the lower bound and the end index |
| Strings.SkipSpacesSkipsSpaces | web_report.py:80-83 | the leading run `strip()` cuts is all whitespace and stops at the first non-whitespace character |
| Strings.CutSpacesCutsSpaces | web_report.py:80-83 | the trailing run `strip()` cuts is all whitespace and stops at the last non-whitespace character |
| Strings.Strip | web_report.py:80-83 | `strip()` never lengthens a string and leaves no whitespace at either end |
| Strings.StripSlice | web_report.py:80-83 | what `strip()` keeps is a contiguous slice of the input with only whitespace cut before and after it |
| Strings.StripEmptyIff | web_report.py:80 | `row.strip()` is empty exactly when every character of the row is whitespace |
| Strings.StripChars | web_report.py:83 | `strip()` introduces no character the input lacks |
| Strings.StripIdempotent | web_report.py:202 | stripping a stripped keyword changes nothing |
| Strings.StripUntrimmed | web_report.py:83 | a string with no whitespace at either end is unchanged by `strip()` |
| Strings.Lower | web_report.py:83 | `lower()` keeps the length and leaves no upper-case letter |
| Strings.LowerKeeps | web_report.py:83 | `lower()` changes only upper-case letters, and turns each into the lower-case letter of the same place in the alphabet |
| Strings.LowerSpace | web_report.py:201 | lower-casing a character neither makes nor unmakes whitespace |
| Strings.LowerSlice | web_report.py:201 | lower-casing a slice is slicing the lower-cased string |
| Strings.SkipSpacesLower | web_report.py:201 | lower-casing does not move where the leading whitespace ends |
| Strings.CutSpacesLower | web_report.py:201 | lower-casing does not move where the trailing whitespace starts |
| Strings.StripLower | web_report.py:201 | `k.lower().strip()` equals `k.strip().lower()` |
| Strings.RemoveChar | web_report.py:83 | `replace(c, '')` leaves no `c` and shortens the string by exactly the number of `c`s |
| Strings.RemoveCharKeeps | web_report.py:83 | every other character survives `replace(c, '')`, and none is added |
| Strings.RemoveCharAppend | web_report.py:83 | `(a + b).replace(c, '')` is `a.replace(c, '') + b.replace(c, '')` |
| Strings.RemoveCharSingle | web_report.py:83 | `replace(c, '')` deletes a lone `c` and keeps any other single character |
| Strings.RemoveAbsent | web_report.py:83 | `replace(c, '')` of a string without `c` is the string itself |
| Strings.Split | web_report.py:81 | `split(c)` gives one more piece than there are `c`s, and no piece contains `c` |
| Strings.JoinSplit | web_report.py:49 | joining the pieces of `s.split(c)` with `c` gives back `s` |
| Strings.JoinCons | web_report.py:49 | joining a piece in front of more pieces puts one separator between it and their join |
| Strings.JoinExtendFirst | web_report.py:49 | a character added to the front of the first piece comes first in the join |
| Strings.SplitJoin | web_report.py:49 | splitting the join of `c`-free pieces gives back the pieces |
| Strings.SplitWithoutSeparator | web_report.py:49 | a string without the separator splits into itself alone |
| Strings.SplitAfterPiece | web_report.py:49 | a split cuts at the first separator |
| Visibility.CloseFollowsRoom | web_report.py:107 | a `-->` that follows an index leaves at least three characters from it |
| Visibility.CommentMatch | web_report.py:107 | a text `re.match('<!--.*-->', …)` accepts starts with `<!--` and has at least seven characters |
| Visibility.IsVisible | web_report.py:88-110 | text under an ignored parent is hidden, and text under any other parent that does not start with `<!--` is shown |
| Visibility.CloseFollowsIff | web_report.py:107 | the `.*-->` tail matches from an index exactly when a `-->` starts at or after it with no line feed in between |
| Visibility.IgnoredNeverVisible | web_report.py:101-104 | text under `head`, `title`, `style`, `script` or `[document]` is never visible, whatever it says |
| Visibility.VisibleIff | web_report.py:103-110 | under any other parent, a node is hidden exactly when its text starts with `<!--` and a `-->` follows at index 4 or later with no line feed before it |
| Tokenizer.Normalize | web_report.py:83 | a word has no `,`, no `.` and no upper-case letter, and has no space when its piece had none |
| Tokenizer.Normalized | web_report.py:83 | one word per piece |
| Tokenizer.RowWords | web_report.py:80-83 | a blank row adds no words; any other row adds one more word than its stripped text has spaces |
| Tokenizer.VisibleRows | web_report.py:75 | `filter` keeps at most as many rows as there are nodes |
| Tokenizer.FilterContent | web_report.py:73-85 | the word list is the concatenation, row by row in document order, of the words of the rows the filter keeps |
| Tokenizer.VisibleRowsAppend | web_report.py:75 | filtering two runs of nodes gives the rows of each, in order |
| Tokenizer.TokenizeAppend | web_report.py:79-83 | each row's words are appended after those of the earlier rows |
| Tokenizer.RejectedNodeAddsNothing | web_report.py:75-83 | a node the filter rejects adds no words, wherever it stands |
| Tokenizer.IgnoredTextAddsNothing | web_report.py:101-104 | text under an ignored tag adds no words to the page's list |
| Tokenizer.CommentAddsNothing | web_report.py:107-108 | a comment-shaped text node adds no words to the page's list |
| Tokenizer.RowWordsWellFormed | web_report.py:81-83 | every word of a row has no space, `,`, `.` or upper-case letter |
| Tokenizer.TokenizeWellFormed | web_report.py:79-85 | every word of the list has no space, `,`, `.` or upper-case letter |
| Tokenizer.NormalizeTrimmed | web_report.py:83 | a piece without `,` or `.` gives a word with no whitespace at either end |
| Tokenizer.LowerTrimmed | web_report.py:83 | lower-casing a string with no whitespace at its ends leaves none there |
| Tokenizer.NormalizeKeepsInnerWhitespace | web_report.py:83 | the piece `",\tb"` gives the word `"\tb"`: whitespace behind a removed `,` survives |
| Tokenizer.NormalizeLoneComma | web_report.py:83 | a lone `,` gives an empty word |
| Tokenizer.Tokenize | web_report.py:79-85 | the word list has as many words as the rows' word counts add up to |
| Tokenizer.AllWellFormedConcat | web_report.py:79-85 | appending two lists of well-formed words gives a list of well-formed words |
| Tally.CountMap | web_report.py:126-135 | every key of the counting map is counted at least once and at most as often as the list is long |
| Tally.Count | web_report.py:128-133 | a word occurs at most as often as the list is long, and at least once exactly when it is in the list |
| Tally.Distinct | web_report.py:128-130 | the dictionary's keys are duplicate-free and are exactly the words of the list |
| Tally.FirstIndex | web_report.py:128-130 | the index of a word's first occurrence, or the list's length when it is absent |
| Tally.FirstIndexSnoc | web_report.py:128-130 | a later word does not change the first occurrence of an earlier one |
| Tally.DistinctInFirstOccurrenceOrder | web_report.py:128-130 | the keys come in order of first occurrence in the word list |
| Tally.CountSnoc | web_report.py:133 | one more word adds one to its own count and nothing to the others |
| Tally.CountMapSnoc | web_report.py:129-133 | one more word sets its entry to its previous count plus one and leaves the rest |
| Tally.TalliedSnoc | web_report.py:129-133 | tallying one more word is one more dictionary assignment |
| Tally.WordDict.Get | web_report.py:129 | `d.get(w)` is the count of `w` when `w` is a key and `None` otherwise |
| Tally.WordDict.Set | web_report.py:129-133 | `d[w] = n` appends a new key, keeps an old key in place, and keeps the keys duplicate-free |
| Tally.WordDict.Items | web_report.py:184 | `d.items()` lists each key with its count, in insertion order |
| Tally.Tallied | web_report.py:126-135 | the specified dictionary satisfies the dictionary invariant |
| Tally.WordTally | web_report.py:113-135 | `word_tally` returns the first-occurrence-ordered keys of the list, each mapped to its number of occurrences |
| Tally.SumCountsIsSumOccurrences | web_report.py:126-135 | summing the dictionary's counts is summing the keys' occurrences |
| Tally.SumOccurrencesSnoc | web_report.py:128-133 | one more word adds one to the sum of occurrences of a duplicate-free key list that holds it |
| Tally.DistinctOccurrencesSum | web_report.py:126-135 | the occurrences of the distinct words add up to the length of the word list |
| Tally.TallySum | web_report.py:126-135 | the counts of the tally add up to `len(word_list)` |
| Tally.TallyCounts | web_report.py:126-135 | the keys are exactly the words of the list, and each maps to its number of occurrences, at least one |
| Tally.DistinctCardinality | web_report.py:187 | a duplicate-free list has as many elements as its set |
| Tally.UniqueWordCount | web_report.py:187 | `len(word_dict)` is the number of distinct words in the list |
| Ranking.Insert | web_report.py:191 | inserting an entry into a sorted run adds exactly that entry |
| Ranking.ConsNonIncreasing | web_report.py:191 | an entry at least as frequent as all others can lead a sorted run |
| Ranking.InsertMembers | web_report.py:191 | insertion adds no entry besides the inserted one |
| Ranking.InsertNonIncreasing | web_report.py:191 | insertion keeps a run sorted by count, largest first |
| Ranking.SortByCount | web_report.py:191 | the sort is a permutation with counts non-increasing |
| Ranking.SortedMember | web_report.py:191 | sorting adds no entry |
| Ranking.SortedPrefixMembers | web_report.py:191 | the first entries of the sorted list come from the input |
| Ranking.SortedPrefixDominates | web_report.py:191 | no entry outside a prefix of the sorted list is more frequent than one inside it |
| Ranking.FirstFive | web_report.py:191 | `[:5]` of the sort takes `min(5, n)` entries of the input, counts non-increasing, none left out more frequent than one taken |
| Ranking.TopFive | web_report.py:184-191 | the top five has `min(5, len(d))` entries, counts non-increasing, each a real `(word, count)` pair of `d`, and no word left out is more frequent than one shown |
| Ranking.ConsRanked | web_report.py:191 | an entry ranked before all others can lead a ranked run |
| Ranking.InsertRanked | web_report.py:191 | insertion keeps equal counts in arrival order |
| Ranking.SortRanked | web_report.py:191 | the sort is stable: equal counts keep the order they arrived in |
| Ranking.RankedPrefixBefore | web_report.py:191 | in a run sorted by count and then by rank, every entry of a prefix comes before every entry left out of it |
| Ranking.TopFiveIsSortedPrefix | web_report.py:184-191 | the top five is the first `min(5, len(d))` entries of the sorted items, and there is one item per key |
| Ranking.SortedTallyRanked | web_report.py:184-191 | the sorted items of a tally are ordered by count and, among equal counts, by first occurrence in the word list |
| Ranking.TopFiveTieOrder | web_report.py:184-191 | in the top five, equal counts are ordered by first occurrence in the word list |
| Ranking.TopFiveCutOff | web_report.py:184-191 | every entry shown beats every entry left out: it has a larger count, or an equal count and an earlier first occurrence in the word list |
| Meta.TagKeywords | web_report.py:48-49 | a tag not named `keywords` adds nothing; a keywords tag adds one more comma-free keyword than its content has commas |
| Meta.ContentOrEmpty | web_report.py:49 | `meta_tag.get('content', '')` is the content when present and the empty string otherwise |
| Meta.Keywords | web_report.py:45-49 | the keyword list has one more entry than commas for each keywords tag |
| Meta.GetMeta | web_report.py:25-51 | `all_tags` lists every meta tag in order, and `keywords` is the in-order concatenation of each keywords tag's comma-split content |
| Meta.KeywordsAppend | web_report.py:45-49 | the keywords of two runs of tags are those of each, in order |
| Meta.MissingContentIsOneEmptyKeyword | web_report.py:49 | a keywords tag with no content attribute adds exactly one empty keyword |
| Meta.TagKeywordsJoin | web_report.py:49 | joining one tag's keywords with `,` gives back its content |
| Meta.TagKeywordsOfJoin | web_report.py:49 | any comma-free keyword list is what the tag whose content is their join declares |
| Meta.KeywordsNotInContent | web_report.py:200-202 | the loop reports, in keyword order with duplicates kept, `keyword.strip()` for each keyword whose `lower().strip()` form is not a word |
| Meta.NotInContentAppend | web_report.py:200-202 | the report on two runs of keywords is the report on each, in order |
| Meta.LastKeywordIff | web_report.py:201-202 | one keyword reports `x` exactly when it strips to `x` and `x` lower-cased is not a word |
| Meta.SomeReportedAsLast | web_report.py:200-202 | some keyword of a list reports `x` exactly when one of the list without its last keyword does, or the last one does |
| Meta.NotInContentIff | web_report.py:200-202 | a string is reported exactly when some keyword strips to it and its lower-cased form is not a word |
| Meta.NotInContentSound | web_report.py:200-202 | every reported keyword is already stripped, and its lower-cased form is not a word |
| Meta.NotInContent | web_report.py:200-202 | the report never has more lines than there are keywords |
| Report.PageSize | web_report.py:156-164 | the size is shown exactly when `Content-Length` is present and non-zero, and "not found" otherwise |
| Report.RunReport | web_report.py:138-202 | the report's figures are the meta tags, the word count (also the sum of the tally), the number of distinct words, the top five (`min(5, unique)` entries) and the keywords not in the content |

## Left out

- `main()` (lines 220-243) reads the URL from the console, fetches the page over the network and checks the status code. It is I/O and is not modelled.
- HTML parsing and traversal by BeautifulSoup is not part of this model. The page is given as its text nodes and its `<meta>` tags in document order.
- A comment node's `str()` is taken to be its text as the parser delivered it; how the parser renders comments is not part of this model.
- The title (line 155) and the hyperlink list (lines 210-211) are library accessors and printing only, and are not modelled.
- Report.RunReport: on a page without a `<title>`, line 155 reads `.string` of `None` and raises, so `run_report` prints no figures at all; the model does not know whether a title exists and returns the figures for every page.
- Printing and its formatting, including `ljust(8)` (line 192), are not modelled; `Report.RunReport` returns the figures instead.
- Report.PageSize: keeps the declared byte count. It does not model the float division by 1024 and the two-decimal formatting, and it takes the header already parsed, so `int()` failing on a malformed header is not modelled.
- `str.strip()` and `str.lower()` are modelled over ASCII: `strip()` removes tab, line feed, vertical tab, form feed, carriage return, the separators `\x1c`-`\x1f` and space. Python's other Unicode whitespace and its full case mapping are not modelled.
- The general regular-expression engine is not modelled, only the one pattern `<!--.*-->` under `re.match`.
- Tokenizer.NormalizeTrimmed: a word is proved free of whitespace at its ends only for pieces without `,` or `.`. For other pieces it is false, as `Tokenizer.NormalizeKeepsInnerWhitespace` shows.
