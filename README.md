# Christmas episodes by year — a Dafny model

`christmas_year_count.py` scrapes a Wikipedia list of US Christmas television
episodes. It visits the headings and list items of the article in document
order, remembers whether the current section is about animation, pulls an air
year out of each list item, drops animated and "special" entries, counts the
remaining entries per year and reports the year with the most episodes.

This project models that pipeline from the list of content nodes onwards:

- `YearExtraction` — the regular expressions `YEAR_RE` and `DATE_PARENS_RE`
  as predicates over strings (`IsYearAt`, `ParenMatch`), their leftmost
  searches (`FindYear`, `FindDateParens`), and `extract_year`
  (`ExtractYear`): the first year of the leftmost parenthetical that holds a
  year, else the first year anywhere, else `None`.
- `HeadingScan` — the page as a sequence of `Heading(text)` / `Item(text)`
  nodes; `ANIM_HEADING_RE` (`MentionsAnimation`); the section flag
  (`InAnimationAfter`, the match of the last heading seen); the rows of the
  pass as a function (`Rows`); and the loop of `main` as a method
  (`ExtractRows`) proved to produce exactly those rows and counters.
- `Aggregation` — the two filters (`FilterRows`), `groupby("year").size()`
  (`GroupSizes`), `sort_values(ascending=False)` (`SortByCountDesc`), their
  composition (`CountByYear`) and the three ways `main` ends after extraction
  (`Summarize`: no rows, `IndexError`, or a counted result with the top year).
- `Pipeline` — the extraction and the summary chained as `main` chains them.
- `AsciiText` and `Wrappers` — character classes, `\b`, ASCII case folding,
  and `Option`.

Three behaviours of the code are easy to misread, and the model keeps them:

- `DATE_PARENS_RE` (`\(([^)]*…[^)]*)\)`) cannot run past a `)`: a
  parenthetical ends at the first `)` after its `(`, and the text between
  may contain further `(`. `ParenMatch` and `ParenMatchIff` say so.
- When rows were captured but none survives the filters, `counts` is empty
  and `counts.index[0]` raises `IndexError`; `Summarize` returns
  `IndexError` in that case.
- The keyword filter looks for one of five phrases, such as "holiday
  special", as a case-insensitive substring; a lone "special" drops nothing.
  "Holiday Special (2005)" is dropped because it contains "holiday special".

## Model

| member | source | states |
|---|---|---|
| YearExtraction.IsYearAt | rewindos-christmas-episodes/src/christmas_year_count.py:14 | a `YEAR_RE` token stands alone: no word character touches it on either side |
| YearExtraction.YearValue | rewindos-christmas-episodes/src/christmas_year_count.py:14 | the integer a year token spells lies in 1900..2099 |
| YearExtraction.FindYear | rewindos-christmas-episodes/src/christmas_year_count.py:14 | `YEAR_RE.search`: the result is a year token at or after the start, and no year token lies before it; `None` only when there is no year token at all |
| YearExtraction.FindClose | rewindos-christmas-episodes/src/christmas_year_count.py:16 | the `)` that closes `DATE_PARENS_RE` is the first `)` after the `(`, none lies between |
| YearExtraction.ParenMatchIff | rewindos-christmas-episodes/src/christmas_year_count.py:16 | `DATE_PARENS_RE` matches at `p` if and only if `s[p]` is `(`, some `)` follows with no `)` strictly between the two, and a whole year token lies between them |
| YearExtraction.DateParensAt | rewindos-christmas-episodes/src/christmas_year_count.py:16 | `DATE_PARENS_RE` matches at `p` exactly when `s[p]` is `(` and a whole year token lies before the first following `)` |
| YearExtraction.FindDateParens | rewindos-christmas-episodes/src/christmas_year_count.py:28 | `DATE_PARENS_RE.search`: the leftmost position where the pattern matches, with its closing `)`; `None` exactly when it matches nowhere |
| YearExtraction.FirstYear | rewindos-christmas-episodes/src/christmas_year_count.py:30-35 | `YEAR_RE.search` converted with `int`: `None` if and only if the text has no year token, otherwise the value of the leftmost one |
| YearExtraction.ExtractYear | rewindos-christmas-episodes/src/christmas_year_count.py:26-35 | any year returned lies in 1900..2099 |
| YearExtraction.GroupYearAt | rewindos-christmas-episodes/src/christmas_year_count.py:30 | searching `YEAR_RE` in the captured group finds the same tokens, with the same values, as in the whole text, because `(` and `)` are not word characters |
| YearExtraction.GroupFirstYear | rewindos-christmas-episodes/src/christmas_year_count.py:28-32 | after `DATE_PARENS_RE` matched, the inner `YEAR_RE.search` always succeeds and yields the first year token after the `(`, so the `if y` on line 31 never falls through |
| YearExtraction.ParenthesizedYearWins | rewindos-christmas-episodes/src/christmas_year_count.py:28-32 | when a parenthetical holds a year, the result is the first year of the leftmost such parenthetical, whatever years occur elsewhere |
| YearExtraction.FirstYearWithoutParens | rewindos-christmas-episodes/src/christmas_year_count.py:34-35 | with no such parenthetical, the result is the leftmost year token of the whole text |
| YearExtraction.NoYearIff | rewindos-christmas-episodes/src/christmas_year_count.py:26-35 | `extract_year` returns `None` if and only if the text has no standalone `19xx`/`20xx` token |
| YearExtraction.ExtractedYearOccurs | rewindos-christmas-episodes/src/christmas_year_count.py:30-35 | a returned year is the value of some year token of the text |
| YearExtraction.GluedDigitsAreNoYear | rewindos-christmas-episodes/src/christmas_year_count.py:14 | `2006s` and `12006` hold no year: `\b` fails next to a word character |
| YearExtraction.AirDateExample | rewindos-christmas-episodes/src/christmas_year_count.py:26-35 | in "1998 remake (aired 2006)" the leftmost year is 1998, but `extract_year` gives the parenthesized 2006 |
| HeadingScan.MentionsAnimation | rewindos-christmas-episodes/src/christmas_year_count.py:18 | a heading that `ANIM_HEADING_RE` matches contains "animation" or "animated" in some case |
| HeadingScan.LastHeading | rewindos-christmas-episodes/src/christmas_year_count.py:72-80 | `None` if and only if there is no heading; otherwise the text of the heading that only list items follow |
| HeadingScan.InAnimationAfter | rewindos-christmas-episodes/src/christmas_year_count.py:68-80 | the flag is set if and only if the heading that only list items follow matches `ANIM_HEADING_RE`; false before any heading |
| HeadingScan.Rows | rewindos-christmas-episodes/src/christmas_year_count.py:82-95 | one row per list item whose text holds a year, and each row's year is `extract_year` of its entry |
| HeadingScan.ExtractRows | rewindos-christmas-episodes/src/christmas_year_count.py:67-95 | the loop yields exactly `Rows(nodes)`; `total_li` is the number of items; `li_with_year` is the number of rows and the number of items whose text holds a year, at most `total_li` |
| HeadingScan.NoHeadingNoFlag | rewindos-christmas-episodes/src/christmas_year_count.py:68 | before any heading the flag is false |
| HeadingScan.NearestHeadingDecides | rewindos-christmas-episodes/src/christmas_year_count.py:72-80 | the flag is the match result of the nearest preceding heading; every heading overwrites it, matching or not |
| HeadingScan.SectionScope | rewindos-christmas-episodes/src/christmas_year_count.py:73-80 | every item between a heading and the next heading sees that heading's match result |
| HeadingScan.RowsBounded | rewindos-christmas-episodes/src/christmas_year_count.py:82-95 | there are no more rows than list items, and no more list items than nodes |
| HeadingScan.RowsPrefix | rewindos-christmas-episodes/src/christmas_year_count.py:91-95 | rows are only appended: the rows of a prefix of the nodes are a prefix of the rows |
| HeadingScan.ItemRow | rewindos-christmas-episodes/src/christmas_year_count.py:82-95 | every list item with a year yields the row `(extract_year(text), flag in force, text)`, right after the rows of the nodes before it |
| HeadingScan.RowOrigin | rewindos-christmas-episodes/src/christmas_year_count.py:82-95 | every row comes from a list item: its entry is the item's text, its year `extract_year` of that text, its flag the one in force at the item, and it sits right after the rows of the nodes before that item, so no item yields two rows |
| HeadingScan.AnimatedHeadingMatches | rewindos-christmas-episodes/src/christmas_year_count.py:18 | "Animated specials" matches `ANIM_HEADING_RE` (case-insensitive) |
| HeadingScan.OtherHeadingsDoNotMatch | rewindos-christmas-episodes/src/christmas_year_count.py:18 | "Live-action" does not match, nor does "Animations" (whole words only) |
| HeadingScan.ChristmasCarolYear | rewindos-christmas-episodes/src/christmas_year_count.py:26-32 | "A Christmas Carol (1971)" gives 1971 |
| HeadingScan.HolidaySpecialYear | rewindos-christmas-episodes/src/christmas_year_count.py:26-32 | "Holiday Special (2005)" gives 2005 |
| HeadingScan.HeadingStep | rewindos-christmas-episodes/src/christmas_year_count.py:72-80 | a heading adds no row and sets the flag to its own match result |
| HeadingScan.ItemStep | rewindos-christmas-episodes/src/christmas_year_count.py:82-95 | a list item with a year appends its row, flagged with the flag in force; one without a year appends nothing; neither changes the flag |
| HeadingScan.TwoSections | rewindos-christmas-episodes/src/christmas_year_count.py:72-95 | an item under an animation heading is flagged; the next, non-matching heading resets the flag for the item under it |
| HeadingScan.SectionsExample | rewindos-christmas-episodes/src/christmas_year_count.py:72-95 | "Animated specials", "A Christmas Carol (1971)", "Live-action", "Holiday Special (2005)" gives rows (1971, true) and (2005, false) |
| Aggregation.IsSpecial | rewindos-christmas-episodes/src/christmas_year_count.py:112-117 | an entry the keyword pattern matches always contains "special", since every keyword does |
| Aggregation.WhereMembers | rewindos-christmas-episodes/src/christmas_year_count.py:108 | a boolean mask keeps exactly the rows it accepts, each as many times as it occurs, and no other row |
| Aggregation.FilterRows | rewindos-christmas-episodes/src/christmas_year_count.py:106-117 | each row that is outside animation sections and mentions no keyword is kept as many times as it occurs; every other row is dropped |
| Aggregation.WhereIsSubsequence | rewindos-christmas-episodes/src/christmas_year_count.py:117 | a boolean mask keeps the order of the rows: its result is a subsequence |
| Aggregation.FilterRowsSpec | rewindos-christmas-episodes/src/christmas_year_count.py:106-117 | the filtered rows are exactly those outside animation sections whose entry contains none of the five keywords (case-insensitive substrings), in their order, and there are no more of them than rows |
| Aggregation.AddOne | rewindos-christmas-episodes/src/christmas_year_count.py:122 | counting one more row of a year keeps the years ascending and the counts positive; the first year is the smaller of the old first year and the new one |
| Aggregation.AddOneCounts | rewindos-christmas-episodes/src/christmas_year_count.py:122 | counting one more row of a year adds one to that year's count and leaves every other year's count alone |
| Aggregation.AddOneSum | rewindos-christmas-episodes/src/christmas_year_count.py:122 | counting one more row adds one to the total |
| Aggregation.GroupSizes | rewindos-christmas-episodes/src/christmas_year_count.py:122 | `groupby("year").size()`: years ascending, every count positive, each year's count the number of rows of that year, the counts summing to the number of rows |
| Aggregation.EntryIffCount | rewindos-christmas-episodes/src/christmas_year_count.py:122 | in such a series `(y, c)` is an entry if and only if `c` is the positive count of `y` |
| Aggregation.InsertByCount | rewindos-christmas-episodes/src/christmas_year_count.py:122 | insertion keeps the series non-increasing by count and adds exactly the inserted entry |
| Aggregation.InsertByCountSum | rewindos-christmas-episodes/src/christmas_year_count.py:122 | insertion adds the inserted count to the total |
| Aggregation.InsertByCountDistinct | rewindos-christmas-episodes/src/christmas_year_count.py:122 | inserting a year not yet present keeps each year once |
| Aggregation.SortByCountDesc | rewindos-christmas-episodes/src/christmas_year_count.py:122 | `sort_values(ascending=False)`: a permutation of its input, non-increasing by count, same total; order among ties not asserted |
| Aggregation.SortByCountDescDistinct | rewindos-christmas-episodes/src/christmas_year_count.py:122 | sorting keeps each year once |
| Aggregation.CountByYear | rewindos-christmas-episodes/src/christmas_year_count.py:122 | one entry per year present in the rows, each once, with its number of rows, non-increasing by count, counts summing to the number of rows |
| Aggregation.Summarize | rewindos-christmas-episodes/src/christmas_year_count.py:101-125 | the run stops early if and only if there are no rows; it ends in `IndexError` at `counts.index[0]` if and only if there are rows but every one is filtered out; otherwise it is counted over the filtered rows, and the top year and count are the first entry of the ordered counts |
| Aggregation.TopYearIsMostFrequent | rewindos-christmas-episodes/src/christmas_year_count.py:122-125 | the top count is the positive number of filtered rows of the top year, and no year has more rows |
| Pipeline.CountChristmasEpisodes | rewindos-christmas-episodes/src/christmas_year_count.py:67-125 | `main` from the nodes: the extracted rows and counters, the summary of those rows, and the early return exactly when no item has a year |
| Pipeline.NoYearNoData | rewindos-christmas-episodes/src/christmas_year_count.py:86-104 | the run stops at the "no rows captured" warning if and only if no list item's text holds a year |
| Pipeline.CountedRowOrigin | rewindos-christmas-episodes/src/christmas_year_count.py:82-117 | every row that survives the filters, which are the rows that get counted, comes from a list item outside any animation section, mentions no keyword, and carries `extract_year` of its text |
| Pipeline.HolidaySpecialIsSpecial | rewindos-christmas-episodes/src/christmas_year_count.py:112-117 | "Holiday Special (2005)" matches the keyword "holiday special" |
| Pipeline.AllRowsFilteredExample | rewindos-christmas-episodes/src/christmas_year_count.py:101-124 | the animated-then-live-action example loses both rows to the filters and ends in `IndexError` |

## Left out

- Fetching the page (`requests.get`, `raise_for_status`, lines 52-57): network I/O.
- Parsing with BeautifulSoup, the `#mw-content-text .mw-parser-output` selector and its `RuntimeError` (lines 60-65): a foreign library. The model starts from the nodes `find_all(["h2", "h3", "h4", "li"])` yields, in document order, each already flattened by `get_text(" ", strip=True)`; a nested list item is a node of its own, as it is there.
- The proof file, the directories, the CSV files and the bar chart (lines 21-23, 39-49, 131-152): file I/O and plotting.
- The `print` diagnostics: they show the counters and results the model already returns.
- Unicode in the regular expressions: Python's `\b`, `\d` and `re.I` work on Unicode word characters, digits and case folding; the model uses ASCII letters, digits and `_` as word characters, `0`-`9` as digits, and folds only `A`-`Z`.
- Aggregation.SortByCountDesc: pandas' default sort does not fix the order of years with equal counts; the model sorts stably but states only "non-increasing by count", so nothing proved depends on the order among ties, including which of several equally frequent years is the top year.
- Pandas internals (`DataFrame`, `groupby`, `sort_values`): replaced by sequences of records and explicit filter, group and sort functions.
