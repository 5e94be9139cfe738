# css-colors-stats, modelled in Dafny

This project models the colour extractor of `css_colors_stats`.

`parse_css_for_colors(css_content, color_format)` works in four steps:

1. It turns the format selector into a list of format names.
2. It starts a result dictionary whose keys are always `hex, rgb, rgba, hsl, hsla`, in that order.
3. For every selected name it replaces that key's value by the `Counter` of all matches of the name's pattern in the text.
4. It turns every table into a dictionary sorted by descending count.

Only the hexadecimal pattern `#(?:[0-9a-fA-F]{3}){1,2}\b` is registered. The project also models the HTML page that `build_html` assembles from such a result.

The project has four modules:

- `HexPattern` (`hex_pattern.dfy`) is the hex pattern written out as a matcher (`MatchAt`) and the left-to-right scan of `re.findall` (`FindAllHex`). The matcher tries six digits first (the greedy `{1,2}`) and three digits second. Each try needs `\b` right after it. No boundary is needed before the `#`.
- `Counting` (`counting.dfy`) covers `Counter` and sorting.
  - `Tally` models `Counter` as a sequence of (literal, count) entries in first-seen order. It counts left to right with `Increment`.
  - `SortByCount` models `sorted(..., reverse=True)`. It is a stable insertion sort.
- `Core` (`core.py` in the source) is the routine itself.
  - `ParseCssForColors` is a method with the routine's two loops. Each step of its counting loop replaces the table of `key`, as `d[key] = t` does (`Store`).
  - It is proved equal to the specification function `Extract`.
  - The lemmas about `Extract` state the selector rules, the result shape, the content of the `hex` table and the documented example.
- `Html` (`html.py` in the source) is `BuildHtml`, the nested loops that grow the page with `+=`. It is proved equal to the function `Page`, which is described by layout lemmas.

The code and its own documentation disagree in two places. The model follows the code:

- **The docstring and the code.** The docstring promises `ValueError` for an invalid colour format (`core.py:51-52`). A list selector is passed on unchecked (`core.py:66-67`). An unknown name in the list fails only when `SEARCH_PATTERNS[name]` is evaluated (`core.py:76`), and that raises `KeyError`, not `ValueError`. The names before it have already been counted by then, but nothing is returned. The model raises `KeyError` (see `Core.UnknownNameInList`).
- **The test and the code.** `tests/test_core.py:5-8` expects `ValueError` for `["ciao"]` and `["rgb", "ciao"]`. The code as written raises `KeyError` for these.

The result always has all five keys, and an unselected format is left empty (`core.py:71`), as the docstring example shows (`core.py:57-59`).

The string `"rgb"` is rejected with `ValueError`, like any other string that is not a key of `SEARCH_PATTERNS` (`Core.ValueErrorCases`).

A dictionary is modelled as the sequence of its items in iteration order:

- the result is a `Report` of `FormatTable`s;
- each table is a `Table` of `Entry`s.

Proofs show that these sequences never repeat a key: `CountedReport` ensures `DistinctFormats`, and `TallyCounts` and `SortDistinct` keep `DistinctColors`.

`_build_html` (`core.py:141-150`) builds the same string as `build_html` (`html.py:19-28`). Both are modelled once, by `Html.BuildHtml`.

## Model

| member | source | states |
|---|---|---|
| HexPattern.IsBoundary | css_colors_stats/core.py:19 | the `\b` of the pattern: a word character on exactly one side of the position, with the ends of the text counting as non-word. `MatchAt` requires it right after the digits, and `MatchOfLiteral` and `MatchesOccurInText` state it as "end of text or a non-word character" after a literal |
| HexPattern.HexRun | css_colors_stats/core.py:19 | the number of consecutive hex digits from a position, capped at a limit; every counted character is a hex digit, and a run shorter than the limit stops at the end of the text or at a non-digit |
| HexPattern.MatchAt | css_colors_stats/core.py:19 | a match at position `i` is `#` plus three or six hex digits, with `\b` right after it |
| HexPattern.LongestMatch | css_colors_stats/core.py:19 | the match is greedy: whenever some literal followed by `\b` starts at `i`, a match is found there and it is at least as long as that literal |
| HexPattern.MatchOfLiteral | css_colors_stats/core.py:19 | a literal followed by the end of the text or a non-word character is matched whole, with its own length |
| HexPattern.FindAllHex | css_colors_stats/core.py:76 | the scan of `re.findall`: at each position try `MatchAt`; on a match emit it and resume right after it, otherwise move one character on. Its results are pinned down by `FoundAreLiterals` and `MatchesOccurInText`, and it equals the reference scan `EveryPositionMatches` by `ScanTriesEveryHash` |
| HexPattern.FoundAreLiterals | css_colors_stats/core.py:75-77 | every string `re.findall` returns is `#` and three or six hex digits |
| HexPattern.ScanTriesEveryHash | css_colors_stats/core.py:75-77 | resuming the scan after a match skips no `#`: the scan equals the reference that tries every position once |
| HexPattern.SkipWithoutHash | css_colors_stats/core.py:75-77 | positions without `#` add nothing to the reference scan |
| HexPattern.EveryPositionMatchOccurs | css_colors_stats/core.py:75-77 | every literal of the reference scan is matched at some position of the text |
| HexPattern.MatchesOccurInText | css_colors_stats/core.py:19 | every literal found is a hex literal, stands in the text where the pattern matches, and is followed by the end of the text or a non-word character |
| HexPattern.SkipToHash | css_colors_stats/core.py:75-77 | a stretch of text without `#` yields no match |
| HexPattern.NoHashNoMatch | css_colors_stats/core.py:75-77 | text without `#` from a position onwards yields nothing from there |
| HexPattern.NothingAfter | css_colors_stats/core.py:75-77 | a `#`-free end of the text yields nothing |
| HexPattern.ScanPiece | css_colors_stats/core.py:75-77 | after a `#`-free gap, a literal followed by a non-word character is the next match, and the scan resumes right after it |
| HexPattern.TwoLiterals | css_colors_stats/core.py:75-77 | text made of `#`-free stretches around two literals yields exactly those two literals, in order. Each literal must be followed by the end of the text or a non-word character, and the two may touch (`#fff#000`) |
| Counting.FirstIndex | css_colors_stats/core.py:75-77 | the first position of a literal in the match list: it holds the literal and no earlier position does |
| Counting.Tally | css_colors_stats/core.py:75-77 | `Counter(lits)`, built by one `Increment` per literal, left to right. `TallyCounts` proves it holds the exact occurrence counts, and `TallyFirstSeenOrder` proves its keys are in first-seen order |
| Counting.Increment | css_colors_stats/core.py:75-77 | one `Counter` step: the count of `x` rises by one and no other count changes; the total rises by one; a known key keeps its place, and a new key is appended with count 1 |
| Counting.IncrementPositive | css_colors_stats/core.py:75-77 | a counting step keeps every count at least 1 |
| Counting.TallyCounts | css_colors_stats/core.py:75-77 | `Counter(lits)` has one entry per distinct literal with a positive count equal to its number of occurrences, and the counts sum to the number of literals |
| Counting.HasColorInTally | css_colors_stats/core.py:75-77 | every key of the tally occurs in the list |
| Counting.TallyFirstSeenOrder | css_colors_stats/core.py:75-77 | the tally's keys come in the order of their first occurrence in the list |
| Counting.CountOfDistinct | css_colors_stats/core.py:75-77 | in a table without repeated keys, the count of a key is the count on its one entry |
| Counting.InsertPermutes | css_colors_stats/core.py:81-83 | inserting an entry permutes the entry and the table |
| Counting.InsertSorted | css_colors_stats/core.py:81-83 | inserting into a table sorted by non-increasing count keeps it sorted |
| Counting.InsertStable | css_colors_stats/core.py:81-83 | insertion keeps the relative order of entries with equal counts |
| Counting.InsertKeepsCounts | css_colors_stats/core.py:81-83 | insertion keeps every key's count and the total |
| Counting.InsertDistinct | css_colors_stats/core.py:81-83 | insertion keeps keys distinct |
| Counting.SortByCount | css_colors_stats/core.py:81-83 | `sorted(..., key=count, reverse=True)`: the counts are non-increasing, the result is a permutation of the input, and entries of equal count keep their relative order (stability) |
| Counting.SortKeepsTally | css_colors_stats/core.py:80-83 | the sorted table is still the tally of the same literals |
| Counting.SortKeepsCounts | css_colors_stats/core.py:80-83 | sorting keeps each key's count, the total, positivity and distinct keys |
| Counting.SortDistinct | css_colors_stats/core.py:80-83 | sorting keeps keys distinct |
| Counting.WithCountOrder | css_colors_stats/core.py:81-83 | two entries of equal count keep their relative order among the entries of that count |
| Counting.WithCountOrigin | css_colors_stats/core.py:81-83 | two entries in order among those of one count come from two places of the table in that same order |
| Counting.TiesInFirstSeenOrder | css_colors_stats/core.py:75-83 | a rearrangement that keeps the entries of each count in their order (as the stable sort does, by `SortByCount`) takes a table in first-seen order to one whose entries of equal count are still in the order in which their literals first occur |
| Core.FormatNames | css_colors_stats/core.py:71 | the keys of every result, `hex, rgb, rgba, hsl, hsla`, in dictionary order. `CountedReport` and `ReportShape` prove that the result has exactly these keys in this order |
| Core.FindAll | css_colors_stats/core.py:76 | `re.findall(SEARCH_PATTERNS[name], css)` for a registered pattern, which is the hex scan `FindAllHex` from position 0 |
| Core.ColorTable | css_colors_stats/core.py:75-83 | the table built for a selected format: the `Counter` of its matches, sorted by descending count (`SortByCount(Tally(FindAll(p, css)))`). `HexTableIsSortedTally`, `HexTableEntries` and `HexTableTies` pin it down |
| Core.SearchPatterns | css_colors_stats/core.py:18-24 | the registry: only `hex` has a pattern. `ValueErrorCases` and `ReportShape` show what this means for the selectors and the result |
| Core.FormatList | css_colors_stats/core.py:62-69 | the selector normalisation: it fails exactly for a value that is neither a string nor a list, and for a string that is not a registry key, and it always fails with `ValueError` |
| Core.FirstUnknown | css_colors_stats/core.py:74-76 | the position of the first name without a pattern: all names before it have a pattern, and the name there has none |
| Core.CountedReport | css_colors_stats/core.py:71-77 | the dictionary after the counting loop has five keys, none repeated |
| Core.SortTables | css_colors_stats/core.py:80-83 | every table sorted by non-increasing count and a permutation of the original, with the keys and their order unchanged |
| Core.SortedEveryTable | css_colors_stats/core.py:80-83 | the dictionary left by the sorting loop, with each table replaced by its sorted form, is `SortTables` of the counted one |
| Core.Extract | css_colors_stats/core.py:62-84 | the routine's outcome as a function: a `KeyError` names a key without a pattern, and a success has five tables. `ParseCssForColors` is proved equal to it |
| Core.Store | css_colors_stats/core.py:75 | `d[key] = t`: an existing key keeps its place and takes the new table, and a new key is appended; nothing else changes |
| Core.ParseCssForColors | css_colors_stats/core.py:62-84 | the routine's outcome (the sorted result or the exception raised) is exactly `Extract(css, sel)` |
| Core.StoreCounted | css_colors_stats/core.py:74-77 | storing the tally of one more selected name gives the dictionary of the longer selection |
| Core.ExtractOfUnknownName | css_colors_stats/core.py:74-77 | reaching a name without a pattern raises `KeyError` with that name |
| Core.DefaultSelectsHex | css_colors_stats/core.py:62-65 | no selector, and the string `"hex"`, both behave as the list `["hex"]` |
| Core.ValueErrorCases | css_colors_stats/core.py:62-69 | `ValueError` is raised if and only if the selector is a string that is not a registry key (such as `"rgb"` or `"ciao"`) or is neither a string nor a list |
| Core.UnknownNameInList | css_colors_stats/core.py:66-77 | a list selector fails if and only if some name in it has no pattern, and then with `KeyError` for the first such name, whatever valid names come before it |
| Core.ReportShape | css_colors_stats/core.py:71-84 | on success the keys are `hex, rgb, rgba, hsl, hsla` in that order; an unselected format is empty; a selected `hex` holds the sorted tally of the scan; the four formats without a pattern are always empty |
| Core.SortedCountedTables | css_colors_stats/core.py:71-84 | on success the table of each of the five keys is the sorted tally of its matches when the key is selected, and empty otherwise |
| Core.EmptyListSelectsNothing | css_colors_stats/core.py:71-84 | the empty list gives five empty tables |
| Core.HexTableIsSortedTally | css_colors_stats/core.py:74-83 | the `hex` table is the tally of the scan's literals, sorted by non-increasing count, stable for equal counts, and a permutation of the unsorted tally |
| Core.HexTableTies | css_colors_stats/core.py:74-83 | in the `hex` table, literals with equal counts appear in the order of their first occurrence in the text |
| Core.HexTableEntries | css_colors_stats/core.py:75-77 | each key of the `hex` table is a hex literal found in the text before the end or a non-word character; its count is at least 1 and equals its number of occurrences in the scan |
| Core.NoHashNoColors | css_colors_stats/core.py:75-77 | text without `#` gives five empty tables |
| Core.DefaultReport | css_colors_stats/core.py:62-84 | with no selector the result is the sorted `hex` table followed by four empty tables |
| Core.TwoDistinctLiterals | css_colors_stats/core.py:75-83 | two different literals seen once each stay in first-seen order after the stable sort |
| Core.DocumentedExampleMatches | css_colors_stats/core.py:57-58 | the scan of `body { background-color: #fff; color: #000; }` yields `#fff`, then `#000` |
| Core.DocumentedExample | css_colors_stats/core.py:57-59 | the docstring example: `{'hex': {'#fff': 1, '#000': 1}, 'rgb': {}, 'rgba': {}, 'hsl': {}, 'hsla': {}}` |
| Html.Heading | css_colors_stats/html.py:22 | `<h1>{color_type}</h1>`. `EmptyTableSection` and `PageLayout` place it before the boxes of its format |
| Html.Div | css_colors_stats/html.py:25 | the box of one literal, with the colour as background and `{color}:{count}` as text. `DecimalRoundTrip` proves that the count printed there is the count. `DivsLayout` places one box per entry |
| Html.DecimalString | css_colors_stats/html.py:25 | `str(count)`: decimal digits with no leading zero |
| Html.DecimalRoundTrip | css_colors_stats/html.py:25 | reading the printed digits back gives the count |
| Html.Page | css_colors_stats/html.py:19-28 | the page as a function: the frame around the sections in dictionary order. `PageFrame`, `PageLayout` and `ReportPage` describe it, and `BuildHtml` is proved equal to it |
| Html.BuildHtml | css_colors_stats/html.py:19-28 | the page grown by the nested loops equals `Page(matches)` |
| Html.PageFrame | css_colors_stats/html.py:19-28 | the page starts with `<html><body>` and ends with `</body></html>` |
| Html.EmptyPage | css_colors_stats/html.py:19-28 | an empty dictionary gives `<html><body></body></html>` |
| Html.EmptyTableSection | css_colors_stats/html.py:21-25 | a format with an empty table contributes only `<h1>format</h1>` |
| Html.DivsAppend | css_colors_stats/html.py:24-25 | the boxes of two tables joined are the boxes of the first followed by those of the second |
| Html.SectionsAppend | css_colors_stats/html.py:21-25 | the sections of two reports joined are those of the first followed by those of the second |
| Html.PageLayout | css_colors_stats/html.py:21-25 | in dictionary order, each format's `<h1>` heading is followed by exactly the boxes of its table, and then by the next format's section |
| Html.DivsLayout | css_colors_stats/html.py:24-25 | the boxes of a table are one `<div>` per entry, in table order |
| Html.FiveSections | css_colors_stats/html.py:21-25 | the page of a five-key dictionary is the frame around its five sections, in order |
| Html.ReportPage | css_colors_stats/html.py:19-28 | the page of a successful extraction is the `hex` heading with its boxes, then the bare headings `rgb`, `rgba`, `hsl`, `hsla` |

## Left out

- `main` (`core.py:87-123`) is left out: argument parsing, reading the CSS file, writing `color_counts.json`. It is I/O.
- The file writes of `_build_html` and `build_html` are left out, and so is the `_csscs.html` output path. They are I/O; the page text is returned instead.
- `__init__.py` only re-exports `main`. `tests/test_parser.py` imports a module that does not exist. Neither is part of this model.
- The commented-out `rgb`, `rgba`, `hsl` and `hsla` patterns are not part of this model. They are inactive.
- Only the hex pattern is modelled, not a regular-expression engine. `re.findall` is `FindAllHex`.
- HexPattern.IsWordChar: `\b` is modelled with the ASCII word characters `[A-Za-z0-9_]`. Python's `str` patterns use Unicode word characters, so a non-ASCII letter or digit right after a literal is treated as a non-word character here.
- Core.Selector: list elements are strings. Python would also accept other hashable elements (failing with `KeyError`) and raise `TypeError` on unhashable ones. Every value that is neither `None`, a string nor a list is one case, `NotStringOrList`.
- Html.BuildHtml: the loops walk the items of each dictionary instead of looking each key up again. This is the same thing for dictionaries, whose keys are distinct. The key and colour strings are inserted unescaped, as in the source.
- Counts are unbounded naturals, like Python integers, so no overflow is modelled.
