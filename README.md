# Amazon reviews color counter — the tallying pass

This project models, in Dafny, the one piece of logic in `amazon-color-counter.py`
that can be stated exactly: the color-tallying pass of
`AmazonReviewsColorCounter.count_colors`, together with the `COLOR_STR` literal
it searches for and the page URL that `_get_page` builds.

The fetched HTML is abstracted away. A reviews page is a sequence of
review-metadata blocks (the elements `findAll` returns), and a block is the
sequence of text strings the element contains (what `elem.strings` yields), in
document order. Fetching and parsing a page is a parameter `fetch` that maps
a URL to its blocks.

- `wrappers.dfy` — `Option`, standing for Python's value-or-`None`.
- `py_str.dfy` (module `PyStr`) — the Python string behaviour the pass relies
  on: `str.strip()` with no argument, using the exact set of characters for
  which `str.isspace()` holds, and the decimal rendering of an `int` that
  `"{}".format(n)` produces, with a parser that reads it back.
- `color_counter.dfy` (module `ColorCounter`) — the pass itself:
  - page selection: the page count (the site's last page, or the caller's
    limit when it is smaller), the pages `range(1, n + 1)` visits, and the URL
    `reviews_url + "&pageNumber=" + str(n)` fetched for each;
  - color extraction: a string carries a color when, stripped, it starts with
    `"Color: "`; the color is the rest of the stripped string; a block yields
    the color of its last such string;
  - the tally: a `map<string, nat>` read as a `defaultdict(int)` (0 for a
    missing key), incremented once per block that yields a color;
  - `ExtractColor`, `CountPage` and `CountColors`: the three nested loops of
    `count_colors` as methods with loop invariants, each proved to compute
    the corresponding specification function (`BlockColor`, `TallyOf`).

What is proved: a block yields a color exactly when one of its strings carries
one, and then it is the last such string's; an extracted color is never empty
and never ends in whitespace; a string yields color `c`, for a non-empty `c` that does not
end in whitespace, exactly when it is `"Color: " + c` with whitespace around
it; a block without a color changes
nothing and a block with one adds one to its own color's count and nothing
else; the tally is the histogram of the visited blocks' colors, every count
is at least 1, and the counts sum to the number of blocks that yielded a
color; the pages visited are 1, 2, …, N in ascending order (none when N ≤ 0);
each page URL keeps the reviews URL as a prefix and its suffix reads back as
the page number, so different pages get different URLs.

`count_colors` strips the whole line before the prefix test and does not
strip the remainder again, so spaces between `"Color: "` and the color stay
part of it: `"  Color:  Red "` yields `" Red"`. `LineColorRoundTrip`
therefore places no condition on the first character of the color.

## Model

| member | source | states |
|---|---|---|
| `PyStr.Strip` | amazon-color-counter.py:63 | `string.strip()`; defined by its body, characterised by `StripSpec`, `StripPadded` and `StripIdempotent` |
| `PyStr.SkipSpaceSpec` | amazon-color-counter.py:63 | the forward scan of `strip()` passes over whitespace only and stops at the first character that is not whitespace |
| `PyStr.SkipSpaceBackSpec` | amazon-color-counter.py:63 | the backward scan of `strip()` passes over whitespace only and stops after the last character that is not whitespace |
| `PyStr.StripSpec` | amazon-color-counter.py:63 | `strip()` returns an infix of the string bounded on both sides by whitespace only, and that infix neither starts nor ends with whitespace |
| `PyStr.StripPadded` | amazon-color-counter.py:63 | any text with non-whitespace ends, padded with whitespace on both sides, strips back to exactly that text (so `strip` is determined by its specification) |
| `PyStr.StripIdempotent` | amazon-color-counter.py:63 | stripping an already stripped string changes nothing |
| `PyStr.FormatInt` | amazon-color-counter.py:43 | `"{}".format(page_number)` for an `int`; defined by its body, characterised by `FormatIntRoundTrip` and `FormatIntInjective` |
| `PyStr.Digits` | amazon-color-counter.py:43 | the decimal form of a natural number is a non-empty digit string without a leading zero whose value is that number |
| `PyStr.FormatIntRoundTrip` | amazon-color-counter.py:43 | parsing the decimal form `"{}".format(n)` of any integer gives back `n` |
| `PyStr.FormatIntInjective` | amazon-color-counter.py:43 | two integers with the same decimal form are equal |
| `ColorCounter.PageUrl` | amazon-color-counter.py:42-43 | the page URL starts with the reviews URL, unchanged, followed by `"&pageNumber="` and at least one more character |
| `ColorCounter.PageUrlNumber` | amazon-color-counter.py:43 | what follows `"&pageNumber="` in a page URL reads back as the page number |
| `ColorCounter.PageUrlInjective` | amazon-color-counter.py:43 | different page numbers give different URLs for the same listing |
| `ColorCounter.PageCount` | amazon-color-counter.py:55 | without a limit the page count is the last page; with one it is the smaller of the two (bounded by both and equal to one of them) |
| `ColorCounter.PageRange` | amazon-color-counter.py:56 | the pages visited are 1, 2, …, n in ascending order, and none when n ≤ 0 |
| `ColorCounter.LineColor` | amazon-color-counter.py:63-65 | the color one string carries, if any; defined by its body, characterised by `LineColorSpec`, `LineColorRoundTrip` and `LineColorShape` |
| `ColorCounter.LineColorSpec` | amazon-color-counter.py:63-65 | when a string carries a color, the stripped string is `"Color: "` followed by that color, which is never empty and never ends in whitespace |
| `ColorCounter.LineColorRoundTrip` | amazon-color-counter.py:63-65 | `"Color: " + c` with any whitespace around it yields exactly `c`, for every non-empty `c` not ending in whitespace, whatever its first character (the remainder after the prefix is not stripped again) |
| `ColorCounter.LineColorShape` | amazon-color-counter.py:63-65 | a string that yields a color is that color after `"Color: "`, with only whitespace before and after |
| `ColorCounter.LastSomeNone` | amazon-color-counter.py:60-65 | the last-match scan finds nothing exactly when no entry is present |
| `ColorCounter.LastSomeIn` | amazon-color-counter.py:60-65 | what the last-match scan finds is one of the entries |
| `ColorCounter.LastSomeIndex` | amazon-color-counter.py:60-65 | what the last-match scan finds sits at a position after which no entry is present |
| `ColorCounter.BlockColor` | amazon-color-counter.py:60-65 | the final value of `color_string` for one element; defined by its body, characterised by `BlockColorIsLastMatch` and `BlockColorShaped`, and computed by `ExtractColor` |
| `ColorCounter.BlockColorShaped` | amazon-color-counter.py:60-65 | the color a block yields is never empty and never ends in whitespace |
| `ColorCounter.BlockColorIsLastMatch` | amazon-color-counter.py:60-65 | a block yields no color exactly when none of its strings carries one; otherwise it yields the color of a string after which no string carries one (the last match wins) |
| `ColorCounter.ExtractColor` | amazon-color-counter.py:60-65 | the loop that overwrites `color_string` for every matching string computes the block's color |
| `ColorCounter.Get` | amazon-color-counter.py:53 | reading a `defaultdict(int)`: the stored count, or 0 for a missing key; defined by its body |
| `ColorCounter.Record` | amazon-color-counter.py:66-67 | the increment for one element's color, nothing when it has none; defined by its body, characterised by `RecordEffect` and `TotalRecord` |
| `ColorCounter.RecordEffect` | amazon-color-counter.py:66-67 | a block without a color leaves the tally unchanged; a block with color `c` adds `c` to the keys, raises its count by one, and leaves every other count unchanged |
| `ColorCounter.TotalRecord` | amazon-color-counter.py:66-67 | processing a block raises the sum of the counts by one exactly when the block yields a color |
| `ColorCounter.RecordAll` | amazon-color-counter.py:59-67 | the tally after processing blocks in order from a given tally; defined by its body, characterised by `RecordAllAppend`, `RecordAllCounts`, `RecordAllTotal`, `RecordAllWellFormed` and `NoColorNoChange`, and computed by `CountPage` |
| `ColorCounter.TallyOf` | amazon-color-counter.py:53-67 | the tally of blocks starting from an empty dictionary; defined by its body, characterised by `TallyKeys`, `TallyIsHistogram` and `TallyTotal` |
| `ColorCounter.RecordAllAppend` | amazon-color-counter.py:56-67 | tallying two runs of blocks one after the other, the second starting from the first's result, is tallying their concatenation (so the tally carries over from page to page) |
| `ColorCounter.RecordAllWellFormed` | amazon-color-counter.py:59-67 | processing blocks keeps every count at least 1 and every key a non-empty color without trailing whitespace |
| `ColorCounter.RecordAllCounts` | amazon-color-counter.py:59-67 | processing blocks adds to each color's count (0 when absent) the number of blocks yielding that color |
| `ColorCounter.RecordAllTotal` | amazon-color-counter.py:59-67 | processing blocks adds to the sum of the counts the number of blocks that yield a color |
| `ColorCounter.TallyKeys` | amazon-color-counter.py:53-67 | every key of the tally has count at least 1 and is a non-empty color not ending in whitespace |
| `ColorCounter.TallyIsHistogram` | amazon-color-counter.py:53-67 | each color's count (0 when absent) is the number of blocks yielding it, and a color is a key exactly when some block yields it |
| `ColorCounter.TallyTotal` | amazon-color-counter.py:53-67 | the counts sum to the number of blocks that yielded a color |
| `ColorCounter.NoColorNoChange` | amazon-color-counter.py:59-67 | blocks none of which yields a color (a page without color metadata) leave the tally as it was |
| `ColorCounter.VisitedBlocks` | amazon-color-counter.py:56-59 | every element on pages 1..n, page after page, each page fetched from its page URL; defined by its body, used by the contract of `CountColors` |
| `ColorCounter.CountPage` | amazon-color-counter.py:59-67 | the loop over one page's blocks turns the tally of the blocks seen so far into the tally of those blocks followed by the page's |
| `ColorCounter.CountColors` | amazon-color-counter.py:51-68 | the pass processes pages 1..N with N the clamped page count, in ascending order, and returns the tally of every block of those pages, each page fetched from its page URL |
| `ColorCounter.CountColorsCounts` | amazon-color-counter.py:51-68 | the tally the pass returns gives each color the number of visited reviews carrying it, and its counts sum to the number of reviews that carried a color |

## Left out

- Browser set-up, page fetching and `close` (amazon-color-counter.py:15-26, 70-71): I/O; fetching and parsing a page is the parameter `fetch`. The reference to `self.driver` in `close` is not modelled.
- HTML parsing with BeautifulSoup (lines 31-32, 45, 49, 59): blocks are taken as given sequences of strings.
- `_get_reviews_page_url` (lines 28-40): it fetches a page and relies on the URL library's query encoding; the reviews URL is an input of `CountColors`.
- `_get_last_page` and the `int()` conversion of its text (lines 47-49, 54): the last page number is an input of `CountColors`.
- The progress message (line 57): console output; the order of the pages it reports is the `processed` result of `CountColors`.
- The command-line entry point (lines 74-87): argument handling, exit, and the sorted table whose percentages use floating-point division and rounding.
- The order of the dictionary's keys: the returned `defaultdict` lists colors in the order they were first seen, which the stable `sorted` of the table (amazon-color-counter.py:84) uses to break ties; a `map<string, nat>` has no key order, and the table is not part of this model.
- `PyStr.ParseInt` reads only what `FormatInt` writes (an optional minus sign and digits); Python's `int()` also accepts surrounding whitespace, a plus sign and underscores, which no page URL contains.
