# Headline scraper: a Dafny model of its decision logic

The scraper (`scrape_headlines.py`) fetches one news page, evaluates a list of
selectors against it, keeps the non-empty matched texts in selector order and
then match order, drops repeated texts (first occurrence wins), and writes the
first `max` of them to a text file as a numbered list. The selectors come from
the command line or are guessed from the page's host name.

This project models the logic between the fetch and the file:

- `matching.dfy` (module `Matching`): the query-or-tag-name classification of a
  selector and the CSS-query step with its fallback to tag-name lookup when the
  query engine raises. A parsed page is a `Document`: two lookups, `select`
  (giving `Raised` or `Found(texts)`) and `findAll` (giving texts).
- `site_selectors.dfy` (module `SiteSelectors`): the case-insensitive,
  first-match-wins lookup of the host name in the table of known sites, the
  generic fallback, and the choice between explicit and guessed selectors.
- `dedupe.dfy` (module `Dedupe`): order-preserving deduplication as a
  specification function, with its characterisation (no duplicates, same values,
  order of first occurrence) and the proof that it is the only sequence with
  those properties.
- `extraction.dfy` (module `Extraction`): `ExtractHeadlines` and the scraper's
  two loops, `CollectTitles` (over selectors and nodes) and `DedupeTitles`
  (with a `seen` set), proved equal to deduplicating the collected titles.
- `output.dfy` (module `Output`): the numbered lines `save_headlines` writes and
  the count it returns, with a parser that reads each line back.
- `pipeline.dfy` (module `Pipeline`): the part of `main` after the fetch —
  selector choice, extraction, the "no headlines" exit, and saving.
- `wrappers.dfy` (module `Wrappers`): `Option`, for Python's `None`.

Three behaviours of the code that are easy to miss:

- A space anywhere in a selector, leading or trailing included, makes it a CSS
  query. It need not be an interior space.
- A maximum of `0` saves every headline, as a missing maximum does, because of
  `max_items or len(headlines)`. The count returned is `min(max, available)`
  only for a positive maximum.
- Explicit selectors take precedence only when at least one was given.

## Model

| member | source | states |
|---|---|---|
| Matching.IsQuery | scrape_headlines.py:21 | A selector is a CSS query exactly when its first character is `.` or `#`, or some character is a space, `>` or `[`. |
| Matching.Classification | scrape_headlines.py:21 | A leading `.` or `#` always makes a CSS query. So does a space, `>` or `[` anywhere. A word of letters and digits is a tag name, and so is such a word with a `.` after its first character (`div.x`). |
| Matching.ClassificationExamples | scrape_headlines.py:21 | Examples: `h2` and `div.x` are tag names; `.headline`, `#main h2`, `div > span` and `a[href]` are CSS queries. |
| Matching.Matches | scrape_headlines.py:20-24 | A tag name is only looked up by tag name. A query's CSS result is used when the engine does not raise. When it raises, the tag-name lookup of the same string is used. |
| SiteSelectors.ShippedSelectorKinds | scrape_headlines.py:21 | Of the selectors shipped in the site table, the class selectors (leading `.`) are CSS queries and the heading tags `h1`, `h2`, `h3` are tag names. |
| SiteSelectors.Lower | scrape_headlines.py:45 | Lower-casing keeps the length and maps each character on its own: ASCII capitals become small letters, everything else is unchanged. |
| SiteSelectors.Contains | scrape_headlines.py:47-51 | The substring test `needle in hay` holds for the empty needle and never for a needle longer than the host. |
| SiteSelectors.ContainsOccurs | scrape_headlines.py:47-51 | The substring test `p in host` holds exactly when `p` occurs at some index of `host`. |
| SiteSelectors.FirstMatch | scrape_headlines.py:47-54 | Table lookup returns nothing exactly when no pattern occurs in the host. Otherwise it returns the selectors of the first entry whose pattern occurs, and no earlier entry's pattern occurs. |
| SiteSelectors.NytimesDotSubsumed | scrape_headlines.py:51 | A host containing `nytimes.` also contains `nytimes`, so the second New York Times test is redundant. |
| SiteSelectors.GuessSelectors | scrape_headlines.py:39-54 | The if-chain over `bbc.`, `cnn.` and `nytimes` on the lower-cased host name (missing host as "") equals a first-match lookup in the ordered table, with the six generic selectors as the fallback. The result is never empty. |
| SiteSelectors.GuessIgnoresCase | scrape_headlines.py:44-45 | A host name and its lower-cased form get the same selectors. |
| SiteSelectors.GuessFallback | scrape_headlines.py:53-54 | A host name containing none of the known patterns gets the generic selectors. |
| SiteSelectors.GuessBbc | scrape_headlines.py:47-48 | `www.BBC.com` gets the BBC selectors. |
| SiteSelectors.NoKnownInitials | scrape_headlines.py:47-51 | A host name with no `b`, `c` or `n` contains none of `bbc.`, `cnn.` and `nytimes`. |
| SiteSelectors.GuessUnknown | scrape_headlines.py:53-54 | `example.org` gets the generic selectors. |
| SiteSelectors.GuessNoHost | scrape_headlines.py:44 | A URL without a host name gets the generic selectors. |
| SiteSelectors.ChooseSelectors | scrape_headlines.py:85 | Explicit selectors, when there are any, are used verbatim and in order. Otherwise the guessed ones are used. The result is never empty. |
| Dedupe.Dedup | scrape_headlines.py:31-36 | The deduplicated list has no duplicates. It holds exactly the values of its input and is no longer than it. |
| Dedupe.DedupFirstOccurrenceOrder | scrape_headlines.py:31-36 | The deduplicated list holds its values in the order of their first occurrence in the input. |
| Dedupe.DedupSubsequence | scrape_headlines.py:31-37 | The deduplicated list is a subsequence of its input, embedded at each value's first index: entry `k` sits at the first occurrence of that value, and these indices increase. Later duplicates are dropped and nothing moves. |
| Dedupe.FirstOccurrenceOrderUnique | scrape_headlines.py:31-36 | Two duplicate-free lists with the same values, both in order of first occurrence in one input, are equal. |
| Dedupe.DedupCharacterization | scrape_headlines.py:31-37 | A list is the deduplication of an input if and only if it has no duplicates, holds the same values, and lists them in order of first occurrence. |
| Dedupe.DedupIdempotent | scrape_headlines.py:31-36 | Deduplicating twice gives the same list as deduplicating once. |
| Dedupe.DedupNoDuplicates | scrape_headlines.py:31-36 | A list without duplicates is returned unchanged. |
| Extraction.NonEmpty | scrape_headlines.py:27-29 | The filtered texts are exactly the non-empty input texts and are no more than the input. |
| Extraction.NonEmptyAppend | scrape_headlines.py:28-29 | One more node text adds that text at the end, or nothing when it is empty. |
| Extraction.Collected | scrape_headlines.py:18-29 | The titles collected before deduplication: each selector's non-empty texts in selector order, so no collected title is empty. |
| Extraction.CollectedMembers | scrape_headlines.py:18-29 | A title is collected exactly when it is a non-empty text matched by one of the selectors. |
| Extraction.CollectedConcat | scrape_headlines.py:18-29 | The titles of the selector list `a + b` are those of `a` followed by those of `b`. Collection follows selector order, then match order. |
| Extraction.SilentSelector | scrape_headlines.py:25-29 | A selector whose matches are all empty texts contributes nothing, wherever it stands. |
| Extraction.CollectTitles | scrape_headlines.py:17-29 | The nested loops over selectors and matched nodes build exactly the collected titles: each selector's non-empty texts, in selector order and then match order. |
| Extraction.DedupeTitles | scrape_headlines.py:31-36 | The loop with its `seen` set returns exactly the deduplication of its input. |
| Extraction.ExtractHeadlines | scrape_headlines.py:15-37 | The loops return the deduplication of the collected titles. The result has no empty string and no duplicate. It holds exactly the non-empty texts matched by some selector. |
| Output.Decimal | scrape_headlines.py:60 | A line number is rendered as a non-empty string of digits with no leading zero. |
| Output.FormatLine | scrape_headlines.py:60 | The line written for number `i` and a headline reads back as exactly that number and that headline. |
| Output.ParseFormatLine | scrape_headlines.py:60 | A line `"{i}. {text}\n"` reads back as the number `i` and the headline `text`. |
| Output.Numbered | scrape_headlines.py:59 | Numbering from `start`, as `enumerate(..., start=1)` does, gives one line per headline. |
| Output.NumberedAt | scrape_headlines.py:59-60 | Line `i` of a numbering that starts at `start` carries number `start + i` and the `i`-th headline. |
| Output.Limit | scrape_headlines.py:57 | `max_items or len(headlines)`: a positive maximum is kept, and a missing or zero maximum becomes the number of headlines. |
| Output.Take | scrape_headlines.py:59-61 | The slice `s[:m]` is the prefix of `s` of length `min(m, len(s))`. |
| Output.SaveHeadlines | scrape_headlines.py:56-61 | For a positive maximum, the count returned is `min(max, len)`. For a missing or zero maximum, it is `len`. The count equals the number of strings written, one per headline. Write `i` (0-based) is `"{i+1}. {headlines[i]}\n"`. |
| Output.SavedLinesReadBack | scrape_headlines.py:59-60 | Every string written reads back as its 1-based position and the headline at that position. |
| Pipeline.Scrape | scrape_headlines.py:85-94 | Nothing is written exactly when every chosen selector matches only empty texts. Otherwise the distinct headlines found are counted and saved with the given maximum. The saved count is `min(max, found)`, or `found` for a zero maximum. |

## Left out

- `fetch_html` and its error handling (`requests` HTTP and network errors, the user-agent header, the timeout): network I/O. `Scrape` starts from an already fetched and parsed page.
- HTML parsing, `soup.select`, `soup.find_all` and `node.get_text`: library calls. A page is a pair of lookups that give the already-extracted texts of the matched nodes. Text normalisation (joining with spaces, stripping) is not modelled. A `find_all` that raises in the fallback path is not modelled.
- `urlparse`: the host name is an input (`Option<string>`, `None` for a URL without one).
- Opening and writing the output file, and its encoding: the output is the sequence of strings written and the count returned.
- The command-line parser, the politeness delay (`time.sleep`) and all printed diagnostics.
- Scrape: the maximum is a natural number. A negative `--max` slices from the end in Python, which is accidental behaviour.
- SaveHeadlines: `max_items` is an `Option<nat>`; negative values are not modelled, for the same reason.
- SaveHeadlines: the model's lines are the strings written, one per headline. A headline holding `"\n"` (which `get_text` keeps inside a text node) takes up several lines of the file, so the read-back of `SavedLinesReadBack` holds per write, not per file line.
- GuessSelectors: lower-casing maps only the ASCII letters, while Python's `str.lower` is Unicode-aware.
- ChooseSelectors: a selector list that was not given and an empty list are both `[]`. The command-line parser never produces an empty list.
