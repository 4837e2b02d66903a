# Essay sync, modelled in Dafny

`scripts/sync-essays.py` fills the essay collection of the site with
Paul Graham's essays. It does four things:

- It reads the anchors of `articles.html` and keeps the links to essay pages.
- It fetches each essay it does not have yet.
- It picks the part of the page that holds the essay, converts it to
  Markdown and cleans it up.
- It writes the essay as `<slug>.md`, with a YAML front matter: title, date,
  `dateISO`, slug, source URL, word count and reading time.

A run prints how many essays it wrote. An essay whose slug already exists is
skipped unless `--force` is given.

This project models that script in Dafny. Each module follows one stage:

| module | file | what it models |
|---|---|---|
| `PyStr` | `py_str.dfy` | the Python string built-ins the script uses: `str.isspace`, `strip`, `split()`, `replace`, slicing with `[:n]`, `startswith`/`endswith`, and `str(n)` for a natural number |
| `EssayLinks` | `essay_links.dfy` | the anchor loop of `get_essay_links`, as a `method` with a loop, proved against the function `EssayLinksOf` |
| `ContentSelection` | `content_selection.dfy` | the three strategies of `extract_content`, including Python's `max` keeping the first of equal maxima |
| `EssayText` | `essay_text.dfy` | the text processing in `scrape_essay`: see below |
| `FrontMatter` | `front_matter.dfy` | `write_essay`'s title escaping and the exact text of the file, plus a reader for that layout that gives every field back |
| `Sync` | `sync.dfy` | `get_existing_slugs` and the loop of `main`, as a `method` proved against the functions `NewCount` and `FilesAfter` |

The `EssayText` module covers these steps of `scrape_essay`:

- the collapse of newline runs (`re.sub(r"\n{3,}", "\n\n", …)`);
- the removal of a trailing table bar (`re.sub(r"\|\s*$", "", …)`);
- `strip`;
- the word count and the reading time;
- the two date fields;
- the record the function returns.

The bar pattern `\|\s*$` is modelled exactly. Its greedy `\s*` always runs to
the end of the text, so it matches exactly when the last non-whitespace
character is `|`. The removal then cuts the text just before that bar. Both
readings of `$` (end of text, or before a final newline) give the same result.

"Whitespace" is the set of characters for which Python's `str.isspace` holds.
`split()`, `strip()` and the regex class `\s` all use this set.

HTML parsing and Markdown conversion come from libraries, so they are not
modelled. Each candidate element is described by three things:

- the length of its text;
- the length of its stripped text;
- the Markdown the converter makes of it.

Calls to the outside world become inputs:

- the anchors of the articles page;
- each fetched page: the date htmldate finds, that date's month-and-year
  rendering when it parses, and the body;
- the slug function;
- the outcome of each scrape and write;
- the directory listing.

The essay directory is a map from file name to file text.

## Model

| member | source | states |
|---|---|---|
| `EssayLinks.GetEssayLinks` | scripts/sync-essays.py:37-51 | the loop returns exactly `EssayLinksOf(anchors)`: the links of the accepted anchors, in page order |
| `EssayLinks.EssayLinksMembership` | scripts/sync-essays.py:39-50 | about `LinkOf` (the anchor's text and its `href` or "", lines 39-40) and `IsEssayLink` (the test at lines 42-49): a link is in the result if and only if some anchor passes all six tests (non-empty title, non-empty href, not `http…`, not `#…`, ends in `.html`, not `articles.html`) and carries that title and href |
| `EssayLinks.EssayLinksInPageOrder` | scripts/sync-essays.py:38-50 | the result is an order-preserving subsequence of the anchors' (title, href) pairs |
| `EssayLinks.EssayLinksAllAccepted` | scripts/sync-essays.py:42-50 | every returned link satisfies the filter itself |
| `EssayLinks.EssayLinksCount` | scripts/sync-essays.py:38-50 | one link is kept per accepted anchor: the result has as many links as there are anchors that pass the test, so a link repeated on the page is kept as often as it appears |
| `EssayLinks.EssayLinksLength` | scripts/sync-essays.py:37-51 | there are never more links than anchors |
| `ContentSelection.FirstLongest` | scripts/sync-essays.py:82 | `max(..., key=len(get_text()))`: an index of greatest text length, and every earlier element is strictly shorter, so this is the first maximum |
| `ContentSelection.FirstLongestUnique` | scripts/sync-essays.py:89 | those two properties fix the index, so the `<td>` choice is determined the same way |
| `ContentSelection.ExtractContent` | scripts/sync-essays.py:71-73 | a page without `<body>` gives the empty string |
| `ContentSelection.SelectSpec` | scripts/sync-essays.py:79-94 | about `Select`, the three strategies: the first longest `<font>` is taken when its stripped text exceeds 200 characters. Otherwise the first longest `<td>` is taken under the same test. Otherwise the whole body is taken. The Markdown returned is that of the chosen element |
| `ContentSelection.ShortElementsFallBack` | scripts/sync-essays.py:83-94 | when no `<font>` or `<td>` has more than 200 stripped characters, the whole body is converted |
| `EssayText.CollapseLeavesNoTriple` | scripts/sync-essays.py:123 | about `CollapseNewlines`, the substitution of `\n{3,}` by two newlines: after the substitution no three consecutive newlines remain |
| `EssayText.CollapseKeepsClean` | scripts/sync-essays.py:123 | text without three consecutive newlines is unchanged |
| `EssayText.CollapseIdempotent` | scripts/sync-essays.py:123 | applying the substitution twice equals applying it once |
| `EssayText.CollapseKeepsText` | scripts/sync-essays.py:123 | the characters other than newlines are kept, in order |
| `EssayText.TrailingPipeSpec` | scripts/sync-essays.py:124 | about `RemoveTrailingPipe`, the substitution of `\|\s*$` by "": the result is a prefix of the text. When it is shorter, the cut is at a `\|` followed only by whitespace. When it is not shorter, no `\|` in the text is followed only by whitespace |
| `EssayText.CleanContentNoTriple` | scripts/sync-essays.py:123-125 | about `CleanContent`, the three clean-up steps in order: the cleaned content has no run of three newlines |
| `EssayText.CleanContentStripped` | scripts/sync-essays.py:123-125 | about `CleanContent`: the cleaned content has no whitespace at either end |
| `EssayText.ReadingTime` | scripts/sync-essays.py:129 | at least 1 minute; 1 for no words; otherwise the least whole number of 230-word minutes that covers the words |
| `EssayText.ReadingTimeMonotone` | scripts/sync-essays.py:129 | more words never give a shorter reading time |
| `EssayText.StrippedBlankIsEmpty` | scripts/sync-essays.py:125-128 | about `WordCount` (`len(content.split())`): stripped text has no words exactly when it is empty |
| `EssayText.DatesOf` | scripts/sync-essays.py:106-117 | no date or an empty date gives two empty fields. `dateISO` is the first seven characters of a found date, or all of it when shorter. `date` is the month-and-year rendering when the date parses, and the found text when it does not |
| `EssayText.ScrapeEssaySpec` | scripts/sync-essays.py:97-138 | about `ScrapeEssay`: the record has source URL `https://paulgraham.com/<href>` and content that is stripped and free of triple newlines. The content is empty exactly when the word count is 0. The reading time is at least 1 and covers the words. `dateISO` has at most 7 characters |
| `PyStr.Take` | scripts/sync-essays.py:111 | `s[:n]`: a prefix of length `min(n, len(s))` |
| `PyStr.StripSpec` | scripts/sync-essays.py:125 | about `Strip`: `strip()` keeps the infix of the text between two positions. Everything before and after that infix is whitespace, and the infix neither starts nor ends with whitespace |
| `PyStr.StripEmptyIffBlank` | scripts/sync-essays.py:125 | `strip()` gives "" exactly when the text is all whitespace |
| `PyStr.StripIdempotent` | scripts/sync-essays.py:125 | stripping twice equals stripping once |
| `PyStr.Split` | scripts/sync-essays.py:128 | every word of `split()` is non-empty and has no whitespace |
| `PyStr.SplitKeepsText` | scripts/sync-essays.py:128 | the words, concatenated, are exactly the non-whitespace characters of the text, in order |
| `PyStr.SplitCountsWords` | scripts/sync-essays.py:128 | about `WordCount`: the number of words `split()` returns equals the number of word starts of s, counted independently: the characters that are not whitespace and are first or follow whitespace |
| `PyStr.SplitEmptyIffBlank` | scripts/sync-essays.py:128 | `split()` gives no words exactly when the text is all whitespace |
| `PyStr.NatToString` | scripts/sync-essays.py:150-151 | `str(n)` is a non-empty string of digits with no leading zero |
| `PyStr.NatToStringRoundTrip` | scripts/sync-essays.py:150-151 | parsing `str(n)` gives back n |
| `PyStr.ReplaceSuffixMd` | scripts/sync-essays.py:28 | about `Replace`, Python's left-to-right `str.replace`: `(stem + ".md").replace(".md", "")` is the stem when the stem holds no ".md" |
| `FrontMatter.EscapeTitleShape` | scripts/sync-essays.py:143 | about `EscapeTitle`, which is `Replace(title, "\"", "\\\"")`: the escaped title is longer by the number of quotes, and every quote in it follows a backslash |
| `FrontMatter.UnescapeEscapeTitle` | scripts/sync-essays.py:143 | removing the backslash before each quote gives back the title |
| `FrontMatter.ReadWrittenEssay` | scripts/sync-essays.py:143-156 | about `EssayFile`, the text `write_essay` writes: reading the written file back gives title, date, dateISO, slug, sourceUrl, word count, reading time and the content, given that no string field contains a newline |
| `FrontMatter.EssayFileShape` | scripts/sync-essays.py:144-156 | about `EssayFile`: the file starts with `---` and a `title: "` line, and the front matter ends with a `---` line |
| `Sync.SyncEssays` | scripts/sync-essays.py:174-195 | about `Processed` (the `continue` test at line 177) and `Saves` (the tests at lines 182-185): the returned counter equals `NewCount` and the new directory equals `FilesAfter`: only links that are processed, scraped, non-empty and written are counted and stored under `<slug>.md` |
| `Sync.NewCountBounds` | scripts/sync-essays.py:174-185 | about `NewCount`: the counter never exceeds the number of links, and is 0 when every slug is skipped |
| `Sync.SavedEssayHasWords` | scripts/sync-essays.py:182-186 | an essay that is saved has a word count of at least 1 |
| `Sync.FilesAfterKeys` | scripts/sync-essays.py:174-185 | about `FilesAfter`: after the loop, the directory has the files it had plus one `<slug>.md` for each counted link, and nothing else |
| `Sync.FilesAfterUntouched` | scripts/sync-essays.py:174-185 | about `FilesAfter`: a file that no counted link writes keeps its text |
| `Sync.FilesAfterWritten` | scripts/sync-essays.py:176-185 | about `FilesAfter`: the file `<slug>.md` of a counted link holds `EssayFile` of that slug, title and record, when no later counted link has the same slug. The last write wins |
| `Sync.WrittenSlugExists` | scripts/sync-essays.py:23-28 | about `ExistingSlugs`: a file `<slug>.md` is listed by `get_existing_slugs` as that slug, when the slug holds no ".md" |
| `Sync.SecondRunSkipsSaved` | scripts/sync-essays.py:174-178 | a second run without `--force` skips every link that the first run saved, when the slug holds no ".md" |

## Left out

- HTTP requests (`requests.get`, `raise_for_status`) and the pause after each link are not modelled. A page becomes an input, and so does a failed fetch.
- HTML parsing (BeautifulSoup) is not modelled. Neither are the removal of `script`/`style`/`img` and the unwrapping of layout tags. These are library calls on a parse tree. What `extract_content` depends on is kept as the lengths and Markdown of each element.
- `html_to_markdown` is left out: the `<br>` substitution (line 64) and markdownify. They work on serialised HTML, which is not modelled. The Markdown of each element is an input.
- Date detection is not modelled. This covers `htmldate.find_date`, `strptime` and `strftime`. The found date and its "%B %Y" rendering are inputs, and the rendering is `None` when parsing fails.
- `slugify(title, max_length=80)` is a third-party function. It is a parameter of `Sync.SyncEssays`.
- The file system is not modelled. The directory listing is an input (`None` when the directory is missing; `os.makedirs` is not modelled). Files are a map from name to text.
- Exceptions are not modelled as such. A raising scrape is the `ScrapeFailed` outcome. A raising write is `writeOk == false`, which leaves the directory unchanged. A partially written file is not modelled.
- `print` output and `sys.argv` parsing are not modelled; `--force` is a boolean parameter.
- `Sync.SyncEssays`: the scrape result of each link is an input of the loop, not computed by `EssayText.ScrapeEssay` inside it. `Sync.SavedEssayHasWords` connects the two.
- `EssayText.ReadingTime` uses exact integer ceiling division. The source divides in floating point, which differs only for word counts beyond 2^53.
- `FrontMatter.ReadWrittenEssay` uses the model's own line reader, not a YAML parser. The source escapes quotes but not backslashes, and the model keeps that as written. A YAML reader would read a backslash in a title as an escape sequence.
- Two links with the same slug are both processed and both counted, as in the source. The later file replaces the earlier one.
