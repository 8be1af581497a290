# Pokellector card scraper: a verified model

`scraper.py` downloads every card image that pokellector.com lists for one
Pokémon. `download_pokemon_cards` does the following:

- it reads the page count from page 1 of the search results;
- it collects the card detail URLs of every result page into a set;
- it visits those URLs in sorted order;
- for each card it finds the image URL on the detail page and derives a file
  name from it;
- it skips the card when a file of that name already exists in the output
  directory, and otherwise downloads the image, counting successful downloads.

This project models that logic in Dafny and proves what it promises. Anything
the program reads from the network is given as a plain input:

- a page is the values BeautifulSoup would hand over: an anchor's `href`
  strings, or the `src`/`content` strings of the image candidates on a detail
  page;
- `None` stands for a request that failed.

The output directory is the set of names it holds.

Modules:

- `Wrappers`: `Option`.
- `Text`: substring search, `split(c)[0]`, `split(c)[-1]` and ASCII
  `lower()`, each with its contract.
- `CardLinks` models `search_pokemon_cards`:
  - the card-href pattern `^/[^/]+-Expansion/[^/]+-Card-[^#]+`, given as the
    regular expression's semantics (`MatchesCardPattern`) and as a scanner
    (`IsCardHref`), proved equivalent;
  - fragment stripping and the origin prefix;
  - the membership-checked append loop, proved equal to a first-occurrence
    dedupe.
- `Pagination` models `get_total_pages`:
  - the leftmost match of `[?&]p=(\d+)` (ASCII digits) and its value, with
    an href skipped when `int()` refuses a digit group of more than 4300 digits;
  - the running maximum starting at 1;
  - 0 on a failed request.
- `ImageLocator` models `get_card_image_url`:
  - the early-return cascade over the card section's `<img>`, the `og:image`
    meta tag, the `itemprop=image` meta tag and every `<img>`;
  - a reference definition, "the first qualifying entry of one flat priority
    list", proved equal to the cascade.
- `Sorting` models `sorted()` on a set of URLs: code-point lexicographic order.
  It proves that this order is a strict total order and that the sorted
  sequence is determined by the set.
- `Orchestrator` models `download_pokemon_cards`. It covers:
  - the page loop and the card loop;
  - file-name derivation and the existence check;
  - the download counter;
  - the per-card outcomes, including a failed request and an exception while
    writing that may leave a partial file.
- `InputValidation` models `is_valid_input`, including Python's `$`, which also
  matches before one final newline.

Points where the code does something a reader might not expect, which the model keeps:

- `get_total_pages` returns 0 when page 1 cannot be fetched, and the run then
  stops with "no results". It does not return 1 in that case.
- The image test is a substring test for `den-cards.pokellector.com`, not a
  test of the URL's host.
- The two meta-tag branches skip the extension check.
- The image lookup tries the card section and the two meta tags before it
  scans all `<img>` tags.
- Cards are visited in sorted order, not in the order they were found.

## Model

| member | source | states |
|---|---|---|
| Text.BeforeFirst | scraper.py:29 | `href.split('#')[0]` is the longest prefix without `#`: the result is a prefix, contains no `#`, and is followed by a `#` when shorter than the input |
| Text.AfterLast | scraper.py:148 | `split(c)[-1]` is the longest suffix without `c`: the result is a suffix, contains no `c`, and is preceded by `c` when shorter than the input |
| Text.Lower | scraper.py:57 | `lower()` keeps the length, leaves no upper-case ASCII letter, keeps every other character, and turns each upper-case letter into the lower-case letter at the same place in the alphabet |
| Text.LowerEqualIffEqualIgnoringCase | scraper.py:57 | two strings have the same `lower()` exactly when they differ only in ASCII case, both directions |
| Text.AfterLastOfSeparatedTail | scraper.py:57 | `(stem + c + tail).split(c)[-1]` is `tail` for any `tail` without `c`, whatever the stem holds |
| CardLinks.MatchesCardPattern | scraper.py:28 | definition: the semantics of `re.match(r'^/[^/]+-Expansion/[^/]+-Card-[^#]+', href)`; some split of the href gives a `/`, a `/`-free stem, `-Expansion/`, a `/`-free stem, `-Card-` and one non-`#` character, with anything after it |
| CardLinks.IsCardHref | scraper.py:28 | definition: the executable href filter, which looks for `-Expansion/` just before the second `/` and scans the next segment for `-Card-` plus a non-`#` character; `CardHrefMatchesPattern` proves it equal to `MatchesCardPattern` |
| CardLinks.CardUrl | scraper.py:29-30 | definition: `"https://www.pokellector.com" + href.split('#')[0]`; `CardUrlShape` states its shape |
| CardLinks.Candidates | scraper.py:26-30 | definition: the cleaned URL of each qualifying href in document order, repeats included; `CandidatesFromQualifyingHrefs` characterises it |
| CardLinks.Dedupe | scraper.py:31-32 | definition: the append-if-absent step applied to each candidate in turn; `DedupeElements` and `DedupeKeepsFirstOccurrenceOrder` characterise it |
| CardLinks.CardLinks | scraper.py:25-33 | definition: what a fetched page yields, `Dedupe(Candidates(hrefs))`; `CardLinksSoundAndComplete` characterises it |
| CardLinks.CardMarkerFromCorrect | scraper.py:28 | the scan for `-Card-` plus a non-`#` character succeeds exactly when such a marker exists with no `/` between the segment start and the marker |
| CardLinks.CardHrefMatchesPattern | scraper.py:28 | the href filter holds exactly when `re.match(r'^/[^/]+-Expansion/[^/]+-Card-[^#]+', href)` matches, with trailing content allowed |
| CardLinks.AcceptedHrefMatches | scraper.py:28 | one direction of the equivalence: every href the filter keeps matches the pattern |
| CardLinks.MatchingHrefAccepted | scraper.py:28 | the other direction: every href the pattern matches is kept by the filter |
| CardLinks.DedupeElements | scraper.py:31-32 | the membership-checked append keeps every candidate URL and repeats none |
| CardLinks.DedupeKeepsFirstOccurrenceOrder | scraper.py:31-32 | the kept URLs appear in the order of their first occurrences among the candidates |
| CardLinks.CandidatesFromQualifyingHrefs | scraper.py:26-30 | a URL is a candidate exactly when some qualifying href, with its fragment stripped and the origin prefixed, equals it |
| CardLinks.CardLinksSoundAndComplete | scraper.py:26-33 | the returned list has no duplicates, and a URL is in it exactly when some href on the page matches the pattern and cleans to that URL |
| CardLinks.CardLinksKeepFirstAppearanceOrder | scraper.py:26-33 | the returned list keeps first-appearance order |
| CardLinks.CandidatesOfPrefix | scraper.py:26-30 | the candidates of the first `n` hrefs are a prefix of all the candidates |
| CardLinks.FirstIndexIsFirstHref | scraper.py:26-32 | a URL's first position among the candidates is the number of candidates before the first href that yields it, so the list follows the order of those hrefs on the page |
| CardLinks.CandidateCountGrows | scraper.py:26-30 | a qualifying href puts strictly more candidates before every later href, so first positions increase with href positions |
| CardLinks.CardUrlShape | scraper.py:29-30 | a qualifying href yields a URL that starts with `https://www.pokellector.com/` and has no `#` |
| CardLinks.CardLinksAreSiteUrls | scraper.py:26-33 | every returned URL starts with `https://www.pokellector.com/` and has no `#` |
| CardLinks.FragmentVariantsGiveOneEntry | scraper.py:28-32 | two qualifying hrefs that differ only after their first `#` give the same URL, which is in the list exactly once |
| CardLinks.SearchPokemonCards | scraper.py:18-33 | a failed request gives `[]`; otherwise the loop returns the deduplicated list of cleaned qualifying hrefs |
| Pagination.DigitRunEnd | scraper.py:116 | the greedy `\d+` takes the longest run of digits |
| Pagination.FirstParamFrom | scraper.py:116 | `re.search` finds the leftmost index where `[?&]p=\d` matches, or none exists |
| Pagination.PageParam | scraper.py:115-121 | definition: `int(match.group(1))` of the leftmost `[?&]p=(\d+)` match; nothing when there is no match, and nothing when the digit group has more than 4300 digits, where `int()` raises and the bare `except` skips the href |
| Pagination.PageNumber | scraper.py:114-118 | definition: what one href contributes, the `'?p=' in href or '&p=' in href` pre-check followed by the search; `PageNumberIsLeftmostMatch` characterises it |
| Pagination.MaxPage | scraper.py:112-122 | definition: the running `max(max_page, page_num)` over the hrefs, starting at 1; `MaxPageIsMaximum` characterises it |
| Pagination.PageNumberIsLeftmostMatch | scraper.py:114-121 | an href contributes `n` exactly when its leftmost `[?&]p=(\d+)` match has at most 4300 digits and reads as `n`; it contributes nothing exactly when there is no match or that match's digits are too many for `int()`, so the `?p=`/`&p=` pre-check never rejects a match |
| Pagination.OverlongPageParamIsSkipped | scraper.py:115-121 | an href whose leftmost page parameter has more than 4300 digits leaves `max_page` unchanged, as the swallowed `ValueError` does |
| Pagination.MaxPageIsMaximum | scraper.py:112-122 | the page count is at least 1, at least every page number found, and either 1 or one of those numbers |
| Pagination.NoPageLinksMeansOnePage | scraper.py:112-122 | without page links the count is exactly 1 |
| Pagination.GetTotalPages | scraper.py:105-122 | a failed request gives 0; otherwise the loop computes the maximum of 1 and every page number |
| ImageLocator.HasImageExtension | scraper.py:57 | definition: `src.split('.')[-1].lower() in ('png', 'jpg', 'jpeg', 'webp')`, with ASCII lower-casing |
| ImageLocator.HasImageExtensionIgnoresCase | scraper.py:57 | two sources whose texts after the last `.` differ only in ASCII case get the same verdict from the extension test |
| ImageLocator.LowerInAllowList | scraper.py:57 | the lower-cased text is one of the four names exactly when the text equals one of them up to case |
| ImageLocator.ExtensionInAnyCase | scraper.py:57 | a source `stem.ext`, with no `.` in `ext`, passes the extension test exactly when `ext` is png, jpg, jpeg or webp in any mixture of cases |
| ImageLocator.SpellingAccepted | scraper.py:57 | any spelling of an allowed name, in whatever case, is accepted after any stem |
| ImageLocator.PngInAnyCase | scraper.py:57 | `.PNG`, `.Png` and `.png` are all accepted |
| ImageLocator.GifRejected | scraper.py:57 | `.gif` is rejected |
| ImageLocator.LocateImage | scraper.py:52-78 | definition: the early-return cascade on a parsed page, with the `src and` and non-empty `content` tests and no extension test on the meta branches; `LocateImageIsFirstQualifying` characterises it |
| ImageLocator.CardImageUrl | scraper.py:42-78 | definition: `get_card_image_url`, where a failed request gives `None` and a fetched page goes through the cascade |
| ImageLocator.WinningOffer | scraper.py:52-78 | reference definition: the first qualifying entry of the flat priority list (card section, `og:image`, `itemprop=image`, every `<img>`), where meta entries need only non-empty content that contains the host |
| ImageLocator.FirstImgFrom | scraper.py:73-76 | the scan of all `<img>` sources finds the first one that contains the image host and has an allowed extension |
| ImageLocator.FallbackIsFirstQualifying | scraper.py:72-77 | when the first three branches fail, the last one picks the first qualifying entry of the priority list |
| ImageLocator.LocateImageIsFirstQualifying | scraper.py:52-78 | the cascade returns the source of the first qualifying entry in the fixed priority order: card section, `og:image`, `itemprop=image`, then all `<img>` |
| ImageLocator.LocatedImageQualifies | scraper.py:52-78 | a located image contains `den-cards.pokellector.com`; one from the card section or the `<img>` scan also has an allowed extension, compared case-insensitively as `ExtensionInAnyCase` shows; there is none exactly when no candidate qualifies |
| Sorting.LexLess | scraper.py:143 | definition: Python's `<` on `str`, which compares code points lexicographically and puts a proper prefix first; the three lemmas below show it is a strict total order |
| Sorting.LexLessIrreflexive | scraper.py:143 | no URL sorts before itself |
| Sorting.LexLessTransitive | scraper.py:143 | the string order is transitive |
| Sorting.LexLessTotal | scraper.py:143 | of two different URLs, one sorts before the other |
| Sorting.AscendingIsUnique | scraper.py:143 | two strictly ascending sequences with the same elements are equal, so `sorted()` has exactly one result |
| Sorting.MinOf | scraper.py:143 | a non-empty set's least element under the string order |
| Sorting.SortedSeq | scraper.py:143 | `sorted(all_card_urls)` holds each URL of the set once, in strictly ascending order |
| Orchestrator.Filename | scraper.py:148 | the derived file name contains no `/` |
| Orchestrator.FilenameIsLastSegment | scraper.py:148 | the image URL ends in the file name, which is the whole URL or follows a `/` |
| Orchestrator.PathExists | scraper.py:149-150 | definition: `os.path.exists(os.path.join(output_dir, filename))` for a name without `/`, which holds for a name in the directory and also for `""`, `.` and `..`, since those denote the directory itself or its parent |
| Orchestrator.CardOutcome | scraper.py:146-159 | definition: one card's outcome. A missing image URL or an empty one (`if image_url:` is a falsy test) gives no image; an existing path gives already downloaded; otherwise the download's result decides: saved, failed request, or an error while writing |
| Orchestrator.Step | scraper.py:146-161 | definition: one iteration of the card loop. It logs the card's outcome, increments `downloaded` only on a save, and adds the file name on a save or on a write error that left a partial file |
| Orchestrator.TrailingSlashImageIsSkipped | scraper.py:147-151 | an image URL ending in `/` gives the empty name, whose path is the output directory itself, so the card is reported as already downloaded |
| Orchestrator.ProcessCards | scraper.py:143-162 | the card loop adds one log event per card |
| Orchestrator.LogPrefix | scraper.py:143-161 | each card's event is decided by the directory contents just before that card |
| Orchestrator.FilesGrow | scraper.py:150-155 | the directory only gains names along the loop |
| Orchestrator.DownloadsAreBounded | scraper.py:142-155 | `downloaded` never exceeds the number of cards, nor the number of names the loop adds to the directory |
| Orchestrator.DownloadedEvents | scraper.py:153-155 | definition: the number of `Downloaded` events in a log, which is what `downloaded += 1` counts |
| Orchestrator.DownloadedCountsSuccesses | scraper.py:153-155 | `downloaded` rises by exactly the number of `Downloaded` events the loop logs |
| Orchestrator.AttemptOnlyWhenAbsent | scraper.py:150-153 | a download is attempted only when no file of that name exists |
| Orchestrator.DownloadLeavesFile | scraper.py:153-155 | after a successful download the file name is present |
| Orchestrator.DownloadedNameIsSkippedLater | scraper.py:148-155 | a later card whose image has a downloaded card's file name is skipped as already downloaded |
| Orchestrator.SecondRunSkipsDownloaded | scraper.py:148-155 | a second run over the same cards and detail pages, from the directory the first run left, skips every image the first run downloaded |
| Orchestrator.CollectedUrls | scraper.py:135-139 | definition: `all_card_urls` after the updates for pages 1 to `n`; `CollectedUrlsIsUnion` characterises it |
| Orchestrator.UnionOfPages | scraper.py:135-139 | definition: `all_card_urls.update(card_urls)` applied for pages 1 to `n`, starting from the empty set |
| Orchestrator.UnionOfPagesMembers | scraper.py:135-139 | a URL is in the union of pages 1 to `n` exactly when one of those pages holds it |
| Orchestrator.CollectedUrlsIsUnion | scraper.py:135-139 | a URL is collected after `n` pages exactly when some page from 1 to `n` returned it |
| Orchestrator.CollectedUrlsAreSiteUrls | scraper.py:135-139 | every collected URL starts with `https://www.pokellector.com/` and has no `#` |
| Orchestrator.CollectCardUrls | scraper.py:135-140 | the page loop yields the union of the card URLs of pages 1 to the page count |
| Orchestrator.VisitCards | scraper.py:142-162 | the card loop's final counter, directory and per-card events are those of the card-by-card fold |
| Orchestrator.DownloadPokemonCards | scraper.py:124-162 | a run stops with nothing done when the page count is 0; otherwise it visits exactly the collected URLs, once each, in ascending order; its result is the card-by-card fold, with `downloaded` at most the number of unique URLs |
| InputValidation.MatchesNamePattern | scraper.py:167 | definition: the semantics of `re.match(r"^[A-Za-z0-9\- '\.]+$", s)`; some non-empty prefix consists of allowed characters and is either the whole string or followed by one final `\n` |
| InputValidation.IsValidInput | scraper.py:165-167 | definition: `is_valid_input`, which drops one final `\n` and then requires a non-empty string of allowed characters; `IsValidInputMatchesPattern` proves it equal to `MatchesNamePattern` |
| InputValidation.IsValidInputMatchesPattern | scraper.py:165-167 | `is_valid_input` holds exactly when `re.match(r"^[A-Za-z0-9\- '\.]+$", s)` matches, with `$` also matching before a final newline |
| InputValidation.NewlineFreeInput | scraper.py:167 | for a string without newlines, `is_valid_input` holds exactly when the string is non-empty and every character is a letter, a digit, `-`, space, `'` or `.` |
| InputValidation.TrailingNewlineAccepted | scraper.py:167 | one trailing newline leaves the verdict unchanged; two make the input invalid |

## Left out

- HTTP requests, headers, timeouts and `raise_for_status` are not modelled. Each fetch is an input that is either a parsed page or `None`, and each download is an input outcome: saved, request failed, or write failed with or without a partial file.
- HTML parsing with BeautifulSoup is not modelled. Its results (hrefs, `src` and `content` strings) are inputs.
- `mkdir` is not modelled, and neither is the streaming of image bytes to the file. The directory is the set of names it holds. `os.path.exists` is membership in that set, plus the names `""`, `.` and `..`, which denote existing directories.
- `time.sleep` and every `print` are not modelled, including the "Complete!" line that sits inside the per-card loop.
- The command-line and interactive entry points are not modelled: `sys.argv`, `input`, `strip`, the nested `main` with its re-entrant loop, and the top-level `__main__` block. They are driven by I/O. `is_valid_input` is nested inside `download_pokemon_cards`, so nothing at module level ever calls it; it is modelled on its own.
- The search term is not modelled. It only shapes the requests (`criteria` is lower-cased), and it is passed to `get_card_image_url` but never used there.
- Pagination.PageNumber: `\d` is restricted to ASCII digits. Python's `\d` also accepts other Unicode decimal digits.
- Pagination.PageParam: the `int()` digit limit is fixed at CPython's default of 4300 digits. A limit changed through `sys.set_int_max_str_digits` or `PYTHONINTMAXSTRDIGITS`, and Python versions without any limit, are not modelled.
- Text.Lower: lower-casing is ASCII only. Python's `str.lower` also folds non-ASCII letters.
- Exceptions that parsing or the image lookup might raise inside the card loop are not modelled. Only failures of the download itself reach `DownloadError`.
- `get_total_pages` and `search_pokemon_cards(…, 1)` both fetch page 1. The model gives each its own input, so the two fetches may differ, as they can in the program.
