/**
  The run for one search term (`download_pokemon_cards`).

  Everything the run reads from the network is given by a `Web` value, and
  the output directory by the set of names it holds.  The run resolves the
  page count, stops when it is 0, unions the card URLs of pages 1 to that
  count, and then visits the URLs in sorted order: for each card it looks up
  the image, derives the file name from the image URL, skips the card if a
  file of that name exists, and otherwise downloads, counting successful
  downloads only.  A failure on one card never stops the loop.
 */
module Orchestrator {
  import opened Wrappers
  import opened Text
  import CardLinks
  import Pagination
  import opened ImageLocator
  import opened Sorting

  /** What one call of `download_image` ends in, seen from the loop. */
  datatype DownloadOutcome =
    | Saved                       // it returned True: the file was written completely
    | RequestFailed               // it returned False: the request failed and no file was opened
    | WriteFailed(partial: bool)  // opening or writing the file raised; `partial`: a file was left behind

  /**
    The network as one run sees it.  `paginationPage` is page 1 as
    `get_total_pages` fetched it, `searchPage(p)` is page `p` as
    `search_pokemon_cards` fetched it, `detailPage(u)` is the detail page of
    card `u` (each is `None` when the request failed), and `download(u)` is how
    downloading the image of card `u` ends.  A run visits each card once, so
    one value per card URL covers every behaviour of the network.
   */
  datatype Web = Web(
    paginationPage: Option<seq<string>>,
    searchPage: nat -> Option<seq<string>>,
    detailPage: string -> Option<DetailPage>,
    download: string -> DownloadOutcome)

  /** What the loop reports for one card. */
  datatype CardEvent =
    | NoImage
    | AlreadyDownloaded(filename: string)
    | Downloaded(filename: string)
    | DownloadFailed(filename: string)
    | DownloadError(filename: string, partial: bool)

  /** The card's image was requested from the network. */
  predicate Attempted(e: CardEvent) {
    e.Downloaded? || e.DownloadFailed? || e.DownloadError?
  }

  /** `image_url.split('/')[-1]`: the text after the last `/`. */
  function Filename(imageUrl: string): (name: string)
    ensures '/' !in name
  {
    AfterLast(imageUrl, '/')
  }

  /**
    The file name is the image URL's last path segment: the URL ends in it,
    and it is the whole URL or follows a `/`.
   */
  lemma FilenameIsLastSegment(imageUrl: string)
    ensures var name := Filename(imageUrl);
      && |name| <= |imageUrl| && imageUrl == imageUrl[..|imageUrl| - |name|] + name
      && (|name| < |imageUrl| ==> imageUrl[|imageUrl| - |name| - 1] == '/')
  {
    var name := Filename(imageUrl);
    assert imageUrl == imageUrl[..|imageUrl| - |name|] + imageUrl[|imageUrl| - |name|..];
  }

  /**
    `os.path.exists(os.path.join(output_dir, name))` for a `name` without `/`:
    the names `""`, `.` and `..` denote the directory itself or its parent,
    which exist.
   */
  predicate PathExists(files: set<string>, name: string) {
    name == "" || name == "." || name == ".." || name in files
  }

  /**
    What the card loop needs of the network: the image URL each card's
    detail page yields, and how downloading that image ends.
   */
  datatype Visits = Visits(imageOf: string -> Option<string>, download: string -> DownloadOutcome)

  /** The `Visits` of a `Web`: `get_card_image_url` on each card's fetched detail page. */
  function VisitsOf(web: Web): Visits {
    Visits(u => CardImageUrl(web.detailPage(u)), web.download)
  }

  /** The outcome for one card, given the names present in the directory. */
  function CardOutcome(files: set<string>, web: Visits, cardUrl: string): CardEvent {
    var image := web.imageOf(cardUrl);
    if image.None? || image.value == "" then NoImage
    else
      var name := Filename(image.value);
      if PathExists(files, name) then AlreadyDownloaded(name)
      else
        match web.download(cardUrl)
        case Saved => Downloaded(name)
        case RequestFailed => DownloadFailed(name)
        case WriteFailed(partial) => DownloadError(name, partial)
  }

  /**
    An image URL that ends in `/` gives the empty file name, whose path is the
    output directory itself; so the card is reported as already downloaded
    and nothing is fetched.
   */
  lemma TrailingSlashImageIsSkipped(files: set<string>, web: Visits, cardUrl: string)
    requires web.imageOf(cardUrl).Some?
    requires var u := web.imageOf(cardUrl).value; |u| > 0 && u[|u| - 1] == '/'
    ensures CardOutcome(files, web, cardUrl) == AlreadyDownloaded("")
  {
    FilenameIsLastSegment(web.imageOf(cardUrl).value);
  }

  /** The loop's state: the counter, the directory's names and the per-card log. */
  datatype Progress = Progress(downloaded: nat, files: set<string>, log: seq<CardEvent>)

  function Step(p: Progress, web: Visits, cardUrl: string): Progress {
    var e := CardOutcome(p.files, web, cardUrl);
    Progress(
      if e.Downloaded? then p.downloaded + 1 else p.downloaded,
      if e.Downloaded? || (e.DownloadError? && e.partial) then p.files + {e.filename} else p.files,
      p.log + [e])
  }

  /** The loop over `cards`, from state `start`: one log event per card. */
  function ProcessCards(start: Progress, web: Visits, cards: seq<string>): (r: Progress)
    ensures |r.log| == |start.log| + |cards|
    decreases |cards|
  {
    if cards == [] then start
    else Step(ProcessCards(start, web, cards[..|cards| - 1]), web, cards[|cards| - 1])
  }

  /** `search_pokemon_cards` for a fetched page. */
  function SearchResult(fetched: Option<seq<string>>): seq<string> {
    if fetched.None? then [] else CardLinks.CardLinks(fetched.value)
  }

  /** `all_card_urls` after pages 1 to `n`. */
  function CollectedUrls(web: Web, n: nat): set<string> {
    UnionOfPages(PageResults(web), n)
  }

  /** What `search_pokemon_cards` returns for each page number. */
  function PageResults(web: Web): nat -> seq<string> {
    (p: nat) => SearchResult(web.searchPage(p))
  }

  /** The union of the lists `results(1)` to `results(n)`. */
  function UnionOfPages(results: nat -> seq<string>, n: nat): set<string> {
    if n == 0 then {} else UnionOfPages(results, n - 1) + Elems(results(n))
  }

  /** What a run leaves behind: the page count, the cards in visiting order, and the loop's final state. */
  datatype Report = Report(totalPages: nat, cards: seq<string>, progress: Progress)

  // ---------------------------------------------------------------------------
  // Properties of the card loop
  // ---------------------------------------------------------------------------

  /** Each event is decided in the state before that card, and later cards leave it alone. */
  lemma {:induction false} LogPrefix(start: Progress, web: Visits, cards: seq<string>, k: nat)
    requires k < |cards|
    ensures ProcessCards(start, web, cards).log[|start.log| + k] ==
      CardOutcome(ProcessCards(start, web, cards[..k]).files, web, cards[k])
    decreases |cards|
  {
    var n := |cards| - 1;
    var p := cards[..n];
    assert cards[..n][..] == p;
    if k < n {
      LogPrefix(start, web, p, k);
      assert p[..k] == cards[..k];
    }
  }

  /** Files are never removed: the directory only grows along the loop. */
  lemma {:induction false} FilesGrow(start: Progress, web: Visits, cards: seq<string>, k: nat)
    requires k <= |cards|
    ensures start.files <= ProcessCards(start, web, cards[..k]).files <= ProcessCards(start, web, cards).files
    decreases |cards|
  {
    if cards != [] {
      var p := cards[..|cards| - 1];
      if k < |cards| {
        FilesGrow(start, web, p, k);
        assert p[..k] == cards[..k];
      } else {
        FilesGrow(start, web, p, |p|);
        assert p[..|p|] == p;
        assert cards[..k] == cards;
      }
    }
  }

  /**
    A download is attempted only for a name not yet present; the counter
    never exceeds the number of cards, nor the number of names the loop adds
    to the directory.
   */
  lemma {:induction false} DownloadsAreBounded(start: Progress, web: Visits, cards: seq<string>)
    ensures ProcessCards(start, web, cards).downloaded <= start.downloaded + |cards|
    ensures ProcessCards(start, web, cards).downloaded - start.downloaded <=
      |ProcessCards(start, web, cards).files - start.files|
    decreases |cards|
  {
    if cards != [] {
      var p := cards[..|cards| - 1];
      DownloadsAreBounded(start, web, p);
      FilesGrow(start, web, p, |p|);
      assert p[..|p|] == p;
      StepCounts(start.files, ProcessCards(start, web, p), web, cards[|cards| - 1]);
    }
  }

  /** The number of `Downloaded` events in a log. */
  function DownloadedEvents(log: seq<CardEvent>): nat
    decreases |log|
  {
    if log == [] then 0
    else DownloadedEvents(log[..|log| - 1]) + (if log[|log| - 1].Downloaded? then 1 else 0)
  }

  /**
    The counter rises exactly once per `Downloaded` event: a skipped card, a
    card without an image and a failed download leave it unchanged.
   */
  lemma {:induction false} DownloadedCountsSuccesses(start: Progress, web: Visits, cards: seq<string>)
    ensures ProcessCards(start, web, cards).downloaded + DownloadedEvents(start.log) ==
      start.downloaded + DownloadedEvents(ProcessCards(start, web, cards).log)
    decreases |cards|
  {
    if cards != [] {
      var before := ProcessCards(start, web, cards[..|cards| - 1]);
      DownloadedCountsSuccesses(start, web, cards[..|cards| - 1]);
      var e := CardOutcome(before.files, web, cards[|cards| - 1]);
      assert (before.log + [e])[..|before.log|] == before.log;
    }
  }

  /** One card adds at most one download, and a download adds a new name. */
  lemma StepCounts(initial: set<string>, p: Progress, web: Visits, cardUrl: string)
    requires initial <= p.files
    ensures var q := Step(p, web, cardUrl);
      && q.downloaded <= p.downloaded + 1 && p.files <= q.files
      && q.downloaded - p.downloaded + |p.files - initial| <= |q.files - initial|
  {
    var e := CardOutcome(p.files, web, cardUrl);
    if e.Downloaded? || (e.DownloadError? && e.partial) {
      assert e.filename !in p.files;
      assert (p.files + {e.filename}) - initial == (p.files - initial) + {e.filename};
    }
  }

  /** A card's image is requested only when no file of its name exists at that point. */
  lemma AttemptOnlyWhenAbsent(start: Progress, web: Visits, cards: seq<string>, k: nat)
    requires k < |cards|
    requires Attempted(ProcessCards(start, web, cards).log[|start.log| + k])
    ensures var name := ProcessCards(start, web, cards).log[|start.log| + k].filename;
      !PathExists(ProcessCards(start, web, cards[..k]).files, name)
  {
    LogPrefix(start, web, cards, k);
    AttemptedMeansAbsent(ProcessCards(start, web, cards[..k]).files, web, cards[k]);
  }

  lemma AttemptedMeansAbsent(files: set<string>, web: Visits, cardUrl: string)
    requires Attempted(CardOutcome(files, web, cardUrl))
    ensures !PathExists(files, CardOutcome(files, web, cardUrl).filename)
  {
  }

  /** The state after card `k` is one `Step` from the state before it. */
  lemma NextState(start: Progress, web: Visits, cards: seq<string>, k: nat)
    requires k < |cards|
    ensures ProcessCards(start, web, cards[..k + 1]) == Step(ProcessCards(start, web, cards[..k]), web, cards[k])
  {
    assert cards[..k + 1][..k] == cards[..k];
  }

  /** A card whose image was downloaded leaves a file of that name behind. */
  lemma DownloadLeavesFile(start: Progress, web: Visits, cards: seq<string>, k: nat)
    requires k < |cards|
    requires ProcessCards(start, web, cards).log[|start.log| + k].Downloaded?
    ensures ProcessCards(start, web, cards).log[|start.log| + k].filename in ProcessCards(start, web, cards[..k + 1]).files
  {
    LogPrefix(start, web, cards, k);
    NextState(start, web, cards, k);
  }

  /**
    Once an image is downloaded, every later card whose image has the same
    file name is skipped as already downloaded.
   */
  lemma DownloadedNameIsSkippedLater(start: Progress, web: Visits, cards: seq<string>, i: nat, j: nat)
    requires i < j < |cards|
    requires ProcessCards(start, web, cards).log[|start.log| + i].Downloaded?
    requires !ProcessCards(start, web, cards).log[|start.log| + j].NoImage?
    requires ProcessCards(start, web, cards).log[|start.log| + j].filename ==
      ProcessCards(start, web, cards).log[|start.log| + i].filename
    ensures ProcessCards(start, web, cards).log[|start.log| + j].AlreadyDownloaded?
  {
    var log := ProcessCards(start, web, cards).log;
    var atJ := ProcessCards(start, web, cards[..j]).files;
    DownloadLeavesFile(start, web, cards, i);
    FilesGrow(start, web, cards[..j], i + 1);
    assert cards[..j][..i + 1] == cards[..i + 1];
    assert log[|start.log| + i].filename in atJ;
    LogPrefix(start, web, cards, j);
    PresentNameIsSkipped(atJ, web, cards[j]);
  }

  /** A card whose file name is already present is skipped. */
  lemma PresentNameIsSkipped(files: set<string>, web: Visits, cardUrl: string)
    requires !CardOutcome(files, web, cardUrl).NoImage?
    requires CardOutcome(files, web, cardUrl).filename in files
    ensures CardOutcome(files, web, cardUrl).AlreadyDownloaded?
  {
  }

  /**
    Running again over the same cards and detail pages, starting from the
    directory the first run left, skips every image the first run
    downloaded.
   */
  lemma SecondRunSkipsDownloaded(existing: set<string>, web: Visits, web2: Visits, cards: seq<string>, k: nat)
    requires web2.imageOf == web.imageOf
    requires k < |cards|
    requires ProcessCards(Progress(0, existing, []), web, cards).log[k].Downloaded?
    ensures var first := ProcessCards(Progress(0, existing, []), web, cards);
      ProcessCards(Progress(0, first.files, []), web2, cards).log[k] == AlreadyDownloaded(first.log[k].filename)
  {
    var start := Progress(0, existing, []);
    var first := ProcessCards(start, web, cards);
    var before := ProcessCards(start, web, cards[..k]).files;
    DownloadLeavesFile(start, web, cards, k);
    LogPrefix(start, web, cards, k);
    assert first.log[k] == CardOutcome(before, web, cards[k]);
    FilesGrow(start, web, cards, k + 1);
    FilesGrow(start, web, cards, k);
    var start2 := Progress(0, first.files, []);
    var before2 := ProcessCards(start2, web2, cards[..k]).files;
    LogPrefix(start2, web2, cards, k);
    FilesGrow(start2, web2, cards, k);
    assert before <= first.files <= before2;
    SameImageSameName(before, before2, web, web2, cards[k]);
  }

  /** Two visits that see the same image for a card derive the same file name, whatever the directory holds. */
  lemma SameImageSameName(files: set<string>, files2: set<string>, web: Visits, web2: Visits, cardUrl: string)
    requires web2.imageOf == web.imageOf
    requires CardOutcome(files, web, cardUrl).Downloaded?
    requires files <= files2 && CardOutcome(files, web, cardUrl).filename in files2
    ensures CardOutcome(files2, web2, cardUrl) == AlreadyDownloaded(CardOutcome(files, web, cardUrl).filename)
  {
  }

  /** A URL is in the union of pages 1 to `n` exactly when one of those pages holds it. */
  lemma {:induction false} UnionOfPagesMembers(results: nat -> seq<string>, n: nat, u: string)
    ensures u in UnionOfPages(results, n) <==> exists p :: 1 <= p <= n && u in results(p)
    decreases n
  {
    if n > 0 {
      UnionOfPagesMembers(results, n - 1, u);
      assert u in Elems(results(n)) <==> u in results(n);
      if exists p :: 1 <= p <= n && u in results(p) {
        var p :| 1 <= p <= n && u in results(p);
        if p < n {
          assert u in UnionOfPages(results, n - 1);
        }
      }
    }
  }

  /** `all_card_urls` after `n` pages holds exactly the URLs some page from 1 to `n` returned. */
  lemma CollectedUrlsIsUnion(web: Web, n: nat, u: string)
    ensures u in CollectedUrls(web, n) <==>
      exists p :: 1 <= p <= n && u in SearchResult(web.searchPage(p))
  {
    var results := PageResults(web);
    UnionOfPagesMembers(results, n, u);
    if u in CollectedUrls(web, n) {
      var p :| 1 <= p <= n && u in results(p);
      assert u in SearchResult(web.searchPage(p));
    }
    if exists p :: 1 <= p <= n && u in SearchResult(web.searchPage(p)) {
      var p :| 1 <= p <= n && u in SearchResult(web.searchPage(p));
      assert u in results(p);
    }
  }

  /** Every collected URL is a card page of the site: it starts with `https://www.pokellector.com/` and has no `#`. */
  lemma CollectedUrlsAreSiteUrls(web: Web, n: nat, u: string)
    requires u in CollectedUrls(web, n)
    ensures |u| > |CardLinks.Origin| && u[..|CardLinks.Origin| + 1] == CardLinks.Origin + "/" && '#' !in u
  {
    CollectedUrlsIsUnion(web, n, u);
    var p :| 1 <= p <= n && u in SearchResult(web.searchPage(p));
    CardLinks.CardLinksAreSiteUrls(web.searchPage(p).value);
  }

  // ---------------------------------------------------------------------------
  // The run
  // ---------------------------------------------------------------------------

  /** The page loop: `all_card_urls` after pages 1 to `totalPages`. */
  method CollectCardUrls(web: Web, totalPages: nat) returns (allCardUrls: set<string>)
    ensures allCardUrls == CollectedUrls(web, totalPages)
  {
    allCardUrls := {};
    ghost var results := PageResults(web);
    for page := 1 to totalPages + 1
      invariant allCardUrls == UnionOfPages(results, page - 1)
    {
      var cardUrls := CardLinks.SearchPokemonCards(web.searchPage(page));
      assert cardUrls == results(page);
      allCardUrls := allCardUrls + Elems(cardUrls);
    }
  }

  /** The card loop over `cards`, from the directory `existing`. */
  method VisitCards(web: Web, cards: seq<string>, existing: set<string>) returns (progress: Progress)
    ensures progress == ProcessCards(Progress(0, existing, []), VisitsOf(web), cards)
  {
    ghost var visits := VisitsOf(web);
    var downloaded := 0;
    var files := existing;
    var log: seq<CardEvent> := [];
    for idx := 0 to |cards|
      invariant Progress(downloaded, files, log) == ProcessCards(Progress(0, existing, []), visits, cards[..idx])
    {
      var cardUrl := cards[idx];
      NextState(Progress(0, existing, []), visits, cards, idx);
      var imageUrl := CardImageUrl(web.detailPage(cardUrl));
      assert imageUrl == visits.imageOf(cardUrl);
      if imageUrl.Some? && imageUrl.value != "" {
        var filename := Filename(imageUrl.value);
        if PathExists(files, filename) {
          log := log + [AlreadyDownloaded(filename)];
        } else {
          match web.download(cardUrl)
          case Saved =>
            downloaded := downloaded + 1;
            files := files + {filename};
            log := log + [Downloaded(filename)];
          case RequestFailed =>
            log := log + [DownloadFailed(filename)];
          case WriteFailed(partial) =>
            if partial {
              files := files + {filename};
            }
            log := log + [DownloadError(filename, partial)];
        }
      } else {
        log := log + [NoImage];
      }
    }
    assert cards[..|cards|] == cards;
    progress := Progress(downloaded, files, log);
  }

  /**
    `download_pokemon_cards` for one search term, with `existing` the names
    already in the output directory.
   */
  method DownloadPokemonCards(web: Web, existing: set<string>) returns (report: Report)
    ensures report.totalPages == if web.paginationPage.None? then 0 else Pagination.MaxPage(web.paginationPage.value)
    ensures report.totalPages == 0 ==> report.cards == [] && report.progress == Progress(0, existing, [])
    ensures Elems(report.cards) == CollectedUrls(web, report.totalPages)
    ensures StrictlyAscending(report.cards) && |report.cards| == |CollectedUrls(web, report.totalPages)|
    ensures report.progress == ProcessCards(Progress(0, existing, []), VisitsOf(web), report.cards)
    ensures report.progress.downloaded <= |report.cards|
  {
    var totalPages := Pagination.GetTotalPages(web.paginationPage);
    if totalPages == 0 {
      return Report(0, [], Progress(0, existing, []));
    }
    var allCardUrls := CollectCardUrls(web, totalPages);
    var cards := SortedSeq(allCardUrls);
    var progress := VisitCards(web, cards, existing);
    DownloadsAreBounded(Progress(0, existing, []), VisitsOf(web), cards);
    report := Report(totalPages, cards, progress);
  }
}
