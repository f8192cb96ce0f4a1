/** The driver of main.py: the request offset of each page, one page's pass
    through filter, extraction and CSV append, and the ten-page run that ends
    in the year analysis. The network fetch is a parameter: for each page, the
    parsed item blocks, or None when the request failed. */
module Scraper {
  import opened Wrappers
  import opened Items
  import opened Csv
  import opened Analysis

  const BaseUrl: string := "https://movie.douban.com/top250"

  /** Items per page of the ranking, the stride of the `start` parameter. */
  const PageSize: int := 25

  /** Pages the run visits: `range(10)`. */
  const PageCount: nat := 10

  /** `get_params(page)`: the query of the request for a 0-based page. */
  function Params(page: int): (params: map<string, int>)
    ensures params.Keys == {"start"}
    ensures params["start"] % PageSize == 0 && params["start"] / PageSize == page
  {
    map["start" := page * PageSize]
  }

  /** The ten requests of a run ask for offsets 0, 25, ..., 225. */
  lemma CrawlOffsets()
    ensures seq(PageCount, p => Params(p)["start"]) == [0, 25, 50, 75, 100, 125, 150, 175, 200, 225]
  {
  }

  /** Distinct pages are requested at distinct offsets. */
  lemma OffsetsDistinct(p: int, q: int)
    requires p != q
    ensures Params(p)["start"] != Params(q)["start"]
  {
  }

  // ---------------------------------------------------------------------------
  // One page

  /** What `handle_one_page` does with one fetch result. */
  datatype PageOutcome =
    | Skipped                                     // the fetch failed: return at once
    | Crashed(error: Error)                       // `get_movie_infos` raised before anything was written
    | Done(rows: seq<Row>, downloads: seq<Poster>) // rows appended, posters handed to `write_to_img`

  function HandlePage(fetched: Option<seq<Item>>): PageOutcome {
    match fetched
    case None => Skipped
    case Some(items) =>
      var chineseItems := ChineseItems(items);
      match MovieInfos(chineseItems)
      case Failure(e) => Crashed(e)
      case Success(infos) =>
        var posters := MoviePosters(chineseItems);
        Done(Zip(infos, posters), posters)
  }

  /** The rows an outcome adds to the file. */
  function Appended(outcome: PageOutcome): seq<Row> {
    if outcome.Done? then outcome.rows else []
  }

  /** `handle_one_page`: a failed fetch returns without touching the file;
      otherwise filter, extract, append the rows. */
  method HandleOnePage(file: CsvFile, fetched: Option<seq<Item>>) returns (outcome: PageOutcome)
    modifies file
    ensures outcome == HandlePage(fetched)
    ensures file.rows == old(file.rows) + Appended(outcome)
    ensures fetched.None? ==> file.rows == old(file.rows)
  {
    if fetched.None? {
      return Skipped;
    }
    var chineseItems := GetChineseItems(fetched.value);
    var movieInfos := GetMovieInfos(chineseItems);
    if movieInfos.Failure? {
      return Crashed(movieInfos.error);
    }
    var moviePosters := GetMoviePosters(chineseItems);
    file.WriteToCsv(movieInfos.value, moviePosters);
    // write_to_img(movie_posters) downloads one poster per pair; the network is not modelled.
    outcome := Done(Zip(movieInfos.value, moviePosters), moviePosters);
  }

  /** A fetched page crashes exactly when one of its domestic items has no second
      description line; otherwise it writes one row and one poster download per
      domestic item, in page order, and row `i` carries item `i`'s fields. */
  lemma HandlePageSpec(items: seq<Item>)
    ensures HandlePage(Some(items)).Crashed? ==>
        exists i :: 0 <= i < |ChineseItems(items)| && Year(ChineseItems(items)[i].desc).Failure?
    ensures (exists i :: 0 <= i < |ChineseItems(items)| && Year(ChineseItems(items)[i].desc).Failure?) ==>
        HandlePage(Some(items)).Crashed?
    ensures var outcome := HandlePage(Some(items)); var chineseItems := ChineseItems(items);
      outcome.Done? ==>
        |outcome.rows| == |outcome.downloads| == |chineseItems| &&
        forall i :: 0 <= i < |chineseItems| ==>
          |outcome.rows[i]| == 3 && outcome.rows[i][0] == chineseItems[i].title &&
          Year(chineseItems[i].desc) == Success(outcome.rows[i][1]) &&
          outcome.rows[i][2] == chineseItems[i].src &&
          outcome.downloads[i] == Poster(chineseItems[i].alt, chineseItems[i].src)
  {
    var chineseItems := ChineseItems(items);
    MovieInfosDefinedIff(chineseItems);
    if MovieInfos(chineseItems).Success? {
      PageRowsOfItems(chineseItems);
      MoviePostersSpec(chineseItems);
    } else {
      assert HandlePage(Some(items)).Crashed?;
      var i :| 0 <= i < |chineseItems| && !Year(chineseItems[i].desc).Success?;
      assert Year(chineseItems[i].desc).Failure?;
      assert exists j :: 0 <= j < |chineseItems| && Year(chineseItems[j].desc).Failure?;
    }
  }

  // ---------------------------------------------------------------------------
  // The run

  /** The rows the page loop has written after the header, and the exception that
      stopped it, if one did. */
  datatype CrawlState = CrawlState(rows: seq<Row>, crash: Option<Error>)

  /** The page loop of `main` over the outcomes of pages 0, 1, ...: an exception
      ends the run, a failed fetch only loses its own page. */
  function Progress(outcomes: seq<PageOutcome>): CrawlState {
    if outcomes == [] then CrawlState([], None)
    else
      var prev := Progress(outcomes[..|outcomes| - 1]);
      if prev.crash.Some? then prev
      else
        match outcomes[|outcomes| - 1]
        case Skipped => prev
        case Crashed(e) => CrawlState(prev.rows, Some(e))
        case Done(rows, _) => CrawlState(prev.rows + rows, None)
  }

  /** Each page's outcome, from its fetch result. */
  function PageOutcomes(pages: seq<Option<seq<Item>>>): (outcomes: seq<PageOutcome>)
    ensures |outcomes| == |pages|
  {
    if pages == [] then []
    else PageOutcomes(pages[..|pages| - 1]) + [HandlePage(pages[|pages| - 1])]
  }

  /** Outcome `i` is page `i`'s. */
  lemma {:induction false} PageOutcomesAt(pages: seq<Option<seq<Item>>>, i: nat)
    requires i < |pages|
    ensures PageOutcomes(pages)[i] == HandlePage(pages[i])
  {
    if i < |pages| - 1 {
      PageOutcomesAt(pages[..|pages| - 1], i);
    }
  }

  /** The run over the fetch results of pages 0, 1, ... */
  function Crawl(pages: seq<Option<seq<Item>>>): CrawlState {
    Progress(PageOutcomes(pages))
  }

  /** One more page: its rows are appended, or its exception ends the loop. */
  lemma ProgressStep(outcomes: seq<PageOutcome>, n: nat)
    requires n < |outcomes| && Progress(outcomes[..n]).crash.None?
    ensures Progress(outcomes[..n + 1]).rows == Progress(outcomes[..n]).rows + Appended(outcomes[n])
    ensures Progress(outcomes[..n + 1]).crash ==
      if outcomes[n].Crashed? then Some(outcomes[n].error) else None
  {
    assert outcomes[..n + 1][..n] == outcomes[..n];
  }

  /** Once the loop has crashed, later pages change nothing. */
  lemma {:induction false} ProgressCrashFinal(outcomes: seq<PageOutcome>, n: nat)
    requires n <= |outcomes| && Progress(outcomes[..n]).crash.Some?
    ensures Progress(outcomes) == Progress(outcomes[..n])
  {
    if n < |outcomes| {
      var init := outcomes[..|outcomes| - 1];
      assert init[..n] == outcomes[..n];
      ProgressCrashFinal(init, n);
    } else {
      assert outcomes[..n] == outcomes;
    }
  }

  /** A skipped page contributes nothing, and the pages after it are processed as
      if it had not been there at all. */
  lemma {:induction false} SkippedPageIsolated(outcomes: seq<PageOutcome>, k: nat)
    requires k < |outcomes| && outcomes[k].Skipped?
    ensures Progress(outcomes) == Progress(outcomes[..k] + outcomes[k + 1..])
  {
    var n := |outcomes| - 1;
    var rest := outcomes[..k] + outcomes[k + 1..];
    if k == n {
      assert rest == outcomes[..n];
    } else {
      var init := outcomes[..n];
      SkippedPageIsolated(init, k);
      assert rest[..|rest| - 1] == init[..k] + init[k + 1..];
      assert rest[|rest| - 1] == outcomes[n];
    }
  }

  /** A page whose fetch failed contributes nothing, and the pages after it are
      processed as if it had never been requested. */
  lemma FailedFetchIsolated(pages: seq<Option<seq<Item>>>, k: nat)
    requires k < |pages| && pages[k].None?
    ensures Crawl(pages) == Crawl(pages[..k] + pages[k + 1..])
  {
    var outcomes := PageOutcomes(pages);
    var rest := pages[..k] + pages[k + 1..];
    assert PageOutcomes(rest) == outcomes[..k] + outcomes[k + 1..] by {
      forall i | 0 <= i < |rest|
        ensures PageOutcomes(rest)[i] == (outcomes[..k] + outcomes[k + 1..])[i]
      {
        PageOutcomesAt(rest, i);
        if i >= k {
          assert rest[i] == pages[i + 1];
          PageOutcomesAt(pages, i + 1);
        } else {
          PageOutcomesAt(pages, i);
        }
      }
    }
    PageOutcomesAt(pages, k);
    SkippedPageIsolated(outcomes, k);
  }

  /** The number of domestic items over the pages that were fetched. */
  function DomesticCount(pages: seq<Option<seq<Item>>>): nat {
    if pages == [] then 0
    else
      var last := pages[|pages| - 1];
      DomesticCount(pages[..|pages| - 1]) + (if last.Some? then |ChineseItems(last.value)| else 0)
  }

  /** A run that did not crash wrote one row per domestic item of every fetched page. */
  lemma {:induction false} CrawlRowCount(pages: seq<Option<seq<Item>>>)
    requires Crawl(pages).crash.None?
    ensures |Crawl(pages).rows| == DomesticCount(pages)
  {
    if pages != [] {
      var n := |pages| - 1;
      var init := pages[..n];
      assert PageOutcomes(pages)[..n] == PageOutcomes(init);
      PageOutcomesAt(pages, n);
      CrawlRowCount(init);
      if pages[n].Some? {
        HandlePageSpec(pages[n].value);
      }
    }
  }

  /** `handle_one_page` for the page at position `page` of the run. */
  method HandlePageAt(file: CsvFile, pages: seq<Option<seq<Item>>>, page: nat) returns (outcome: PageOutcome)
    requires page < |pages|
    modifies file
    ensures outcome == PageOutcomes(pages)[page]
    ensures file.rows == old(file.rows) + Appended(outcome)
  {
    outcome := HandleOnePage(file, pages[page]);
    PageOutcomesAt(pages, page);
  }

  /** The `for page in range(10)` loop of `main`, as far as it gets: an exception
      from a page ends it. */
  method HandlePages(file: CsvFile, pages: seq<Option<seq<Item>>>) returns (crash: Option<Error>)
    modifies file
    ensures file.rows == old(file.rows) + Crawl(pages).rows
    ensures crash == Crawl(pages).crash
  {
    ghost var outcomes := PageOutcomes(pages);
    assert outcomes[..0] == [];
    for page := 0 to |pages|
      invariant file.rows == old(file.rows) + Progress(outcomes[..page]).rows
      invariant Progress(outcomes[..page]).crash.None?
    {
      var outcome := HandlePageAt(file, pages, page);
      ProgressStep(outcomes, page);
      if outcome.Crashed? {
        ProgressCrashFinal(outcomes, page + 1);
        return Some(outcome.error);
      }
      // random_sleep(): a random pause of one to three seconds, timing only.
    }
    assert outcomes[..|pages|] == outcomes;
    crash := None;
  }

  /** `main` after logging and directory setup: write the header, handle the ten
      pages in order, then analyse the file. */
  method RunScraper(file: CsvFile, pages: seq<Option<seq<Item>>>) returns (result: Result<seq<Bin>, Error>)
    requires |pages| == PageCount
    modifies file
    ensures file.rows == [Header] + Crawl(pages).rows
    ensures Crawl(pages).crash.Some? ==> result == Failure(Crawl(pages).crash.value)
    ensures Crawl(pages).crash.None? ==> result == Analyze(file.rows)
  {
    file.WriteCsvHeader();
    var crash := HandlePages(file, pages);
    if crash.Some? {
      return Failure(crash.value);
    }
    result := Analyze(file.rows);
  }

  /** End to end: a run that did not crash and whose year fields all parse ends in a
      histogram, sorted by year, whose counts add up to the domestic items fetched. */
  lemma RunHistogram(pages: seq<Option<seq<Item>>>)
    requires Crawl(pages).crash.None? && YearsParse(Crawl(pages).rows)
    ensures var analysis := Analyze([Header] + Crawl(pages).rows);
      analysis.Success? && Ascending(analysis.value) && Total(analysis.value) == DomesticCount(pages)
  {
    var rows := [Header] + Crawl(pages).rows;
    assert rows[1..] == Crawl(pages).rows;
    AnalyzeSpec(rows);
    CrawlRowCount(pages);
  }
}
