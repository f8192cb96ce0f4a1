# Douban Top 250 domestic-film scraper, modelled in Dafny

`main.py` crawls the ten pages of the Douban movie Top 250 and requests each page
with a `start` offset. On each page it keeps the entries whose description
mentions 中国 (China). From each kept entry it takes the title, the release year and
the poster link. It appends these to a three-column CSV file that starts with a
fixed header row. Finally it reads the file back and counts the films per
release year, sorted by year, to plot the trend.

This project models that pipeline. The scraper works on parsed entries, so each
`<div class="item">` becomes an `Item` record holding the four strings the
scraper reads from it:

- `desc` is the text of the description paragraph;
- `title` is the heading span;
- `alt` and `src` are the poster image's attributes.

For each page, the fetch result is a parameter: `Some(items)` when the request
succeeded, `None` when it failed.

Modules:

- `Wrappers`: `Option`, `Result`, and the Python exceptions the pipeline can
  raise (`IndexError`, `ValueError`, `StopIteration`).
- `Text`: the string operations `str.strip`, `str.splitlines`, slicing `[:n]`
  and substring `in`. Each has lemmas that characterise it.
- `Items`: `get_chinese_items`, `get_movie_infos` and `get_movie_posters`. Each
  is a loop method proved equal to a function on sequences, and the properties
  of the source are lemmas about those functions.
- `Csv`: the output file is a class `CsvFile` whose `rows: seq<Row>` field
  the methods `WriteCsvHeader` and `WriteToCsv` update in place. `Zip` pairs
  the two extracted lists the way Python's `zip` does.
- `Analysis`: the count-and-sort step of `analyze_data`. The header is skipped,
  `int(row[1])` is applied to each data row, and a `Counter` is sorted by year.
  The result is a list of `Bin(year, count)`.
- `Scraper`: `get_params`, `handle_one_page` with its early return, and the
  page loop of `main` followed by the analysis.

An exception is a `Failure` value. `main` has no `try` around the page loop, so
an exception ends the run. The rows written by earlier pages stay in the file,
and the analysis is never reached. `Crawl` and `HandlePages` state this.

## Model

| member | source | states |
|---|---|---|
| Scraper.Params | main.py:23-34 | the query has the single key `start`, a multiple of 25 whose quotient by 25 is the page |
| Scraper.CrawlOffsets | main.py:213 | pages 0..9 are requested at offsets 0, 25, ..., 225 |
| Scraper.OffsetsDistinct | main.py:32-34 | distinct pages are requested at distinct offsets |
| Text.ContainsIff | main.py:78 | the substring test `"中国" in text` holds iff the pattern occurs at some position of the text |
| Items.ChineseItemsMembers | main.py:75-80 | the filter keeps an item iff it is on the page and its description contains 中国, and returns no more items than it was given |
| Items.GetChineseItems | main.py:76-80 | the append loop builds exactly the filtered list |
| Items.ChineseItemsPositions | main.py:75-80 | the filtered list is the subsequence of the page at strictly increasing positions, which are exactly the domestic positions |
| Items.SelectsChineseUnique | main.py:75-80 | any list taken in order from exactly the domestic positions is the filter's output, so that subsequence characterises the filter |
| Items.ChineseItemsIdempotent | main.py:75-80 | filtering the filtered list again changes nothing |
| Text.StripShape | main.py:95 | `strip()` returns a contiguous slice of the input, has only whitespace removed at either end, and starts and ends with a non-space |
| Text.StripOfPadded | main.py:95 | stripping a text padded with whitespace on both sides returns the text |
| Text.StripIdempotent | main.py:95 | stripping twice is stripping once |
| Text.LineEnd | main.py:95 | the first line ends at the first line break, or at the end of the text |
| Text.JoinSplitLines | main.py:95 | joining the `splitlines()` result with line breaks gives back a text that has no trailing break |
| Text.SplitLinesAtLeastTwo | main.py:95 | a text with no trailing break has a second line (so `[1]` does not raise) iff it contains a line break |
| Text.SplitLinesCons | main.py:95 | the lines of `a + "\n" + b` are `a` followed by the lines of `b` |
| Text.TakeShape | main.py:95 | `[:n]` is a prefix of length at most n, and is exactly n long unless it is the whole text |
| Items.YearShape | main.py:95 | the year expression raises only IndexError; otherwise it yields at most 4 characters, with no line break and no leading space |
| Items.YearDefinedIff | main.py:95 | the year expression raises iff the stripped description has no line break |
| Items.YearOfLayout | main.py:95 | for a description laid out as padding, a first line, a line break, an indented second line of at least 4 characters and padding, the year is the first 4 characters of the second line |
| Items.MovieInfos | main.py:92-97 | the pair list has one entry per item, and the only exception is IndexError |
| Items.MovieInfosDefinedIff | main.py:92-97 | `get_movie_infos` raises iff some item's year expression raises |
| Items.MovieInfosAt | main.py:94-96 | pair `i` holds item `i`'s title and the year taken from item `i`'s description |
| Items.GetMovieInfos | main.py:92-97 | the loop returns the pair list or the first exception, as the function does |
| Items.MoviePostersSpec | main.py:109-115 | one pair per item, in order, pair `i` being `(alt, src)` of item `i` |
| Items.GetMoviePosters | main.py:109-115 | the loop builds exactly that pair list |
| Csv.ZipSpec | main.py:134-135 | the paired rows number min(infos, posters), and row `k` is `[name, year, url]` of pair `k`, with the poster's name dropped |
| Csv.CsvFile.WriteCsvHeader | main.py:120-122 | afterwards the file holds exactly the header row, whatever it held before |
| Csv.CsvFile.WriteToCsv | main.py:132-135 | the rows before are kept, and exactly the zipped rows are appended after them |
| Csv.PageRowsOfItems | main.py:164-166 | on one item list the zip drops nothing: one 3-column row per item with its title, its year and its poster link |
| Scraper.HandleOnePage | main.py:160-166 | a failed fetch leaves the file unchanged; otherwise the rows of the page are appended, unless `get_movie_infos` raised |
| Scraper.HandlePageSpec | main.py:160-168 | a fetched page crashes iff one of its domestic items has no second description line; otherwise it writes one row and queues one poster download per domestic item, in page order, with that item's fields |
| Scraper.PageOutcomesAt | main.py:213-214 | the outcome of page `i` of the run depends only on page `i`'s fetch result |
| Scraper.ProgressCrashFinal | main.py:213-215 | once a page has raised, later pages change nothing |
| Scraper.SkippedPageIsolated | main.py:161-162 | a skipped page adds nothing, and the later pages run as if it were not there |
| Scraper.FailedFetchIsolated | main.py:160-162 | a run with a failed fetch equals the same run with that page removed |
| Scraper.CrawlRowCount | main.py:212-215 | a run that did not crash wrote exactly one row per domestic item of the fetched pages |
| Scraper.HandlePages | main.py:213-215 | the page loop appends exactly the run's rows and reports the exception that stopped it, if any |
| Scraper.RunScraper | main.py:212-216 | the file ends as the header followed by the run's rows; an exception is returned as is, and otherwise the analysis of the file is returned |
| Scraper.RunHistogram | main.py:182-189 | a run that did not crash and whose year fields are all digits ends in a histogram sorted by year whose counts add up to the number of domestic items fetched |
| Analysis.ParseInt | main.py:185 | `int()` succeeds iff the field is a non-empty string of digits, and fails with ValueError otherwise |
| Analysis.ParseShowDigits | main.py:185 | parsing the zero-padded decimal text of a number gives the number back |
| Analysis.ShowDigitsValue | main.py:185 | a digit string is the padded decimal text of its value, so the value is unique to it |
| Analysis.DataYearsSpec | main.py:185 | the year column parses iff every data row has a second field of digits; it then yields one year per row, in order |
| Analysis.ReadBackYears | main.py:132-135 | rows written from pairs whose years are digit strings read back as those years |
| Analysis.CountIsMultiplicity | main.py:186 | the count of a year is its multiplicity in the year list |
| Analysis.HistogramSpec | main.py:186-189 | the histogram is strictly ascending by year, gives each year its number of occurrences, has no zero bin, and its counts sum to the number of years |
| Analysis.HistogramBins | main.py:186-189 | each bin counts its year's occurrences, at least one, and every year read has a bin |
| Analysis.AnalyzeSpec | main.py:182-189 | an empty file raises StopIteration; analysis succeeds iff the data rows after the header parse, and then yields the histogram of their years |
| Analysis.HistogramExample | main.py:186-189 | years 2001, 2001, 2003 give the bins (2001, 2), (2003, 1) |

## Left out

- Network access is not part of this model. This covers `get_soup`, `requests`
  and its `RequestException`, `base_url`, `get_headers`, and the poster downloads
  of `write_to_img`. A fetch is a parameter `Option<seq<Item>>`. The downloads
  are recorded only as the poster list a page hands on.
- BeautifulSoup parsing (`find_all`, `find`, `get_text`, `get`) is replaced by the
  `Item` record of already extracted strings. A missing tag, which would raise
  `AttributeError`, is not modelled.
- Real file handling is not modelled: the file name, UTF-8 encoding, `newline=""`,
  and the quoting and escaping done by the `csv` module. The file is its row
  sequence, so writing and reading back are the identity.
- Logging, the `film_img` directory, `random_sleep` (a random pause between
  pages), the `rich` progress bar and the matplotlib plot are left out. These are
  timing, user interface and output only.
- `Text.Strip` removes only space, tab, line feed and carriage return.
  Python's `str.strip` also removes the other Unicode whitespace characters.
- `Text.SplitLines` breaks only at a line feed. Python's `splitlines` also breaks
  at `\r`, `\r\n`, `\x0b`, `\x0c`, `\x1c`-`\x1e`, `\x85`, `\u2028` and `\u2029`.
- `Analysis.ParseInt` accepts only non-empty strings of ASCII digits. Python's
  `int` also accepts a sign, surrounding whitespace, underscores between digits
  and non-ASCII decimal digits.
- Python's integers and strings are unbounded, as Dafny's are, so no width is
  modelled.
