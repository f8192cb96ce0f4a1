/** The count-and-sort part of `analyze_data`: read the rows back, skip the
    header, parse the year column with `int`, count each year with `Counter`
    and sort the counts by year. */
module Analysis {
  import opened Wrappers
  import opened Items
  import opened Csv

  // ---------------------------------------------------------------------------
  // `int(row[1])`

  predicate IsDigit(c: char) {
    '0' <= c <= '9'
  }

  /** A non-empty run of ASCII digits: the texts the model's `int` accepts. */
  predicate IsDigits(s: string) {
    s != [] && forall k :: 0 <= k < |s| ==> IsDigit(s[k])
  }

  function Pow10(n: nat): (p: nat)
    ensures p >= 1
  {
    if n == 0 then 1 else 10 * Pow10(n - 1)
  }

  /** The decimal value of a run of digits. */
  function DigitsValue(s: string): nat
    requires forall k :: 0 <= k < |s| ==> IsDigit(s[k])
  {
    if s == [] then 0
    else
      assert IsDigit(s[|s| - 1]);
      DigitsValue(s[..|s| - 1]) * 10 + (s[|s| - 1] as int - '0' as int)
  }

  /** `int(s)`: the value of a digit string; any other text raises ValueError. */
  function ParseInt(s: string): (r: Result<int, Error>)
    ensures r.Success? <==> IsDigits(s)
    ensures r.Failure? ==> r.error == ValueError
  {
    if IsDigits(s) then Success(DigitsValue(s)) else Failure(ValueError)
  }

  /** A number written in `width` digits, with leading zeros: the inverse of `DigitsValue`. */
  function ShowDigits(n: nat, width: nat): string {
    if width == 0 then ""
    else ShowDigits(n / 10, width - 1) + [('0' as int + n % 10) as char]
  }

  /** Parsing a number written in enough digits gives the number back. */
  lemma {:induction false} ParseShowDigits(n: nat, width: nat)
    requires 0 < width && n < Pow10(width)
    ensures ParseInt(ShowDigits(n, width)) == Success(n)
  {
    DigitsValueShow(n, width);
  }

  lemma {:induction false} DigitsValueShow(n: nat, width: nat)
    requires n < Pow10(width)
    ensures |ShowDigits(n, width)| == width
    ensures forall k :: 0 <= k < width ==> IsDigit(ShowDigits(n, width)[k])
    ensures DigitsValue(ShowDigits(n, width)) == n
  {
    if width > 0 {
      DigitsValueShow(n / 10, width - 1);
      var s := ShowDigits(n, width);
      assert s[..|s| - 1] == ShowDigits(n / 10, width - 1);
    }
  }

  /** Writing back the value of a digit string in as many digits gives the string back,
      so two year fields of the same width parse equal only when they are equal. */
  lemma {:induction false} ShowDigitsValue(s: string)
    requires forall k :: 0 <= k < |s| ==> IsDigit(s[k])
    ensures DigitsValue(s) < Pow10(|s|)
    ensures ShowDigits(DigitsValue(s), |s|) == s
  {
    if s != [] {
      var init := s[..|s| - 1];
      ShowDigitsValue(init);
      var d := s[|s| - 1] as int - '0' as int;
      var v := DigitsValue(init) * 10 + d;
      assert v / 10 == DigitsValue(init) && v % 10 == d;
      assert s == init + [s[|s| - 1]];
    }
  }

  // ---------------------------------------------------------------------------
  // The year column

  /** `[int(row[1]) for row in reader]` after the header has been consumed. */
  function DataYears(data: seq<Row>): Result<seq<int>, Error>
  {
    if data == [] then Success([])
    else if |data[0]| < 2 then Failure(IndexError)
    else
      match ParseInt(data[0][1])
      case Failure(e) => Failure(e)
      case Success(year) =>
        match DataYears(data[1..])
        case Failure(e) => Failure(e)
        case Success(years) => Success([year] + years)
  }

  /** Every row has a year field that parses. */
  predicate YearsParse(data: seq<Row>) {
    forall k :: 0 <= k < |data| ==> |data[k]| >= 2 && IsDigits(data[k][1])
  }

  /** The column is read exactly when every row's year parses, and then each
      data row gives its own year, in file order. */
  lemma {:induction false} DataYearsSpec(data: seq<Row>)
    ensures DataYears(data).Success? <==> YearsParse(data)
    ensures DataYears(data).Success? ==>
      |DataYears(data).value| == |data| &&
      forall k :: 0 <= k < |data| ==> ParseInt(data[k][1]) == Success(DataYears(data).value[k])
  {
    if data != [] {
      DataYearsSpec(data[1..]);
      assert forall k :: 1 <= k < |data| ==> data[1..][k - 1] == data[k];
    }
  }

  /** Rows written from infos whose years are digit strings read back as those years. */
  lemma ReadBackYears(infos: seq<MovieInfo>, posters: seq<Poster>)
    requires forall k :: 0 <= k < |infos| ==> IsDigits(infos[k].year)
    ensures var rows := Zip(infos, posters);
      |rows| <= |infos| && DataYears(rows).Success? && |DataYears(rows).value| == |rows| &&
      forall k :: 0 <= k < |rows| ==> ParseInt(infos[k].year) == Success(DataYears(rows).value[k])
  {
    var rows := Zip(infos, posters);
    ZipSpec(infos, posters);
    DataYearsSpec(rows);
  }

  // ---------------------------------------------------------------------------
  // Counter + sorted

  /** One `(year, count)` pair of the sorted histogram. */
  datatype Bin = Bin(year: int, count: nat)

  /** How often `y` occurs in `ys`. */
  function Count(ys: seq<int>, y: int): nat {
    if ys == [] then 0
    else Count(ys[..|ys| - 1], y) + (if ys[|ys| - 1] == y then 1 else 0)
  }

  /** `Count` is the multiplicity of `y` in the multiset of `ys`. */
  lemma {:induction false} CountIsMultiplicity(ys: seq<int>, y: int)
    ensures Count(ys, y) == multiset(ys)[y]
  {
    if ys != [] {
      CountIsMultiplicity(ys[..|ys| - 1], y);
      assert ys == ys[..|ys| - 1] + [ys[|ys| - 1]];
    }
  }

  /** Years strictly ascending. */
  predicate Ascending(h: seq<Bin>) {
    forall i, j :: 0 <= i < j < |h| ==> h[i].year < h[j].year
  }

  /** The count `h` holds for `y`, 0 when it has no bin for `y`. */
  function Lookup(h: seq<Bin>, y: int): nat {
    if h == [] then 0
    else if h[0].year == y then h[0].count
    else Lookup(h[1..], y)
  }

  /** No bin is empty. */
  predicate Positive(h: seq<Bin>) {
    forall i :: 0 <= i < |h| ==> h[i].count >= 1
  }

  /** The sum of the counts. */
  function Total(h: seq<Bin>): nat {
    if h == [] then 0 else h[0].count + Total(h[1..])
  }

  /** Count one more `y` in a histogram sorted by year. */
  function Insert(h: seq<Bin>, y: int): seq<Bin> {
    if h == [] then [Bin(y, 1)]
    else if y < h[0].year then [Bin(y, 1)] + h
    else if y == h[0].year then [Bin(y, h[0].count + 1)] + h[1..]
    else [h[0]] + Insert(h[1..], y)
  }

  /** `sorted(Counter(ys).items())`: the years of `ys` with their counts, by year. */
  function Histogram(ys: seq<int>): seq<Bin> {
    if ys == [] then []
    else Insert(Histogram(ys[..|ys| - 1]), ys[|ys| - 1])
  }

  lemma {:induction false} InsertAscending(h: seq<Bin>, y: int)
    requires Ascending(h)
    ensures Ascending(Insert(h, y))
    ensures Insert(h, y)[0].year == y || (h != [] && Insert(h, y)[0].year == h[0].year)
  {
    if h != [] && y > h[0].year {
      InsertAscending(h[1..], y);
    }
  }

  lemma {:induction false} LookupBelow(h: seq<Bin>, y: int)
    requires Ascending(h) && (h == [] || y < h[0].year)
    ensures Lookup(h, y) == 0
  {
    if h != [] {
      LookupBelow(h[1..], y);
    }
  }

  lemma {:induction false} LookupInsert(h: seq<Bin>, y: int, z: int)
    requires Ascending(h)
    ensures Lookup(Insert(h, y), z) == Lookup(h, z) + (if z == y then 1 else 0)
  {
    if h != [] {
      if y < h[0].year {
        if z == y {
          LookupBelow(h, y);
        }
      } else if y > h[0].year {
        LookupInsert(h[1..], y, z);
      }
    }
  }

  lemma {:induction false} InsertPositive(h: seq<Bin>, y: int)
    requires Positive(h)
    ensures Positive(Insert(h, y))
  {
    if h != [] && y > h[0].year {
      InsertPositive(h[1..], y);
    }
  }

  lemma {:induction false} TotalInsert(h: seq<Bin>, y: int)
    ensures Total(Insert(h, y)) == Total(h) + 1
  {
    if h != [] && y > h[0].year {
      TotalInsert(h[1..], y);
    }
  }

  /** In a histogram sorted by year, looking up a bin's year finds that bin. */
  lemma {:induction false} LookupAt(h: seq<Bin>, i: nat)
    requires Ascending(h) && i < |h|
    ensures Lookup(h, h[i].year) == h[i].count
  {
    if i > 0 {
      LookupAt(h[1..], i - 1);
    }
  }

  /** Every bin of a histogram sorted by year with positive counts is found by lookup,
      and a year with a positive lookup has a bin. */
  lemma {:induction false} LookupHasBin(h: seq<Bin>, y: int)
    requires Lookup(h, y) > 0
    ensures exists i :: 0 <= i < |h| && h[i].year == y
  {
    if h[0].year != y {
      LookupHasBin(h[1..], y);
      var i :| 0 <= i < |h[1..]| && h[1..][i].year == y;
      assert h[i + 1].year == y;
    }
  }

  /** The histogram's years ascend strictly, every count is that year's number of
      occurrences (so none is zero), and the counts add up to the number of years. */
  lemma {:induction false} HistogramSpec(ys: seq<int>)
    ensures Ascending(Histogram(ys))
    ensures forall y :: Lookup(Histogram(ys), y) == Count(ys, y)
    ensures Positive(Histogram(ys))
    ensures Total(Histogram(ys)) == |ys|
  {
    if ys != [] {
      var init := ys[..|ys| - 1];
      var last := ys[|ys| - 1];
      HistogramSpec(init);
      InsertAscending(Histogram(init), last);
      forall y
        ensures Lookup(Histogram(ys), y) == Count(ys, y)
      {
        LookupInsert(Histogram(init), last, y);
      }
      InsertPositive(Histogram(init), last);
      TotalInsert(Histogram(init), last);
    }
  }

  /** Bin by bin: each bin counts its year's occurrences, at least once; each year
      that occurs has a bin. */
  lemma HistogramBins(ys: seq<int>)
    ensures forall i :: 0 <= i < |Histogram(ys)| ==>
      Histogram(ys)[i].count == Count(ys, Histogram(ys)[i].year) >= 1
    ensures forall k :: 0 <= k < |ys| ==>
      exists i :: 0 <= i < |Histogram(ys)| && Histogram(ys)[i].year == ys[k]
  {
    var h := Histogram(ys);
    HistogramSpec(ys);
    forall i | 0 <= i < |h|
      ensures h[i].count == Count(ys, h[i].year) >= 1
    {
      LookupAt(h, i);
    }
    forall k | 0 <= k < |ys|
      ensures exists i :: 0 <= i < |h| && h[i].year == ys[k]
    {
      CountPositive(ys, k);
      LookupHasBin(h, ys[k]);
    }
  }

  lemma {:induction false} CountPositive(ys: seq<int>, k: nat)
    requires k < |ys|
    ensures Count(ys, ys[k]) >= 1
  {
    if k < |ys| - 1 {
      CountPositive(ys[..|ys| - 1], k);
    }
  }

  /** `analyze_data` up to the plot: an empty file raises at `next(reader)`; otherwise
      the header is skipped and the remaining rows' years are counted and sorted. */
  function Analyze(rows: seq<Row>): Result<seq<Bin>, Error> {
    if rows == [] then Failure(StopIteration)
    else
      match DataYears(rows[1..])
      case Failure(e) => Failure(e)
      case Success(years) => Success(Histogram(years))
  }

  /** The file's data rows, and only they, are counted: the analysis succeeds exactly
      when the file is not empty and every row after the header has a year, and then
      the counts add up to the number of data rows. */
  lemma AnalyzeSpec(rows: seq<Row>)
    ensures Analyze(rows).Success? <==> rows != [] && YearsParse(rows[1..])
    ensures Analyze(rows).Success? ==>
      Ascending(Analyze(rows).value) && Positive(Analyze(rows).value) &&
      Total(Analyze(rows).value) == |rows| - 1
    ensures rows == [] ==> Analyze(rows) == Failure(StopIteration)
  {
    if rows != [] {
      DataYearsSpec(rows[1..]);
      if DataYears(rows[1..]).Success? {
        HistogramSpec(DataYears(rows[1..]).value);
      }
    }
  }

  /** The example of the analysis: two films of 2001 and one of 2003. */
  lemma HistogramExample()
    ensures Histogram([2001, 2001, 2003]) == [Bin(2001, 2), Bin(2003, 1)]
  {
    assert [2001, 2001, 2003][..2] == [2001, 2001];
    assert [2001, 2001][..1] == [2001];
    assert [2001][..0] == [];
    assert Histogram([2001]) == [Bin(2001, 1)];
    assert Histogram([2001, 2001]) == [Bin(2001, 2)];
    assert Insert([Bin(2001, 2)], 2003) == [Bin(2001, 2)] + Insert([], 2003);
  }
}
