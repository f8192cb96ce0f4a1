/** One page's `<div class="item">` blocks, already parsed, and the three list
    builders of main.py that work on them: the domestic filter and the two
    field extractors. */
module Items {
  import opened Wrappers
  import opened Text

  /** A parsed item block, reduced to the strings the scraper reads from it:
      the text of `div.bd > p`, the text of `div.hd span.title`, and the `alt`
      and `src` attributes of `div.pic img`. */
  datatype Item = Item(desc: string, title: string, alt: string, src: string)

  /** One `(name, year)` pair of `get_movie_infos`. */
  datatype MovieInfo = MovieInfo(name: string, year: string)

  /** One `(name, poster_url)` pair of `get_movie_posters`. */
  datatype Poster = Poster(name: string, url: string)

  /** The nationality marker the filter looks for ("China"). */
  const Marker: string := "中国"

  predicate IsChinese(item: Item) {
    Contains(item.desc, Marker)
  }

  // ---------------------------------------------------------------------------
  // The domestic filter

  /** The items whose description mentions the marker, in page order. */
  function ChineseItems(items: seq<Item>): seq<Item> {
    if items == [] then []
    else
      var init := ChineseItems(items[..|items| - 1]);
      var last := items[|items| - 1];
      if IsChinese(last) then init + [last] else init
  }

  /** The filter keeps exactly the domestic items, and never grows the list. */
  lemma {:induction false} ChineseItemsMembers(items: seq<Item>)
    ensures |ChineseItems(items)| <= |items|
    ensures forall x :: x in ChineseItems(items) <==> x in items && IsChinese(x)
  {
    if items != [] {
      var n := |items| - 1;
      ChineseItemsMembers(items[..n]);
      assert items == items[..n] + [items[n]];
    }
  }

  /** `get_chinese_items`: the loop over the page's items. */
  method GetChineseItems(items: seq<Item>) returns (chineseItems: seq<Item>)
    ensures chineseItems == ChineseItems(items)
  {
    chineseItems := [];
    for i := 0 to |items|
      invariant chineseItems == ChineseItems(items[..i])
    {
      assert items[..i + 1][..i] == items[..i];
      if Contains(items[i].desc, Marker) {
        chineseItems := chineseItems + [items[i]];
      }
    }
    assert items[..|items|] == items;
  }

  /** `idx` lists, in increasing order, the positions of `s` that `r` was taken
      from, and they are exactly the positions of domestic items. */
  ghost predicate SelectsChinese(s: seq<Item>, r: seq<Item>, idx: seq<nat>) {
    && |idx| == |r|
    && (forall k :: 0 <= k < |idx| ==> idx[k] < |s| && r[k] == s[idx[k]])
    && (forall k, l :: 0 <= k < l < |idx| ==> idx[k] < idx[l])
    && (forall i :: 0 <= i < |s| ==> (IsChinese(s[i]) <==> i in idx))
  }

  /** The filter's output is the subsequence of domestic items: here are the positions. */
  lemma {:induction false} ChineseItemsPositions(s: seq<Item>) returns (idx: seq<nat>)
    ensures SelectsChinese(s, ChineseItems(s), idx)
  {
    if s == [] {
      idx := [];
    } else {
      var n := |s| - 1;
      var init := s[..n];
      var prev := ChineseItemsPositions(init);
      if IsChinese(s[n]) {
        idx := prev + [n];
      } else {
        idx := prev;
      }
      forall i | 0 <= i < |s|
        ensures IsChinese(s[i]) <==> i in idx
      {
        if i < n {
          assert s[i] == init[i];
        }
      }
    }
  }

  /** ... and no other list is that subsequence: the filter is characterised by it. */
  lemma {:induction false} SelectsChineseUnique(s: seq<Item>, r: seq<Item>, idx: seq<nat>)
    requires SelectsChinese(s, r, idx)
    ensures r == ChineseItems(s)
  {
    if s == [] {
      assert |idx| == 0;
    } else {
      var n := |s| - 1;
      if IsChinese(s[n]) {
        SelectsDropChinese(s, r, idx);
        var r' := r[..|r| - 1];
        SelectsChineseUnique(s[..n], r', idx[..|idx| - 1]);
        assert r == r' + [s[n]];
      } else {
        SelectsDropOther(s, r, idx);
        SelectsChineseUnique(s[..n], r, idx);
      }
    }
  }

  /** A selection whose last item is domestic ends with that item. */
  lemma SelectsDropChinese(s: seq<Item>, r: seq<Item>, idx: seq<nat>)
    requires SelectsChinese(s, r, idx) && s != [] && IsChinese(s[|s| - 1])
    ensures |r| > 0 && r[|r| - 1] == s[|s| - 1]
    ensures SelectsChinese(s[..|s| - 1], r[..|r| - 1], idx[..|idx| - 1])
  {
    var n := |s| - 1;
    assert n in idx;
    var p :| 0 <= p < |idx| && idx[p] == n;
    var m := |idx| - 1;
    assert forall k :: 0 <= k < m ==> idx[k] < idx[m];
    assert p == m;
    var idx' := idx[..m];
    forall i | 0 <= i < n
      ensures IsChinese(s[..n][i]) <==> i in idx'
    {
      if i in idx {
        var q :| 0 <= q < |idx| && idx[q] == i;
        assert q != m;
        assert idx'[q] == i;
      }
    }
  }

  /** A selection whose last item is not domestic does not use that item. */
  lemma SelectsDropOther(s: seq<Item>, r: seq<Item>, idx: seq<nat>)
    requires SelectsChinese(s, r, idx) && s != [] && !IsChinese(s[|s| - 1])
    ensures SelectsChinese(s[..|s| - 1], r, idx)
  {
    var n := |s| - 1;
    forall k | 0 <= k < |idx|
      ensures idx[k] < n
    {
      assert idx[k] in idx;
    }
  }

  /** Filtering the filtered list again changes nothing. */
  lemma {:induction false} ChineseItemsIdempotent(s: seq<Item>)
    ensures ChineseItems(ChineseItems(s)) == ChineseItems(s)
  {
    if s != [] {
      var n := |s| - 1;
      var init := ChineseItems(s[..n]);
      ChineseItemsIdempotent(s[..n]);
      if IsChinese(s[n]) {
        var r := init + [s[n]];
        assert r[..|r| - 1] == init;
      }
    }
  }

  // ---------------------------------------------------------------------------
  // The year and the two extractors

  /** `desc.strip().splitlines()[1].strip()[:4]`: the year taken from the second
      line of the description; a description without a second line raises. */
  function Year(desc: string): Result<string, Error> {
    var lines := SplitLines(Strip(desc));
    if |lines| < 2 then Failure(IndexError) else Success(Take(Strip(lines[1]), 4))
  }

  /** The year is at most four characters of one line, and does not start with
      whitespace; the only error is IndexError. */
  lemma YearShape(desc: string)
    ensures Year(desc).Failure? ==> Year(desc).error == IndexError
    ensures Year(desc).Success? ==> |Year(desc).value| <= 4 && '\n' !in Year(desc).value
    ensures Year(desc).Success? && Year(desc).value != [] ==> !IsSpace(Year(desc).value[0])
  {
    var lines := SplitLines(Strip(desc));
    if |lines| >= 2 {
      SplitLinesNoBreak(Strip(desc));
      StripShape(lines[1]);
      TakeShape(Strip(lines[1]), 4);
    }
  }

  /** The year is found exactly when the stripped description spans two lines. */
  lemma YearDefinedIff(desc: string)
    ensures Year(desc).Success? <==> '\n' in Strip(desc)
  {
    StripShape(desc);
    SplitLinesAtLeastTwo(Strip(desc));
  }

  /** The year of a description laid out as Douban lays it out: padding, a first
      line, a break, indentation, and a second line that starts with the year. */
  lemma YearOfLayout(pad1: string, line1: string, indent: string, line2: string, pad3: string)
    requires AllSpace(pad1) && AllSpace(indent) && AllSpace(pad3) && '\n' !in indent
    requires line1 != [] && !IsSpace(line1[0]) && '\n' !in line1
    requires |line2| >= 4 && !IsSpace(line2[|line2| - 1]) && '\n' !in line2
    requires !IsSpace(line2[0])
    ensures Year(pad1 + line1 + "\n" + (indent + line2) + pad3) == Success(line2[..4])
  {
    var second := indent + line2;
    var full := pad1 + line1 + "\n" + second + pad3;
    StripLayout(pad1, line1, indent, line2, pad3);
    StripOfPadded(indent, line2, []);
    assert indent + line2 + [] == second;
    YearOfLines(full, line1, second);
    assert Take(Strip(second), 4) == line2[..4];
  }

  /** When the stripped description is two lines, the year comes from the second. */
  lemma YearOfLines(desc: string, line1: string, line2: string)
    requires Strip(desc) == line1 + "\n" + line2
    requires '\n' !in line1 && '\n' !in line2 && line2 != []
    ensures Year(desc) == Success(Take(Strip(line2), 4))
  {
    SplitLinesCons(line1, line2);
    SingleLine(line2);
  }

  lemma StripLayout(pad1: string, line1: string, indent: string, line2: string, pad3: string)
    requires AllSpace(pad1) && AllSpace(pad3)
    requires line1 != [] && !IsSpace(line1[0])
    requires line2 != [] && !IsSpace(line2[|line2| - 1])
    ensures Strip(pad1 + line1 + "\n" + (indent + line2) + pad3) == line1 + "\n" + (indent + line2)
  {
    var body := line1 + "\n" + (indent + line2);
    assert body[0] == line1[0];
    assert body[|body| - 1] == line2[|line2| - 1];
    assert pad1 + line1 + "\n" + (indent + line2) + pad3 == pad1 + body + pad3;
    StripOfPadded(pad1, body, pad3);
  }

  /** A non-empty text without a break is one line. */
  lemma SingleLine(t: string)
    requires t != [] && '\n' !in t
    ensures SplitLines(t) == [t]
  {
  }

  /** `get_movie_infos`: one `(title, year)` per item, in order; the first item
      whose description has no second line raises IndexError. */
  function MovieInfos(items: seq<Item>): (r: Result<seq<MovieInfo>, Error>)
    ensures r.Success? ==> |r.value| == |items|
    ensures r.Failure? ==> r.error == IndexError
  {
    if items == [] then Success([])
    else
      var n := |items| - 1;
      YearShape(items[n].desc);
      match MovieInfos(items[..n])
      case Failure(e) => Failure(e)
      case Success(init) =>
        match Year(items[n].desc)
        case Failure(e) => Failure(e)
        case Success(year) =>
          Success(init + [MovieInfo(items[n].title, year)])
  }

  /** The infos are produced exactly when every item has a year. */
  lemma {:induction false} MovieInfosDefinedIff(items: seq<Item>)
    ensures MovieInfos(items).Success? <==> forall i :: 0 <= i < |items| ==> Year(items[i].desc).Success?
  {
    if items != [] {
      var n := |items| - 1;
      MovieInfosDefinedIff(items[..n]);
      assert forall i :: 0 <= i < n ==> items[..n][i] == items[i];
    }
  }

  /** Info `i` is the title and the year of item `i`. */
  lemma {:induction false} MovieInfosAt(items: seq<Item>, i: nat)
    requires MovieInfos(items).Success? && i < |items|
    ensures MovieInfos(items).value[i].name == items[i].title
    ensures Year(items[i].desc) == Success(MovieInfos(items).value[i].year)
  {
    var n := |items| - 1;
    if i < n {
      MovieInfosAt(items[..n], i);
    }
  }

  /** The loop of `get_movie_infos`. */
  method GetMovieInfos(items: seq<Item>) returns (movieInfos: Result<seq<MovieInfo>, Error>)
    ensures movieInfos == MovieInfos(items)
  {
    var acc: seq<MovieInfo> := [];
    for i := 0 to |items|
      invariant MovieInfos(items[..i]) == Success(acc)
    {
      assert items[..i + 1][..i] == items[..i];
      var year := Year(items[i].desc);
      if year.Failure? {
        YearShape(items[i].desc);
        MovieInfosDefinedIff(items);
        return Failure(year.error);
      }
      acc := acc + [MovieInfo(items[i].title, year.value)];
    }
    assert items[..|items|] == items;
    movieInfos := Success(acc);
  }

  /** `get_movie_posters`: one `(alt, src)` per item, in order. */
  function MoviePosters(items: seq<Item>): seq<Poster> {
    if items == [] then []
    else MoviePosters(items[..|items| - 1]) + [Poster(items[|items| - 1].alt, items[|items| - 1].src)]
  }

  /** One poster per item, in order, built from the image's `alt` and `src`. */
  lemma {:induction false} MoviePostersSpec(items: seq<Item>)
    ensures |MoviePosters(items)| == |items|
    ensures forall i :: 0 <= i < |items| ==> MoviePosters(items)[i] == Poster(items[i].alt, items[i].src)
  {
    if items != [] {
      MoviePostersSpec(items[..|items| - 1]);
    }
  }

  /** The loop of `get_movie_posters`. */
  method GetMoviePosters(items: seq<Item>) returns (moviePosters: seq<Poster>)
    ensures moviePosters == MoviePosters(items)
  {
    moviePosters := [];
    for i := 0 to |items|
      invariant moviePosters == MoviePosters(items[..i])
    {
      assert items[..i + 1][..i] == items[..i];
      moviePosters := moviePosters + [Poster(items[i].alt, items[i].src)];
    }
    assert items[..|items|] == items;
  }
}
