/** The output file `douban.csv`, seen as the sequence of rows it holds. */
module Csv {
  import opened Wrappers
  import opened Items

  /** One CSV record: the list of fields `csv.writer.writerow` receives. */
  type Row = seq<string>

  /** Title, release year, poster link. */
  const Header: Row := ["电影名称", "上映年份", "海报链接"]

  /** The row `write_to_csv` writes for one pair: the poster's own name is dropped. */
  function MakeRow(info: MovieInfo, poster: Poster): Row {
    [info.name, info.year, poster.url]
  }

  /** `zip(movie_infos, movie_posters)` turned into rows: it stops at the shorter list. */
  function Zip(infos: seq<MovieInfo>, posters: seq<Poster>): seq<Row> {
    if infos == [] || posters == [] then []
    else [MakeRow(infos[0], posters[0])] + Zip(infos[1..], posters[1..])
  }

  /** The zip has as many rows as the shorter list, and row `k` is made of pair `k`. */
  lemma {:induction false} ZipSpec(infos: seq<MovieInfo>, posters: seq<Poster>)
    ensures |Zip(infos, posters)| == if |infos| <= |posters| then |infos| else |posters|
    ensures forall k :: 0 <= k < |Zip(infos, posters)| ==>
      Zip(infos, posters)[k] == MakeRow(infos[k], posters[k])
  {
    if infos != [] && posters != [] {
      ZipSpec(infos[1..], posters[1..]);
    }
  }

  class CsvFile {
    /** The records in the file, header included, in the order they were written. */
    var rows: seq<Row>

    /** The file as found on disk before the run, whatever it held. */
    constructor (existing: seq<Row>)
      ensures rows == existing
    {
      rows := existing;
    }

    /** `write_csv_header`: open with "w", which truncates, and write the header. */
    method WriteCsvHeader()
      modifies this
      ensures rows == [Header]
    {
      rows := [];
      rows := rows + [Header];
    }

    /** `write_to_csv`: open with "a" and write one row per zipped pair. */
    method WriteToCsv(movieInfos: seq<MovieInfo>, moviePosters: seq<Poster>)
      modifies this
      ensures rows == old(rows) + Zip(movieInfos, moviePosters)
    {
      var i := 0;
      while i < |movieInfos| && i < |moviePosters|
        invariant i <= |movieInfos| && i <= |moviePosters|
        invariant rows == old(rows) + Zip(movieInfos[..i], moviePosters[..i])
      {
        ZipSpec(movieInfos[..i], moviePosters[..i]);
        ZipSpec(movieInfos[..i + 1], moviePosters[..i + 1]);
        assert Zip(movieInfos[..i + 1], moviePosters[..i + 1])
            == Zip(movieInfos[..i], moviePosters[..i]) + [MakeRow(movieInfos[i], moviePosters[i])];
        rows := rows + [MakeRow(movieInfos[i], moviePosters[i])];
        i := i + 1;
      }
      ZipSpec(movieInfos[..i], moviePosters[..i]);
      ZipSpec(movieInfos, moviePosters);
      assert Zip(movieInfos[..i], moviePosters[..i]) == Zip(movieInfos, moviePosters);
    }
  }

  /** On the info and poster lists of the same items the zip drops nothing, and
      row `i` carries item `i`'s title, year and poster link. */
  lemma {:induction false} PageRowsOfItems(items: seq<Item>)
    requires MovieInfos(items).Success?
    ensures var rows := Zip(MovieInfos(items).value, MoviePosters(items));
      |rows| == |items| &&
      forall i :: 0 <= i < |items| ==>
        |rows[i]| == 3 && rows[i][0] == items[i].title &&
        Year(items[i].desc) == Success(rows[i][1]) && rows[i][2] == items[i].src
  {
    var infos := MovieInfos(items).value;
    ZipSpec(infos, MoviePosters(items));
    MoviePostersSpec(items);
    forall i | 0 <= i < |items|
      ensures infos[i].name == items[i].title && Year(items[i].desc) == Success(infos[i].year)
    {
      MovieInfosAt(items, i);
    }
  }
}
