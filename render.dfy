/**
 * generate_html, with the document as a list of blocks instead of markup:
 * the fixed head and banner showing the date, then either the "KEINE DATEN"
 * box or one row block per movie, then the fixed closing part.
 */
module Render {
  import opened Extract

  datatype Block =
    | Banner(date: string)   // everything up to the grid wrapper, with "CHINA KINOCHARTS | <date>"
    | NoData                 // the red "KEINE DATEN" box
    | MovieRow(movie: Movie) // one row-container: rank, title, days, daily and total boxes
    | Closing                // the end of the grid, the source line and the end of the document

  /** The movies shown by a document, read back from its row blocks in order. */
  function MoviesOf(doc: seq<Block>): (movies: seq<Movie>)
    ensures |movies| <= |doc|
  {
    if doc == [] then []
    else MoviesOf(doc[..|doc| - 1]) + (if doc[|doc| - 1].MovieRow? then [doc[|doc| - 1].movie] else [])
  }

  /** generate_html's document for the given movies and date. */
  method GenerateHtml(movies: seq<Movie>, dateStr: string) returns (html: seq<Block>)
    ensures |html| >= 3 && html[0] == Banner(dateStr) && html[|html| - 1] == Closing
    ensures MoviesOf(html) == movies
    ensures NoData in html <==> movies == []
    ensures movies == [] ==> html == [Banner(dateStr), NoData, Closing]
    ensures movies != [] ==> |html| == |movies| + 2
    ensures movies != [] ==> forall k :: 0 <= k < |movies| ==> html[k + 1] == MovieRow(movies[k])
    ensures |set k | 0 <= k < |html| && html[k].MovieRow?| == |movies|
  {
    html := [Banner(dateStr)];
    if movies == [] {
      html := html + [NoData];
    } else {
      for k := 0 to |movies|
        invariant |html| == k + 1 && html[0] == Banner(dateStr)
        invariant MoviesOf(html) == movies[..k]
        invariant NoData !in html
        invariant forall j :: 0 <= j < k ==> html[j + 1] == MovieRow(movies[j])
      {
        MoviesOfSnoc(html, MovieRow(movies[k]));
        assert movies[..k + 1] == movies[..k] + [movies[k]];
        html := html + [MovieRow(movies[k])];
      }
      assert movies[..|movies|] == movies;
    }
    MoviesOfSnoc(html, Closing);
    html := html + [Closing];
    MoviesOfCountsRows(html);
  }

  lemma MoviesOfSnoc(doc: seq<Block>, b: Block)
    ensures MoviesOf(doc + [b]) == MoviesOf(doc) + (if b.MovieRow? then [b.movie] else [])
  {
    assert (doc + [b])[..|doc|] == doc;
  }

  /** Re-reading the rows of any document gives as many movies as it has row blocks. */
  lemma {:induction false} MoviesOfCountsRows(doc: seq<Block>)
    ensures |MoviesOf(doc)| == |set k | 0 <= k < |doc| && doc[k].MovieRow?|
  {
    if doc != [] {
      var n := |doc| - 1;
      MoviesOfCountsRows(doc[..n]);
      var before := set k | 0 <= k < n && doc[..n][k].MovieRow?;
      var all := set k | 0 <= k < |doc| && doc[k].MovieRow?;
      assert before == set k | 0 <= k < n && doc[k].MovieRow?;
      if doc[n].MovieRow? {
        assert all == before + {n};
      } else {
        assert all == before;
      }
    }
  }
}
