/**
 * get_data around the row walk, and the script's entry point: what is
 * returned when the page cannot be fetched, when the date control is missing
 * or unreadable, and when the table is missing.
 */
module Scraper {
  import opened Wrappers
  import opened Dates
  import opened Extract
  import opened Render

  /**
   * What the parsed page offers: the value of the input with id "txtdate"
   * (None when the control or its value attribute is missing) and the rows of
   * the table with class "person" (None when there is no such table).
   */
  datatype Page = Page(dateValue: Option<string>, table: Option<seq<Row>>)

  /**
   * get_data. `page` is None when fetching or parsing raised; `now` is the
   * clock reading that gives the fallback date.
   */
  method GetData(page: Option<Page>, now: Date) returns (movies: seq<Movie>, pageDate: string)
    requires ValidDate(now)
    ensures |movies| <= 5
    ensures page.None? ==> movies == [] && pageDate == FormatDate(now)
    ensures page.Some? ==> pageDate == ReportDate(page.value.dateValue, FormatDate(now))
    ensures page.Some? && page.value.table.None? ==> movies == []
    ensures page.Some? && page.value.table.Some? ==> movies == Extracted(page.value.table.value)
  {
    movies := [];
    pageDate := FormatDate(now);
    if page.None? {
      return;
    }
    pageDate := ReportDate(page.value.dateValue, pageDate);
    if page.value.table.None? {
      return;
    }
    movies := ScanTable(page.value.table.value);
  }

  /** The script's entry point: get_data, then generate_html on what it returned. */
  method Run(page: Option<Page>, now: Date) returns (html: seq<Block>)
    requires ValidDate(now)
    ensures |html| >= 3 && html[|html| - 1] == Closing && |MoviesOf(html)| <= 5
    ensures page.None? ==> html == [Banner(FormatDate(now)), NoData, Closing]
    ensures page.Some? ==> html[0] == Banner(ReportDate(page.value.dateValue, FormatDate(now)))
    ensures MoviesOf(html) == if page.Some? && page.value.table.Some? then Extracted(page.value.table.value) else []
    ensures NoData in html <==> MoviesOf(html) == []
    ensures MoviesOf(html) == [] ==> html == [html[0], NoData, Closing]
    ensures MoviesOf(html) != [] ==> |html| == |MoviesOf(html)| + 2
    ensures MoviesOf(html) != [] ==>
      forall k :: 0 <= k < |MoviesOf(html)| ==> html[k + 1] == MovieRow(MoviesOf(html)[k])
  {
    var data, dateVal := GetData(page, now);
    html := GenerateHtml(data, dateVal);
  }
}
