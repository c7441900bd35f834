/**
 * The row walk of get_data over the table with class "person": which rows
 * become movies, how each movie's fields are built, the cap of five, and the
 * IndexError on a row with exactly eight cells that the outer handler turns
 * into an empty result.
 */
module Extract {
  import opened Wrappers
  import opened Text

  /**
   * A table row as the parser presents it: the texts of the cells that
   * find_all('td') returns, in document order, and the text of the first
   * <strong> element inside cell 1, if there is one.
   */
  datatype Row = Row(cells: seq<string>, strong: Option<string>)

  /** One entry of the result: the dictionary get_data appends. */
  datatype Movie = Movie(rank: string, title: string, days: string, daily: string, total: string)

  /** A data row: at least eight cells and a stripped first cell made of digits. */
  predicate Qualifies(row: Row) {
    |row.cells| >= 8 && IsDigits(Strip(row.cells[0]))
  }

  /** The qualifying rows, in table order. */
  function Qualifying(rows: seq<Row>): (q: seq<Row>)
    ensures |q| <= |rows|
  {
    if rows == [] then []
    else Qualifying(rows[..|rows| - 1]) + (if Qualifies(rows[|rows| - 1]) then [rows[|rows| - 1]] else [])
  }

  /** The qualifying rows the loop reaches before `count` hits five. */
  function Leading(rows: seq<Row>): (top: seq<Row>)
    ensures |top| <= 5
  {
    var q := Qualifying(rows);
    if |q| <= 5 then q else q[..5]
  }

  /** A gross amount as displayed: the cleaned cell between "$" and " M". */
  function Money(cell: string): (s: string)
    ensures |s| >= 3 && s[0] == '$' && s[|s| - 2..] == " M"
    ensures forall i :: 0 < i < |s| ==> s[i] != '$'
  {
    var amount := CleanText(cell);
    assert '$' !in amount by {
      CleanTextNormalized(cell);
    }
    DollarFrame(amount);
    "$" + amount + " M"
  }

  lemma DollarFrame(amount: string)
    requires '$' !in amount
    ensures var s := "$" + amount + " M";
      |s| >= 3 && s[0] == '$' && s[|s| - 2..] == " M" && forall i :: 0 < i < |s| ==> s[i] != '$'
  {
    var s := "$" + amount + " M";
    forall i | 0 < i < |s| ensures s[i] != '$' {
      if i <= |amount| {
        assert s[i] == amount[i - 1];
      }
    }
  }

  /** The entry built from a row with a ninth cell; the walk builds it only for qualifying rows. */
  function MakeMovie(row: Row): (m: Movie)
    requires |row.cells| > 8
    ensures Normalized(m.title) && '$' !in m.title
    ensures Normalized(m.days) && '$' !in m.days
    ensures |m.daily| >= 3 && m.daily[0] == '$' && m.daily[|m.daily| - 2..] == " M"
    ensures |m.total| >= 3 && m.total[0] == '$' && m.total[|m.total| - 2..] == " M"
  {
    Movie(Strip(row.cells[0]),
          CleanText(if row.strong.Some? then row.strong.value else row.cells[1]),
          CleanText(row.cells[8]),
          Money(row.cells[2]),
          Money(row.cells[3]))
  }

  /** No row of `top` stops at eight cells. */
  predicate AllHaveNinth(top: seq<Row>) {
    forall k :: 0 <= k < |top| ==> |top[k].cells| > 8
  }

  /** One entry per row, in order. */
  function Entries(top: seq<Row>): (movies: seq<Movie>)
    requires AllHaveNinth(top)
  {
    seq(|top|, k requires 0 <= k < |top| => MakeMovie(top[k]))
  }

  /** The entries of the rows taken, or nothing when one of them lacks a ninth cell. */
  function Build(top: seq<Row>): (movies: seq<Movie>)
    ensures |movies| <= |top|
  {
    if AllHaveNinth(top) then Entries(top) else []
  }

  /** The list get_data returns for a table. */
  function Extracted(rows: seq<Row>): (movies: seq<Movie>)
    ensures |movies| <= 5
  {
    Build(Leading(rows))
  }

  /** The loop of get_data over the rows of the table, with the handler of its IndexError. */
  method ScanTable(rows: seq<Row>) returns (movies: seq<Movie>)
    ensures movies == Extracted(rows)
    ensures |movies| <= 5
  {
    movies := [];
    var count := 0;
    for i := 0 to |rows|
      invariant count == |Qualifying(rows[..i])| <= 5
      invariant AllHaveNinth(Qualifying(rows[..i]))
      invariant movies == Build(Qualifying(rows[..i]))
    {
      if count >= 5 {
        ExtractedStopsAtFive(rows, i);
        assert Leading(rows[..i]) == Qualifying(rows[..i]);
        break;
      }
      var row := rows[i];
      QualifyingSnoc(rows, i);
      var cols := row.cells;
      if |cols| < 8 {
        continue;
      }
      var rankText := Strip(cols[0]);
      if !IsDigits(rankText) {
        continue;
      }
      var title;
      if row.strong.Some? {
        title := CleanText(row.strong.value);
      } else {
        title := CleanText(cols[1]);
      }
      var daily := "$" + CleanText(cols[2]) + " M";
      var total := "$" + CleanText(cols[3]) + " M";
      if |cols| <= 8 {
        // cols[8] raises IndexError; the handler of get_data returns [].
        ExtractedEightCells(rows, i);
        return [];
      }
      var days := CleanText(cols[8]);
      assert Qualifying(rows[..i + 1]) == Qualifying(rows[..i]) + [row];
      BuildSnoc(Qualifying(rows[..i]), row);
      assert Movie(rankText, title, days, daily, total) == MakeMovie(row);
      movies := movies + [Movie(rankText, title, days, daily, total)];
      count := count + 1;
    }
    assert rows[..|rows|] == rows;
  }

  // ---------------------------------------------------------------------------
  // Lemmas

  /**
   * Which cell each field of an entry comes from: the stripped all-digit
   * rank, the cleaned <strong> text when cell 1 has one and the cleaned cell
   * otherwise, the cleaned ninth cell as days, and the cleaned cells 2 and 3
   * between "$" and " M".
   */
  lemma MovieFields(row: Row)
    requires Qualifies(row) && |row.cells| > 8
    ensures var m := MakeMovie(row);
      && IsDigits(m.rank) && m.rank == Strip(row.cells[0])
      && m.title == CleanText(if row.strong.Some? then row.strong.value else row.cells[1])
      && m.days == CleanText(row.cells[8])
      && m.daily[1..|m.daily| - 2] == CleanText(row.cells[2])
      && m.total[1..|m.total| - 2] == CleanText(row.cells[3])
  {
  }

  lemma {:induction false} QualifyingConcat(a: seq<Row>, b: seq<Row>)
    ensures Qualifying(a + b) == Qualifying(a) + Qualifying(b)
    decreases |b|
  {
    if b == [] {
      assert a + b == a;
    } else {
      var b' := b[..|b| - 1];
      assert (a + b)[..|a + b| - 1] == a + b';
      QualifyingConcat(a, b');
    }
  }

  /** A row is kept exactly when it is a row of the table and qualifies. */
  lemma {:induction false} QualifyingMembers(rows: seq<Row>, x: Row)
    ensures x in Qualifying(rows) <==> x in rows && Qualifies(x)
  {
    if rows != [] {
      var n := |rows| - 1;
      QualifyingMembers(rows[..n], x);
      assert rows == rows[..n] + [rows[n]];
    }
  }

  /** Every row kept qualifies. */
  lemma {:induction false} QualifyingQualifies(rows: seq<Row>)
    ensures forall k :: 0 <= k < |Qualifying(rows)| ==> Qualifies(Qualifying(rows)[k])
  {
    if rows != [] {
      var n := |rows| - 1;
      QualifyingQualifies(rows[..n]);
      var p, q := Qualifying(rows[..n]), Qualifying(rows);
      forall k | 0 <= k < |q| ensures Qualifies(q[k]) {
        if k < |p| {
          assert q[k] == p[k];
        }
      }
    }
  }

  lemma SplitAt(rows: seq<Row>, i: nat)
    requires i < |rows|
    ensures rows[..i] + [rows[i]] + rows[i + 1..] == rows
  {
  }

  lemma QualifyingSnoc(rows: seq<Row>, i: nat)
    requires i < |rows|
    ensures Qualifying(rows[..i + 1]) ==
      Qualifying(rows[..i]) + (if Qualifies(rows[i]) then [rows[i]] else [])
  {
    assert rows[..i + 1][..i] == rows[..i];
  }

  lemma QualifyingOne(x: Row)
    ensures Qualifying([x]) == if Qualifies(x) then [x] else []
  {
    assert [x][..0] == [];
  }

  lemma BuildSnoc(top: seq<Row>, x: Row)
    requires AllHaveNinth(top) && |x.cells| > 8
    ensures AllHaveNinth(top + [x])
    ensures Build(top + [x]) == Build(top) + [MakeMovie(x)]
  {
    var t := top + [x];
    assert AllHaveNinth(t) by {
      forall k | 0 <= k < |t| ensures |t[k].cells| > 8 {
        if k < |top| { assert t[k] == top[k]; }
      }
    }
    EntriesSnoc(top, x);
  }

  lemma EntriesSnoc(top: seq<Row>, x: Row)
    requires AllHaveNinth(top) && |x.cells| > 8 && AllHaveNinth(top + [x])
    ensures Entries(top + [x]) == Entries(top) + [MakeMovie(x)]
  {
    var t := top + [x];
    var l, m, r := Entries(t), Entries(top), Entries(top) + [MakeMovie(x)];
    assert |l| == |r|;
    forall k | 0 <= k < |l| ensures l[k] == r[k] {
      if k < |top| {
        assert t[k] == top[k] && l[k] == MakeMovie(t[k]) && r[k] == m[k] == MakeMovie(top[k]);
      } else {
        assert t[k] == x && r[k] == MakeMovie(x);
      }
    }
  }

  /** A row that does not qualify is skipped without counting: removing it changes nothing. */
  lemma SkipsNonQualifying(a: seq<Row>, x: Row, b: seq<Row>)
    requires !Qualifies(x)
    ensures Extracted(a + [x] + b) == Extracted(a + b)
  {
    QualifyingConcat(a + [x], b);
    QualifyingConcat(a, [x]);
    QualifyingConcat(a, b);
    QualifyingOne(x);
    assert Qualifying(a) + [] == Qualifying(a);
    assert Leading(a + [x] + b) == Leading(a + b);
  }

  /** Once five rows qualified, later rows are never looked at. */
  lemma ExtractedStopsAtFive(rows: seq<Row>, i: nat)
    requires i <= |rows| && |Qualifying(rows[..i])| >= 5
    ensures Extracted(rows) == Extracted(rows[..i])
  {
    var a := Qualifying(rows[..i]);
    QualifyingConcat(rows[..i], rows[i..]);
    assert rows[..i] + rows[i..] == rows;
    assert (a + Qualifying(rows[i..]))[..5] == a[..5];
    assert Leading(rows) == a[..5] == Leading(rows[..i]);
  }

  /**
   * A qualifying row with exactly eight cells reached before five rows
   * qualified empties the whole result, whatever the rows before it produced.
   */
  lemma ExtractedEightCells(rows: seq<Row>, i: nat)
    requires i < |rows| && Qualifies(rows[i]) && |rows[i].cells| == 8
    requires |Qualifying(rows[..i])| < 5
    ensures Extracted(rows) == []
  {
    var x := rows[i];
    var n := |Qualifying(rows[..i])|;
    var q := Qualifying(rows);
    assert n < |q| && q[n] == x by {
      var before, after := rows[..i], rows[i + 1..];
      SplitAt(rows, i);
      QualifyingConcat(before + [x], after);
      QualifyingConcat(before, [x]);
      QualifyingOne(x);
      assert q == Qualifying(before) + [x] + Qualifying(after);
    }
    var top := Leading(rows);
    assert n < |top| && top[n] == x by {
      LeadingPrefix(rows);
    }
  }



  /**
   * While fewer than five rows qualified and none stopped at eight cells, a
   * qualifying row with a ninth cell appends its own entry after the others.
   */
  lemma ExtractedAppends(a: seq<Row>, x: Row)
    requires Qualifies(x) && |x.cells| > 8
    requires |Qualifying(a)| < 5 && AllHaveNinth(Qualifying(a))
    ensures Extracted(a + [x]) == Extracted(a) + [MakeMovie(x)]
  {
    QualifyingConcat(a, [x]);
    QualifyingOne(x);
    BuildSnoc(Qualifying(a), x);
  }

  /** The rows taken are the first min(5, |q|) qualifying rows. */
  lemma LeadingPrefix(rows: seq<Row>)
    ensures var q := Qualifying(rows); var n := if |q| < 5 then |q| else 5;
      |Leading(rows)| == n && forall k :: 0 <= k < n ==> Leading(rows)[k] == q[k]
  {
  }

  /**
   * The walk returns nothing exactly when no row qualifies or one of the
   * first five qualifying rows stops at eight cells.
   */
  lemma ExtractedEmpty(rows: seq<Row>)
    ensures var q := Qualifying(rows); var n := if |q| < 5 then |q| else 5;
      Extracted(rows) == [] <==> n == 0 || exists k :: 0 <= k < n && |q[k].cells| == 8
  {
    var q, top := Qualifying(rows), Leading(rows);
    LeadingPrefix(rows);
    QualifyingQualifies(rows);
    if !AllHaveNinth(top) {
      var k :| 0 <= k < |top| && |top[k].cells| <= 8;
      assert top[k] == q[k] && Qualifies(q[k]);
    } else if exists k :: 0 <= k < |top| && |q[k].cells| == 8 {
      var k :| 0 <= k < |top| && |q[k].cells| == 8;
      assert top[k] == q[k];
    }
  }

  /**
   * Otherwise it holds one entry per qualifying row, up to five, each built
   * from its row, in table order.
   */
  lemma ExtractedEntries(rows: seq<Row>)
    requires Extracted(rows) != []
    ensures var q := Qualifying(rows); var n := if |q| < 5 then |q| else 5;
      |Extracted(rows)| == n &&
      forall k :: 0 <= k < n ==> |q[k].cells| > 8 && Extracted(rows)[k] == MakeMovie(q[k])
  {
    var q, top := Qualifying(rows), Leading(rows);
    LeadingPrefix(rows);
    var movies := Extracted(rows);
    assert AllHaveNinth(top) && movies == Entries(top);
    forall k | 0 <= k < |top| ensures |q[k].cells| > 8 && movies[k] == MakeMovie(q[k]) {
      assert top[k] == q[k];
    }
  }
}
