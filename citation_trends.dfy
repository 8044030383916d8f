/** The yearly aggregation: `groupby('Year')['Cited by'].sum().reset_index()`. */
module CitationTrends {
  import opened Wrappers
  import opened Records

  /** One output row: a year and the citations of that year's records. */
  datatype YearTotal = YearTotal(year: int, citedBy: nat)

  /** What a row adds to a sum: a missing count is skipped, as `sum` skips NaN. */
  function Cites(r: Record): nat
  {
    match r.citedBy
    case Some(n) => n
    case None => 0
  }

  /** Citations of the rows published in `y`. */
  function SumForYear(rows: seq<Record>, y: int): nat
  {
    if rows == [] then 0
    else (if rows[0].year == Some(y) then Cites(rows[0]) else 0) + SumForYear(rows[1..], y)
  }

  /** Citations of the rows that have a year; rows without one fall out of the grouping. */
  function DatedCitations(rows: seq<Record>): nat
  {
    if rows == [] then 0
    else (if rows[0].year.Some? then Cites(rows[0]) else 0) + DatedCitations(rows[1..])
  }

  function TotalCitations(rows: seq<Record>): nat
  {
    if rows == [] then 0 else Cites(rows[0]) + TotalCitations(rows[1..])
  }

  ghost function PresentYears(rows: seq<Record>): set<int>
  {
    set r | r in rows && r.year.Some? :: r.year.value
  }

  ghost predicate StrictlyAscending(g: seq<YearTotal>)
  {
    forall i, j :: 0 <= i < j < |g| ==> g[i].year < g[j].year
  }

  ghost function YearsOf(g: seq<YearTotal>): set<int>
  {
    set e | e in g :: e.year
  }

  /** The total listed for `y`, zero when `y` is not listed. */
  function TotalAt(g: seq<YearTotal>, y: int): nat
  {
    if g == [] then 0
    else (if g[0].year == y then g[0].citedBy else 0) + TotalAt(g[1..], y)
  }

  function Total(g: seq<YearTotal>): nat
  {
    if g == [] then 0 else g[0].citedBy + Total(g[1..])
  }

  /** Adds `c` citations for year `y` to the groups, keeping them in ascending year order. */
  function AddTo(g: seq<YearTotal>, y: int, c: nat): (added: seq<YearTotal>)
    ensures |g| <= |added| <= |g| + 1
  {
    if g == [] || y < g[0].year then [YearTotal(y, c)] + g
    else if y == g[0].year then [YearTotal(y, g[0].citedBy + c)] + g[1..]
    else [g[0]] + AddTo(g[1..], y, c)
  }

  /** `citation_trends`: one row per year, ascending, with that year's citation sum. */
  function GroupByYear(rows: seq<Record>): (groups: seq<YearTotal>)
    ensures |groups| <= |rows|
  {
    if rows == [] then []
    else
      var rest := GroupByYear(rows[1..]);
      if rows[0].year.Some? then AddTo(rest, rows[0].year.value, Cites(rows[0])) else rest
  }

  lemma YearsOfCons(e: YearTotal, t: seq<YearTotal>)
    ensures YearsOf([e] + t) == {e.year} + YearsOf(t)
  {
  }

  /** A list is ascending when its tail is and its head year is below every year of the tail. */
  lemma AscendingCons(e: YearTotal, t: seq<YearTotal>)
    ensures StrictlyAscending([e] + t) <==>
              StrictlyAscending(t) && forall x :: x in YearsOf(t) ==> e.year < x
  {
    var g := [e] + t;
    if StrictlyAscending(g) {
      forall i, j | 0 <= i < j < |t| ensures t[i].year < t[j].year { assert g[i + 1] == t[i] && g[j + 1] == t[j]; }
      forall x | x in YearsOf(t) ensures e.year < x {
        var d :| d in t && d.year == x;
        var k :| 0 <= k < |t| && t[k] == d;
        assert g[0] == e && g[k + 1] == d;
      }
    }
    if StrictlyAscending(t) && forall x :: x in YearsOf(t) ==> e.year < x {
      forall i, j | 0 <= i < j < |g| ensures g[i].year < g[j].year {
        assert g[j] == t[j - 1];
        if i == 0 { assert t[j - 1] in t; assert t[j - 1].year in YearsOf(t); }
        else { assert g[i] == t[i - 1]; }
      }
    }
  }

  lemma {:induction false} AddToYears(g: seq<YearTotal>, y: int, c: nat)
    ensures YearsOf(AddTo(g, y, c)) == YearsOf(g) + {y}
  {
    if g == [] || y < g[0].year {
      YearsOfCons(YearTotal(y, c), g);
    } else {
      assert g == [g[0]] + g[1..];
      YearsOfCons(g[0], g[1..]);
      if y == g[0].year {
        YearsOfCons(YearTotal(y, g[0].citedBy + c), g[1..]);
      } else {
        AddToYears(g[1..], y, c);
        YearsOfCons(g[0], AddTo(g[1..], y, c));
      }
    }
  }

  lemma {:induction false} AddToAscending(g: seq<YearTotal>, y: int, c: nat)
    requires StrictlyAscending(g)
    ensures StrictlyAscending(AddTo(g, y, c))
  {
    if g == [] || y < g[0].year {
      if g != [] {
        assert g == [g[0]] + g[1..];
        AscendingCons(g[0], g[1..]);
        YearsOfCons(g[0], g[1..]);
      }
      AscendingCons(YearTotal(y, c), g);
    } else {
      assert g == [g[0]] + g[1..];
      AscendingCons(g[0], g[1..]);
      if y == g[0].year {
        AscendingCons(YearTotal(y, g[0].citedBy + c), g[1..]);
      } else {
        AddToAscending(g[1..], y, c);
        AddToYears(g[1..], y, c);
        AscendingCons(g[0], AddTo(g[1..], y, c));
      }
    }
  }

  /** Adding to a year raises that year's total by `c` and leaves every other year's alone. */
  lemma {:induction false} AddToTotals(g: seq<YearTotal>, y: int, c: nat)
    ensures forall y' :: TotalAt(AddTo(g, y, c), y') == TotalAt(g, y') + if y' == y then c else 0
    ensures Total(AddTo(g, y, c)) == Total(g) + c
  {
    if g == [] || y < g[0].year {
      assert ([YearTotal(y, c)] + g)[1..] == g;
    } else if y == g[0].year {
      assert ([YearTotal(y, g[0].citedBy + c)] + g[1..])[1..] == g[1..];
    } else {
      AddToTotals(g[1..], y, c);
      assert ([g[0]] + AddTo(g[1..], y, c))[1..] == AddTo(g[1..], y, c);
    }
  }

  lemma AscendingTail(g: seq<YearTotal>)
    requires StrictlyAscending(g) && g != []
    ensures StrictlyAscending(g[1..])
  {
  }

  /** In an ascending list the first year is not listed again further on. */
  lemma AbsentAfterHead(g: seq<YearTotal>)
    requires StrictlyAscending(g) && g != []
    ensures forall y :: y <= g[0].year ==> TotalAt(g[1..], y) == 0
    ensures forall e :: e in g[1..] ==> g[0].year < e.year
  {
    forall e | e in g[1..] ensures g[0].year < e.year {
      var k :| 0 <= k < |g[1..]| && g[1..][k] == e;
      assert g[k + 1] == e;
    }
    forall y | y <= g[0].year ensures TotalAt(g[1..], y) == 0 {
      AbsentYear(g[1..], y);
    }
  }

  /** A year that is not listed has total zero. */
  lemma {:induction false} AbsentYear(g: seq<YearTotal>, y: int)
    requires forall e :: e in g ==> e.year != y
    ensures TotalAt(g, y) == 0
  {
    if g != [] {
      assert g[0] in g;
      forall e | e in g[1..] ensures e.year != y { assert e in g; }
      AbsentYear(g[1..], y);
    }
  }

  /** The grouping is ascending in year, lists exactly the years present in the table, gives
      each year the citations of that year, and loses no citation of a dated row. */
  lemma {:induction false} GroupByYearSpec(rows: seq<Record>)
    ensures StrictlyAscending(GroupByYear(rows))
    ensures YearsOf(GroupByYear(rows)) == PresentYears(rows)
    ensures forall y :: TotalAt(GroupByYear(rows), y) == SumForYear(rows, y)
    ensures Total(GroupByYear(rows)) == DatedCitations(rows)
  {
    if rows != [] {
      var rest := GroupByYear(rows[1..]);
      GroupByYearSpec(rows[1..]);
      assert rows == [rows[0]] + rows[1..];
      if rows[0].year.Some? {
        AddToAscending(rest, rows[0].year.value, Cites(rows[0]));
        AddToYears(rest, rows[0].year.value, Cites(rows[0]));
        AddToTotals(rest, rows[0].year.value, Cites(rows[0]));
        assert PresentYears(rows) == PresentYears(rows[1..]) + {rows[0].year.value} by {
          forall r | r in rows ensures r == rows[0] || r in rows[1..] { }
        }
      } else {
        assert PresentYears(rows) == PresentYears(rows[1..]) by {
          forall r | r in rows ensures r == rows[0] || r in rows[1..] { }
        }
      }
    } else {
      assert PresentYears(rows) == {};
    }
  }

  /** In an ascending list, an entry's citation count is the total listed for its year. */
  lemma {:induction false} EntryIsTotalAt(g: seq<YearTotal>, i: nat)
    requires StrictlyAscending(g) && i < |g|
    ensures g[i].citedBy == TotalAt(g, g[i].year)
  {
    AscendingTail(g);
    AbsentAfterHead(g);
    if i > 0 {
      EntryIsTotalAt(g[1..], i - 1);
      assert g[1..][i - 1] == g[i];
      assert g[0].year < g[i].year;
    }
  }

  /** Every listed year carries the sum of `Cited by` over that year's rows. */
  lemma GroupSums(rows: seq<Record>)
    ensures forall i :: 0 <= i < |GroupByYear(rows)| ==>
              GroupByYear(rows)[i].citedBy == SumForYear(rows, GroupByYear(rows)[i].year)
  {
    var g := GroupByYear(rows);
    GroupByYearSpec(rows);
    forall i | 0 <= i < |g| ensures g[i].citedBy == SumForYear(rows, g[i].year) {
      EntryIsTotalAt(g, i);
    }
  }

  /** After cleaning every row has a year, so the yearly totals add up to every citation. */
  lemma {:induction false} ConservesCitations(rows: seq<Record>)
    requires forall r :: r in rows ==> r.year.Some?
    ensures Total(GroupByYear(rows)) == TotalCitations(rows)
  {
    GroupByYearSpec(rows);
    AllDated(rows);
  }

  lemma {:induction false} AllDated(rows: seq<Record>)
    requires forall r :: r in rows ==> r.year.Some?
    ensures DatedCitations(rows) == TotalCitations(rows)
  {
    if rows != [] {
      assert rows[0] in rows;
      forall r | r in rows[1..] ensures r.year.Some? { assert r in rows; }
      AllDated(rows[1..]);
    }
  }

  /** An ascending list is determined by its years and their totals: the grouping's contract
      above leaves no freedom in its result. */
  lemma {:induction false} TrendsDetermined(g1: seq<YearTotal>, g2: seq<YearTotal>)
    requires StrictlyAscending(g1) && StrictlyAscending(g2)
    requires YearsOf(g1) == YearsOf(g2)
    requires forall y :: TotalAt(g1, y) == TotalAt(g2, y)
    ensures g1 == g2
    decreases |g1|
  {
    if g1 == [] || g2 == [] {
      NoYearsNoEntries(g1);
      NoYearsNoEntries(g2);
    } else {
      var h1, h2 := g1[0], g2[0];
      assert g1 == [h1] + g1[1..] && g2 == [h2] + g2[1..];
      YearsOfCons(h1, g1[1..]);
      YearsOfCons(h2, g2[1..]);
      AscendingCons(h1, g1[1..]);
      AscendingCons(h2, g2[1..]);
      assert h1.year in YearsOf(g2) && h2.year in YearsOf(g1);
      assert h1.year == h2.year;
      AbsentAfterHead(g1);
      AbsentAfterHead(g2);
      assert h1.citedBy == TotalAt(g1, h1.year) && h2.citedBy == TotalAt(g2, h2.year);
      assert h1 == h2;
      assert YearsOf(g1[1..]) == YearsOf(g2[1..]) by {
        assert YearsOf(g1[1..]) == YearsOf(g1) - {h1.year};
        assert YearsOf(g2[1..]) == YearsOf(g2) - {h2.year};
      }
      forall y ensures TotalAt(g1[1..], y) == TotalAt(g2[1..], y) {
        assert TotalAt(g1, y) == (if h1.year == y then h1.citedBy else 0) + TotalAt(g1[1..], y);
        assert TotalAt(g2, y) == (if h2.year == y then h2.citedBy else 0) + TotalAt(g2[1..], y);
      }
      TrendsDetermined(g1[1..], g2[1..]);
    }
  }

  lemma NoYearsNoEntries(g: seq<YearTotal>)
    ensures YearsOf(g) == {} <==> g == []
  {
    if g != [] { assert g[0].year in YearsOf(g); }
  }

  lemma {:induction false} SumForYearAppend(a: seq<Record>, b: seq<Record>, y: int)
    ensures SumForYear(a + b, y) == SumForYear(a, y) + SumForYear(b, y)
  {
    if a != [] {
      var ab := a + b;
      assert ab[0] == a[0] && ab[1..] == a[1..] + b;
      SumForYearAppend(a[1..], b, y);
      assert SumForYear(ab, y) == (if a[0].year == Some(y) then Cites(a[0]) else 0) + SumForYear(a[1..] + b, y);
    } else {
      assert a + b == b;
    }
  }

  /** A year's sum does not depend on the order of the rows. */
  lemma {:induction false} SumForYearPermutation(a: seq<Record>, b: seq<Record>, y: int)
    requires multiset(a) == multiset(b)
    ensures SumForYear(a, y) == SumForYear(b, y)
  {
    if a == [] {
      assert |b| == |multiset(b)| == 0;
    } else {
      var x := a[0];
      assert a == [x] + a[1..];
      assert x in multiset(b);
      var k :| 0 <= k < |b| && b[k] == x;
      var rest := b[..k] + b[k + 1..];
      var xs := [x] + b[k + 1..];
      assert b == b[..k] + xs;
      assert multiset(rest) == multiset(b) - multiset{x};
      SumForYearPermutation(a[1..], rest, y);
      SumForYearAppend(b[..k], xs, y);
      SumForYearAppend(b[..k], b[k + 1..], y);
      assert xs[0] == x && xs[1..] == b[k + 1..];
      var own := if x.year == Some(y) then Cites(x) else 0;
      assert SumForYear(xs, y) == own + SumForYear(b[k + 1..], y);
      assert SumForYear(a, y) == own + SumForYear(a[1..], y);
    }
  }

  /** Grouping does not depend on row order: the ranked table and the table it was ranked
      from give the same yearly totals. */
  lemma GroupByYearPermutation(a: seq<Record>, b: seq<Record>)
    requires multiset(a) == multiset(b)
    ensures GroupByYear(a) == GroupByYear(b)
  {
    GroupByYearSpec(a);
    GroupByYearSpec(b);
    assert PresentYears(a) == PresentYears(b) by {
      forall r ensures r in a <==> r in b {
        assert r in a <==> r in multiset(a);
        assert r in b <==> r in multiset(b);
      }
    }
    forall y ensures TotalAt(GroupByYear(a), y) == TotalAt(GroupByYear(b), y) {
      SumForYearPermutation(a, b, y);
    }
    TrendsDetermined(GroupByYear(a), GroupByYear(b));
  }
}
