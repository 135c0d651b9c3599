/** The tables built from the collected rows (blog_bot.py, lines 61-87):
    the de-duplicated detail table, the count per category, the count per
    (category, keyword) and the date-by-keyword matrix over the window. */
module Aggregate {
  import opened Wrappers
  import opened Text
  import opened Counting
  import opened Collector

  function CategoryOf(r: Row): string { r.category }
  function KeywordOf(r: Row): string { r.keyword }
  function DateOf(r: Row): int { r.date }
  function CategoryKeywordOf(r: Row): (string, string) { (r.category, r.keyword) }
  function DateKeywordOf(r: Row): (int, string) { (r.date, r.keyword) }

  function Urls(rows: seq<Row>): set<string>
  {
    set r | r in rows :: r.url
  }

  function CategorySet(rows: seq<Row>): set<string>
  {
    set r | r in rows :: r.category
  }

  // ---------------------------------------------------------------------
  // drop_duplicates('URL')
  // ---------------------------------------------------------------------

  /** Keeps the first row of every URL, in the order collected. */
  function DropDuplicateUrls(rows: seq<Row>): (d: seq<Row>)
    ensures Urls(d) == Urls(rows)
    ensures forall r :: r in d ==> r in rows
    ensures forall i, j :: 0 <= i < j < |d| ==> d[i].url != d[j].url
  {
    if rows == [] then []
    else
      var n := |rows| - 1;
      var prev := DropDuplicateUrls(rows[..n]);
      assert rows == rows[..n] + [rows[n]];
      assert Urls(rows) == Urls(rows[..n]) + {rows[n].url};
      if rows[n].url in Urls(prev) then prev
      else
        assert forall i :: 0 <= i < |prev| ==> prev[i].url in Urls(prev);
        prev + [rows[n]]
  }

  /** Position i holds the first row with its URL. */
  predicate FirstOfUrl(rows: seq<Row>, i: nat)
    requires i < |rows|
  {
    forall j :: 0 <= j < i ==> rows[j].url != rows[i].url
  }

  /** The rows among the first n that are the first of their URL, by position. */
  function FirstsUpTo(rows: seq<Row>, n: nat): seq<Row>
    requires n <= |rows|
  {
    if n == 0 then []
    else FirstsUpTo(rows, n - 1) + (if FirstOfUrl(rows, n - 1) then [rows[n - 1]] else [])
  }

  /** De-duplication keeps exactly the rows whose URL has not been seen
      earlier, and keeps them in their original order. */
  lemma {:induction false} DropDuplicateUrlsKeepsFirsts(rows: seq<Row>, n: nat)
    requires n <= |rows|
    ensures DropDuplicateUrls(rows[..n]) == FirstsUpTo(rows, n)
  {
    if n > 0 {
      var m := n - 1;
      var p := rows[..n];
      var x := rows[m];
      DropDuplicateUrlsKeepsFirsts(rows, m);
      assert p[..m] == rows[..m] && p[m] == x;
      var prev := DropDuplicateUrls(rows[..m]);
      assert DropDuplicateUrls(p) == if x.url in Urls(prev) then prev else prev + [x];
      assert Urls(prev) == Urls(rows[..m]);
      if FirstOfUrl(rows, m) {
        assert x.url !in Urls(rows[..m]);
      } else {
        var j :| 0 <= j < m && rows[j].url == x.url;
        assert rows[..m][j] == rows[j];
        assert x.url in Urls(rows[..m]);
      }
    }
  }

  /** The detail table: building a frame from no rows at all gives one
      without a URL column, so drop_duplicates('URL') raises. */
  function DetailTable(rows: seq<Row>): (t: Result<seq<Row>>)
    ensures t.Failure? <==> rows == []
    ensures t.Success? ==> t.value == FirstsUpTo(rows, |rows|)
  {
    if rows == [] then Failure("KeyError: URL")
    else
      DropDuplicateUrlsKeepsFirsts(rows, |rows|);
      assert rows[..|rows|] == rows;
      Success(DropDuplicateUrls(rows))
  }

  // ---------------------------------------------------------------------
  // Category order: groupby sorts its keys, sort_values('구분') keeps that
  // ---------------------------------------------------------------------

  predicate Ascending(s: seq<string>)
  {
    forall i, j :: 0 <= i < j < |s| ==> LexLess(s[i], s[j])
  }

  function InsertAscending(s: seq<string>, x: string): seq<string>
  {
    if s == [] then [x]
    else if s[0] == x then s
    else if LexLess(x, s[0]) then [x] + s
    else [s[0]] + InsertAscending(s[1..], x)
  }

  lemma {:induction false} InsertAscendingSpec(s: seq<string>, x: string)
    requires Ascending(s)
    ensures Ascending(InsertAscending(s, x))
    ensures forall y :: y in InsertAscending(s, x) <==> y in s || y == x
  {
    if s == [] || s[0] == x {
    } else if LexLess(x, s[0]) {
      forall j | 0 <= j < |s| ensures LexLess(x, s[j]) {
        if j > 0 {
          LexTransitive(x, s[0], s[j]);
        }
      }
      assert InsertAscending(s, x) == [x] + s;
    } else {
      InsertAscendingSpec(s[1..], x);
      LexTotal(x, s[0]);
      var t := InsertAscending(s[1..], x);
      forall k | 0 <= k < |t| ensures LexLess(s[0], t[k]) {
        assert t[k] in t;
      }
      assert InsertAscending(s, x) == [s[0]] + t;
    }
  }

  /** The distinct categories of rows in ascending code-point order. */
  function Categories(rows: seq<Row>): seq<string>
  {
    if rows == [] then [] else InsertAscending(Categories(rows[..|rows| - 1]), rows[|rows| - 1].category)
  }

  lemma {:induction false} CategoriesSpec(rows: seq<Row>)
    ensures Ascending(Categories(rows))
    ensures forall c :: c in Categories(rows) <==> c in CategorySet(rows)
  {
    if rows != [] {
      var n := |rows| - 1;
      CategoriesSpec(rows[..n]);
      InsertAscendingSpec(Categories(rows[..n]), rows[n].category);
      assert rows == rows[..n] + [rows[n]];
      assert CategorySet(rows) == CategorySet(rows[..n]) + {rows[n].category};
    }
  }

  lemma AscendingDistinct(s: seq<string>)
    requires Ascending(s)
    ensures Distinct(s)
  {
    forall i, j | 0 <= i < j < |s| ensures s[i] != s[j] {
      LexIrreflexive(s[i]);
    }
  }

  // ---------------------------------------------------------------------
  // 2-a) count per category
  // ---------------------------------------------------------------------

  datatype CategoryCount = CategoryCount(category: string, count: nat)

  function CountEach(rows: seq<Row>, cs: seq<string>): (s: seq<CategoryCount>)
    ensures |s| == |cs|
  {
    if cs == [] then []
    else [CategoryCount(cs[0], |Filter(rows, CategoryOf, cs[0])|)] + CountEach(rows, cs[1..])
  }

  /** summary_df: one line per category present, ascending by category. */
  function SummaryByCategory(rows: seq<Row>): seq<CategoryCount>
  {
    CountEach(rows, Categories(rows))
  }

  function TotalCount(s: seq<CategoryCount>): nat
  {
    if s == [] then 0 else s[0].count + TotalCount(s[1..])
  }

  lemma {:induction false} CountEachAt(rows: seq<Row>, cs: seq<string>, i: nat)
    requires i < |cs|
    ensures CountEach(rows, cs)[i] == CategoryCount(cs[i], |Filter(rows, CategoryOf, cs[i])|)
  {
    if i > 0 {
      CountEachAt(rows, cs[1..], i - 1);
    }
  }

  lemma {:induction false} CountEachTotal(rows: seq<Row>, cs: seq<string>)
    ensures TotalCount(CountEach(rows, cs)) == Sum(Sizes(rows, CategoryOf, cs))
  {
    if cs != [] {
      CountEachTotal(rows, cs[1..]);
    }
  }

  /** Lines are in strictly ascending category order, each category of the
      detail table has exactly one line, and no line names a category that
      has no rows. */
  lemma SummaryByCategoryOrder(rows: seq<Row>)
    ensures var s := SummaryByCategory(rows);
      && (forall i, j :: 0 <= i < j < |s| ==> LexLess(s[i].category, s[j].category))
      && (forall c :: c in CategorySet(rows) <==> exists i :: 0 <= i < |s| && s[i].category == c)
  {
    var cs := Categories(rows);
    var s := SummaryByCategory(rows);
    CategoriesSpec(rows);
    forall i | 0 <= i < |s| ensures s[i].category == cs[i] {
      CountEachAt(rows, cs, i);
    }
  }

  /** Each line's count is the size of its category's group, and is never zero. */
  lemma SummaryByCategoryCounts(rows: seq<Row>)
    ensures var s := SummaryByCategory(rows);
      forall i :: 0 <= i < |s| ==> s[i].count == |Filter(rows, CategoryOf, s[i].category)| && s[i].count > 0
  {
    var cs := Categories(rows);
    var s := SummaryByCategory(rows);
    CategoriesSpec(rows);
    forall i | 0 <= i < |s| ensures s[i].count == |Filter(rows, CategoryOf, s[i].category)| && s[i].count > 0 {
      CountEachAt(rows, cs, i);
      assert cs[i] in CategorySet(rows);
      var r :| r in rows && r.category == cs[i];
      FilterKeeps(rows, CategoryOf, r);
    }
  }

  /** The per-category counts add up to the number of rows. */
  lemma SummaryByCategoryTotal(rows: seq<Row>)
    ensures TotalCount(SummaryByCategory(rows)) == |rows|
  {
    var cs := Categories(rows);
    CategoriesSpec(rows);
    AscendingDistinct(cs);
    CountEachTotal(rows, cs);
    forall r | r in rows ensures CategoryOf(r) in cs {
      assert r.category in CategorySet(rows);
    }
    Partition(rows, CategoryOf, cs);
  }

  // ---------------------------------------------------------------------
  // 2-b) count per (category, keyword)
  // ---------------------------------------------------------------------

  datatype GroupCount = GroupCount(category: string, keyword: string, count: nat)

  /** Size of the group of one (category, keyword) pair. */
  function GroupSize(rows: seq<Row>, category: string, keyword: string): nat
  {
    |Filter(Filter(rows, CategoryOf, category), KeywordOf, keyword)|
  }

  /** The non-empty groups of one category, keywords taken from kwOrder[m..] in order. */
  function KeywordGroups(rows: seq<Row>, category: string, kwOrder: seq<string>, m: nat): seq<GroupCount>
    requires m <= |kwOrder|
    decreases |kwOrder| - m
  {
    if m == |kwOrder| then []
    else
      var n := GroupSize(rows, category, kwOrder[m]);
      (if n > 0 then [GroupCount(category, kwOrder[m], n)] else []) + KeywordGroups(rows, category, kwOrder, m + 1)
  }

  function CategoryGroups(rows: seq<Row>, cs: seq<string>, kwOrder: seq<string>): seq<GroupCount>
  {
    if cs == [] then [] else KeywordGroups(rows, cs[0], kwOrder, 0) + CategoryGroups(rows, cs[1..], kwOrder)
  }

  /** summary_kw_df: the observed (category, keyword) pairs, sorted by category
      and then by the keyword's place in kw_order; rows whose keyword is not
      one of kw_order fall out of the categorical and are not counted. */
  function SummaryByCategoryKeyword(rows: seq<Row>, kwOrder: seq<string>): seq<GroupCount>
  {
    CategoryGroups(rows, Categories(rows), kwOrder)
  }

  function GroupTotal(s: seq<GroupCount>): nat
  {
    if s == [] then 0 else s[0].count + GroupTotal(s[1..])
  }

  lemma {:induction false} GroupTotalConcat(a: seq<GroupCount>, b: seq<GroupCount>)
    ensures GroupTotal(a + b) == GroupTotal(a) + GroupTotal(b)
  {
    if a == [] {
      assert a + b == b;
    } else {
      assert (a + b)[0] == a[0] && (a + b)[1..] == a[1..] + b;
      GroupTotalConcat(a[1..], b);
    }
  }

  /** Category first, then keyword by its position in kwOrder. */
  predicate GroupsOrdered(s: seq<GroupCount>, kwOrder: seq<string>)
  {
    forall i, j :: 0 <= i < j < |s| ==>
      || LexLess(s[i].category, s[j].category)
      || (s[i].category == s[j].category && IndexOf(kwOrder, s[i].keyword) < IndexOf(kwOrder, s[j].keyword))
  }

  /** What every line of the table says: a pair's group, non-empty, with the
      keyword one of kwOrder and the count that of the pair. */
  predicate GroupLine(e: GroupCount, rows: seq<Row>, kwOrder: seq<string>)
  {
    && e.keyword in kwOrder
    && e.count > 0
    && e.count == |Filter(rows, CategoryKeywordOf, (e.category, e.keyword))|
  }

  lemma {:induction false} KeywordGroupsLines(rows: seq<Row>, category: string, kwOrder: seq<string>, m: nat)
    requires m <= |kwOrder| && Distinct(kwOrder)
    ensures forall e :: e in KeywordGroups(rows, category, kwOrder, m) ==>
      e.category == category && m <= IndexOf(kwOrder, e.keyword) && GroupLine(e, rows, kwOrder)
    decreases |kwOrder| - m
  {
    if m < |kwOrder| {
      KeywordGroupsLines(rows, category, kwOrder, m + 1);
      FilterPair(rows, CategoryOf, KeywordOf, CategoryKeywordOf, category, kwOrder[m]);
      IndexOfDistinct(kwOrder, m);
    }
  }

  /** Keywords strictly by their position in kwOrder. */
  predicate KeywordsAscending(g: seq<GroupCount>, kwOrder: seq<string>)
  {
    forall i, j :: 0 <= i < j < |g| ==> IndexOf(kwOrder, g[i].keyword) < IndexOf(kwOrder, g[j].keyword)
  }

  lemma KeywordsAscendingCons(head: GroupCount, rest: seq<GroupCount>, kwOrder: seq<string>)
    requires KeywordsAscending(rest, kwOrder)
    requires forall e :: e in rest ==> IndexOf(kwOrder, head.keyword) < IndexOf(kwOrder, e.keyword)
    ensures KeywordsAscending([head] + rest, kwOrder)
  {
    var g := [head] + rest;
    forall i, j | 0 <= i < j < |g| ensures IndexOf(kwOrder, g[i].keyword) < IndexOf(kwOrder, g[j].keyword) {
      assert g[j] == rest[j - 1] && g[j] in rest;
      if i > 0 {
        assert g[i] == rest[i - 1];
      }
    }
  }

  lemma {:induction false} KeywordGroupsOrdered(rows: seq<Row>, category: string, kwOrder: seq<string>, m: nat)
    requires m <= |kwOrder| && Distinct(kwOrder)
    ensures KeywordsAscending(KeywordGroups(rows, category, kwOrder, m), kwOrder)
    decreases |kwOrder| - m
  {
    if m < |kwOrder| {
      KeywordGroupsOrdered(rows, category, kwOrder, m + 1);
      if GroupSize(rows, category, kwOrder[m]) > 0 {
        KeywordGroupsOrderedCons(rows, category, kwOrder, m);
      } else {
        KeywordGroupsSkip(rows, category, kwOrder, m);
      }
    }
  }

  /** A keyword without lines adds no group. */
  lemma KeywordGroupsSkip(rows: seq<Row>, category: string, kwOrder: seq<string>, m: nat)
    requires m < |kwOrder| && GroupSize(rows, category, kwOrder[m]) == 0
    ensures KeywordGroups(rows, category, kwOrder, m) == KeywordGroups(rows, category, kwOrder, m + 1)
  {
    var rest := KeywordGroups(rows, category, kwOrder, m + 1);
    assert [] + rest == rest;
  }

  /** The step of KeywordGroupsOrdered when keyword m has lines. */
  lemma KeywordGroupsOrderedCons(rows: seq<Row>, category: string, kwOrder: seq<string>, m: nat)
    requires m < |kwOrder| && Distinct(kwOrder) && GroupSize(rows, category, kwOrder[m]) > 0
    requires KeywordsAscending(KeywordGroups(rows, category, kwOrder, m + 1), kwOrder)
    ensures KeywordsAscending(KeywordGroups(rows, category, kwOrder, m), kwOrder)
  {
    var rest := KeywordGroups(rows, category, kwOrder, m + 1);
    KeywordGroupsLines(rows, category, kwOrder, m + 1);
    IndexOfDistinct(kwOrder, m);
    KeywordsAscendingCons(GroupCount(category, kwOrder[m], GroupSize(rows, category, kwOrder[m])), rest, kwOrder);
  }

  lemma {:induction false} CategoryGroupsShape(rows: seq<Row>, cs: seq<string>, kwOrder: seq<string>)
    requires Ascending(cs) && Distinct(kwOrder)
    ensures var g := CategoryGroups(rows, cs, kwOrder);
      && (forall e :: e in g ==> e.category in cs && GroupLine(e, rows, kwOrder))
      && GroupsOrdered(g, kwOrder)
  {
    if cs != [] {
      var first := KeywordGroups(rows, cs[0], kwOrder, 0);
      var rest := CategoryGroups(rows, cs[1..], kwOrder);
      KeywordGroupsLines(rows, cs[0], kwOrder, 0);
      KeywordGroupsOrdered(rows, cs[0], kwOrder, 0);
      CategoryGroupsShape(rows, cs[1..], kwOrder);
      var g := first + rest;
      assert CategoryGroups(rows, cs, kwOrder) == g;
      forall i, j | 0 <= i < j < |g|
        ensures || LexLess(g[i].category, g[j].category)
                || (g[i].category == g[j].category && IndexOf(kwOrder, g[i].keyword) < IndexOf(kwOrder, g[j].keyword))
      {
        if j < |first| {
          assert g[i] == first[i] && g[j] == first[j];
          assert IndexOf(kwOrder, first[i].keyword) < IndexOf(kwOrder, first[j].keyword);
        } else if i < |first| {
          assert g[i] in first;
          assert g[j] == rest[j - |first|];
          assert g[j] in rest;
          var t :| 0 <= t < |cs| - 1 && cs[1..][t] == g[j].category;
          assert cs[t + 1] == g[j].category;
        } else {
          assert g[i] == rest[i - |first|] && g[j] == rest[j - |first|];
        }
      }
    }
  }

  /** Lines are ordered by category, then by kw_order; every line is a
      non-empty (category, keyword) group with its true size. */
  lemma SummaryByCategoryKeywordShape(rows: seq<Row>, kwOrder: seq<string>)
    requires Distinct(kwOrder)
    ensures var g := SummaryByCategoryKeyword(rows, kwOrder);
      && GroupsOrdered(g, kwOrder)
      && (forall e :: e in g ==> e.category in CategorySet(rows) && GroupLine(e, rows, kwOrder))
  {
    CategoriesSpec(rows);
    CategoryGroupsShape(rows, Categories(rows), kwOrder);
  }

  lemma {:induction false} KeywordGroupsTotal(rows: seq<Row>, category: string, kwOrder: seq<string>, m: nat)
    requires m <= |kwOrder|
    ensures GroupTotal(KeywordGroups(rows, category, kwOrder, m))
         == Sum(Sizes(Filter(rows, CategoryOf, category), KeywordOf, kwOrder[m..]))
    decreases |kwOrder| - m
  {
    if m < |kwOrder| {
      KeywordGroupsTotal(rows, category, kwOrder, m + 1);
      assert kwOrder[m..][0] == kwOrder[m] && kwOrder[m..][1..] == kwOrder[m + 1..];
      var n := GroupSize(rows, category, kwOrder[m]);
      var rest := KeywordGroups(rows, category, kwOrder, m + 1);
      if n > 0 {
        assert KeywordGroups(rows, category, kwOrder, m) == [GroupCount(category, kwOrder[m], n)] + rest;
        assert ([GroupCount(category, kwOrder[m], n)] + rest)[1..] == rest;
      } else {
        assert KeywordGroups(rows, category, kwOrder, m) == rest;
      }
    }
  }

  lemma {:induction false} CategoryGroupsTotal(rows: seq<Row>, cs: seq<string>, kwOrder: seq<string>)
    requires Distinct(kwOrder)
    requires forall r :: r in rows ==> r.keyword in kwOrder
    ensures GroupTotal(CategoryGroups(rows, cs, kwOrder)) == Sum(Sizes(rows, CategoryOf, cs))
  {
    if cs != [] {
      var part := Filter(rows, CategoryOf, cs[0]);
      CategoryGroupsTotal(rows, cs[1..], kwOrder);
      GroupTotalConcat(KeywordGroups(rows, cs[0], kwOrder, 0), CategoryGroups(rows, cs[1..], kwOrder));
      KeywordGroupsTotal(rows, cs[0], kwOrder, 0);
      assert kwOrder[0..] == kwOrder;
      Partition(part, KeywordOf, kwOrder);
    }
  }

  /** When every row's keyword is one of kw_order (listed once each), the
      (category, keyword) counts add up to the number of rows. */
  lemma SummaryByCategoryKeywordTotal(rows: seq<Row>, kwOrder: seq<string>)
    requires Distinct(kwOrder)
    requires forall r :: r in rows ==> r.keyword in kwOrder
    ensures GroupTotal(SummaryByCategoryKeyword(rows, kwOrder)) == |rows|
  {
    var cs := Categories(rows);
    CategoriesSpec(rows);
    AscendingDistinct(cs);
    CategoryGroupsTotal(rows, cs, kwOrder);
    forall r | r in rows ensures CategoryOf(r) in cs {
      assert r.category in CategorySet(rows);
    }
    Partition(rows, CategoryOf, cs);
  }

  // ---------------------------------------------------------------------
  // 2-c) date-by-keyword matrix
  // ---------------------------------------------------------------------

  /** pd.date_range(first, last): every day from first to last, both included. */
  function Days(first: int, last: int): (ds: seq<int>)
    ensures |ds| == (if first <= last then last - first + 1 else 0)
    ensures forall i :: 0 <= i < |ds| ==> ds[i] == first + i
    decreases last - first + 1
  {
    if first > last then [] else [first] + Days(first + 1, last)
  }

  /** One line per day of days, one column per keyword of kwOrder. */
  function DailyCounts(rows: seq<Row>, kwOrder: seq<string>, days: seq<int>): (m: seq<seq<nat>>)
    ensures |m| == |days|
    ensures forall i :: 0 <= i < |m| ==> |m[i]| == |kwOrder|
  {
    if days == [] then []
    else [Sizes(Filter(rows, DateOf, days[0]), KeywordOf, kwOrder)] + DailyCounts(rows, kwOrder, days[1..])
  }

  /** daily_df: the (date, keyword) group sizes, zero where a pair has no rows,
      over every day of the window and every keyword of kw_order. */
  function DailyMatrix(rows: seq<Row>, kwOrder: seq<string>, startDate: int, endDate: int): seq<seq<nat>>
  {
    DailyCounts(rows, kwOrder, Days(startDate, endDate))
  }

  function MatrixTotal(m: seq<seq<nat>>): nat
  {
    if m == [] then 0 else Sum(m[0]) + MatrixTotal(m[1..])
  }

  lemma {:induction false} DailyCountsAt(rows: seq<Row>, kwOrder: seq<string>, days: seq<int>, i: nat, j: nat)
    requires i < |days| && j < |kwOrder|
    ensures DailyCounts(rows, kwOrder, days)[i][j] == |Filter(rows, DateKeywordOf, (days[i], kwOrder[j]))|
  {
    if i > 0 {
      DailyCountsAt(rows, kwOrder, days[1..], i - 1, j);
    } else {
      SizesAt(Filter(rows, DateOf, days[0]), KeywordOf, kwOrder, j);
      FilterPair(rows, DateOf, KeywordOf, DateKeywordOf, days[0], kwOrder[j]);
    }
  }

  /** The matrix has one line per day of the window and one column per
      keyword; cell (i, j) counts the rows dated startDate + i with keyword
      kwOrder[j], which is zero when there are none. */
  lemma DailyMatrixCells(rows: seq<Row>, kwOrder: seq<string>, startDate: int, endDate: int)
    ensures var m := DailyMatrix(rows, kwOrder, startDate, endDate);
      && |m| == (if startDate <= endDate then endDate - startDate + 1 else 0)
      && (forall i, j :: 0 <= i < |m| && 0 <= j < |kwOrder| ==>
            |m[i]| == |kwOrder| && m[i][j] == |Filter(rows, DateKeywordOf, (startDate + i, kwOrder[j]))|)
  {
    var days := Days(startDate, endDate);
    forall i, j | 0 <= i < |days| && 0 <= j < |kwOrder|
      ensures DailyCounts(rows, kwOrder, days)[i][j] == |Filter(rows, DateKeywordOf, (startDate + i, kwOrder[j]))|
    {
      DailyCountsAt(rows, kwOrder, days, i, j);
    }
  }

  lemma {:induction false} DailyCountsTotal(rows: seq<Row>, kwOrder: seq<string>, days: seq<int>)
    requires Distinct(kwOrder)
    requires forall r :: r in rows ==> r.keyword in kwOrder
    ensures MatrixTotal(DailyCounts(rows, kwOrder, days)) == Sum(Sizes(rows, DateOf, days))
  {
    if days != [] {
      DailyCountsTotal(rows, kwOrder, days[1..]);
      Partition(Filter(rows, DateOf, days[0]), KeywordOf, kwOrder);
    }
  }

  /** When every row lies in the window and has a keyword of kw_order, the
      matrix accounts for every row exactly once. */
  lemma DailyMatrixTotal(rows: seq<Row>, kwOrder: seq<string>, startDate: int, endDate: int)
    requires Distinct(kwOrder)
    requires forall r :: r in rows ==> r.keyword in kwOrder && startDate <= r.date <= endDate
    ensures MatrixTotal(DailyMatrix(rows, kwOrder, startDate, endDate)) == |rows|
  {
    var days := Days(startDate, endDate);
    DailyCountsTotal(rows, kwOrder, days);
    forall r | r in rows ensures DateOf(r) in days {
      assert days[r.date - startDate] == r.date;
    }
    Partition(rows, DateOf, days);
  }

  // ---------------------------------------------------------------------
  // The tables over what the collector gathers
  // ---------------------------------------------------------------------

  /** With the keyword order listed once each, the three tables built from
      the de-duplicated rows of a run all account for every one of them. */
  lemma ReportTotals(search: (string, int) -> Response, keywords: seq<string>, mapping: map<string, string>,
                     startDate: int, endDate: int)
    requires forall q :: q in keywords ==> StripQuotes(q) in mapping
    requires Distinct(KeywordOrder(keywords))
    ensures var d := DropDuplicateUrls(CollectAll(search, keywords, mapping, startDate, endDate).rows);
      var kwOrder := KeywordOrder(keywords);
      && TotalCount(SummaryByCategory(d)) == |d|
      && GroupTotal(SummaryByCategoryKeyword(d, kwOrder)) == |d|
      && MatrixTotal(DailyMatrix(d, kwOrder, startDate, endDate)) == |d|
  {
    var rows := CollectAll(search, keywords, mapping, startDate, endDate).rows;
    var d := DropDuplicateUrls(rows);
    CollectedRowsWellFormed(search, keywords, mapping, startDate, endDate);
    SummaryByCategoryTotal(d);
    SummaryByCategoryKeywordTotal(d, KeywordOrder(keywords));
    DailyMatrixTotal(d, KeywordOrder(keywords), startDate, endDate);
  }
}
