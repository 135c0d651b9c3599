/** Collection of blog posts (blog_bot.py, lines 23-59): for every search
    keyword, page through the date-sorted search results 100 at a time and keep
    the posts of the reporting window, each tagged with its keyword's category.

    The search API is the parameter `search(query, start)`; its answer is a
    Response whose `items` key may be missing. Dates are day numbers. */
module Collector {
  import opened Wrappers
  import opened Text
  import opened Counting

  datatype Item = Item(postdate: int, title: string, link: string)

  /** The decoded JSON of one search answer; `display` defaults to 0 when absent. */
  datatype Response = Response(items: Option<seq<Item>>, display: Option<int>)

  /** One entry of detail_rows: 구분, 키워드, 날짜, 제목, URL. */
  datatype Row = Row(category: string, keyword: string, date: int, title: string, url: string)

  /** One call of the search API. */
  datatype Request = Request(query: string, start: int)

  datatype PageScan = PageScan(rows: seq<Row>, hitOld: bool)
  datatype KeywordScan = KeywordScan(rows: seq<Row>, requests: nat)
  datatype Collected = Collected(rows: seq<Row>, log: seq<Request>)

  const Keywords: seq<string> :=
    ["\"이즐 교통카드\"", "\"ezl\"", "\"이즐\"", "\"캐시비\"", "\"이동의즐거움\"", "\"티머니\""]
  const Mapping: map<string, string> :=
    map["이동의즐거움" := "자사", "이즐" := "자사", "ezl" := "자사", "이즐 교통카드" := "자사",
        "캐시비" := "자사", "티머니" := "경쟁사"]

  /** Results per request (`display`), the largest admissible cursor, and the
      number of cursors 1, 101, ..., 901 that do not exceed it. */
  const PageSize := 100
  const LastStart := 1000
  const MaxPages := 10

  function Cursor(k: nat): int
  {
    1 + PageSize * k
  }

  lemma CursorBound(k: nat)
    ensures Cursor(k) <= LastStart <==> k < MaxPages
  {
  }

  lemma CursorShape(k: nat)
    requires k < MaxPages
    ensures Cursor(k) % PageSize == 1 && 1 <= Cursor(k) <= Cursor(MaxPages - 1)
  {
    assert Cursor(k) == 1 + 100 * k;
  }

  /** kw_order: the keywords without their quotes. */
  function KeywordOrder(keywords: seq<string>): seq<string>
  {
    seq(|keywords|, i requires 0 <= i < |keywords| => StripQuotes(keywords[i]))
  }

  lemma TrimLeftQuote(w: string)
    requires w != [] && w[0] != '"'
    ensures TrimLeft("\"" + w, IsQuote) == w
  {
    assert ("\"" + w)[1..] == w;
  }

  lemma TrimRightQuote(w: string)
    requires w != [] && w[|w| - 1] != '"'
    ensures TrimRight(w + "\"", IsQuote) == w
  {
    assert (w + "\"")[..|w|] == w;
  }

  lemma StripQuotesOfQuoted(w: string)
    requires w != [] && w[0] != '"' && w[|w| - 1] != '"'
    ensures StripQuotes("\"" + w + "\"") == w
  {
    assert "\"" + w + "\"" == "\"" + (w + "\"");
    TrimLeftQuote(w + "\"");
    TrimRightQuote(w);
  }

  /** kw_order of the script's own keyword list. */
  const ConfiguredOrder: seq<string> := ["이즐 교통카드", "ezl", "이즐", "캐시비", "이동의즐거움", "티머니"]

  function Quoted(words: seq<string>): seq<string>
  {
    seq(|words|, i requires 0 <= i < |words| => "\"" + words[i] + "\"")
  }

  /** Stripping the quotes of quoted words gives back the words. */
  lemma KeywordOrderOfQuoted(words: seq<string>)
    requires forall w :: w in words ==> w != [] && w[0] != '"' && w[|w| - 1] != '"'
    ensures KeywordOrder(Quoted(words)) == words
  {
    forall i | 0 <= i < |words| ensures KeywordOrder(Quoted(words))[i] == words[i] {
      StripQuotesOfQuoted(words[i]);
    }
  }

  /** The configured keywords are the configured order, each in quotes. */
  lemma KeywordsAreQuoted()
    ensures Keywords == Quoted(ConfiguredOrder)
  {
    var q := Quoted(ConfiguredOrder);
    assert q[0] == Keywords[0];
    assert q[1] == Keywords[1];
    assert q[2] == Keywords[2];
    assert q[3] == Keywords[3];
    assert q[4] == Keywords[4];
    assert q[5] == Keywords[5];
  }

  lemma ConfiguredOrderUnquoted()
    ensures forall w :: w in ConfiguredOrder ==> w != [] && w[0] != '"' && w[|w| - 1] != '"'
  {
  }

  lemma KeywordOrderOfConfiguration()
    ensures KeywordOrder(Keywords) == ConfiguredOrder
  {
    KeywordsAreQuoted();
    ConfiguredOrderUnquoted();
    KeywordOrderOfQuoted(ConfiguredOrder);
  }

  /** The script's own keyword list and mapping: every keyword has a category,
      and kw_order lists each keyword once. */
  lemma ConfigurationIsConsistent()
    ensures forall q :: q in Keywords ==> StripQuotes(q) in Mapping
    ensures Distinct(KeywordOrder(Keywords))
  {
    KeywordOrderOfConfiguration();
    ConfiguredOrderMapped();
    ConfiguredOrderDistinct();
    OrderMapped(Keywords, Mapping);
  }

  /** A keyword has a category when its entry of kw_order does. */
  lemma OrderMapped(keywords: seq<string>, mapping: map<string, string>)
    requires forall i :: 0 <= i < |keywords| ==> KeywordOrder(keywords)[i] in mapping
    ensures forall q :: q in keywords ==> StripQuotes(q) in mapping
  {
    forall q | q in keywords ensures StripQuotes(q) in mapping {
      var i :| 0 <= i < |keywords| && keywords[i] == q;
      assert StripQuotes(q) == KeywordOrder(keywords)[i];
    }
  }

  lemma ConfiguredOrderMapped()
    ensures forall i :: 0 <= i < |ConfiguredOrder| ==> ConfiguredOrder[i] in Mapping
  {
  }

  lemma ConfiguredOrderDistinct()
    ensures Distinct(ConfiguredOrder)
  {
  }

  /** Index in t of the '>' closing a tag opened just before t: the first '>',
      provided no line break comes before it ('.' does not match '\n'). */
  function Closer(t: string): (r: Option<nat>)
    ensures r.Some? ==> r.value < |t| && t[r.value] == '>'
    ensures r.Some? ==> forall k :: 0 <= k < r.value ==> t[k] != '>' && t[k] != '\n'
    ensures r.None? ==> forall k :: 0 <= k < |t| && t[k] == '>' ==> '\n' in t[..k]
  {
    if t == [] then None
    else if t[0] == '>' then Some(0)
    else if t[0] == '\n' then None
    else
      match Closer(t[1..])
      case Some(j) => Some(j + 1)
      case None =>
        assert forall k :: 1 <= k < |t| ==> t[1..][..k - 1] == t[1..k];
        None
  }

  predicate TagAt(s: string, i: int)
  {
    0 <= i < |s| && s[i] == '<' && Closer(s[i + 1..]).Some?
  }

  predicate NoTags(s: string)
  {
    forall i :: 0 <= i < |s| ==> !TagAt(s, i)
  }

  /** re.sub('<.*?>', '', s): scanning left to right, removes every '<' together
      with the text up to the nearest following '>' on the same line. */
  function StripTags(s: string): (r: string)
    ensures |r| <= |s|
    decreases |s|
  {
    if s == [] then []
    else if TagAt(s, 0) then StripTags(s[Closer(s[1..]).value + 2..])
    else [s[0]] + StripTags(s[1..])
  }

  lemma {:induction false} TagShift(c: char, t: string, i: int)
    requires 1 <= i
    ensures TagAt([c] + t, i) == TagAt(t, i - 1)
  {
    if 1 <= i <= |t| {
      assert ([c] + t)[i + 1..] == t[i..];
    }
  }

  /** Text with no closing '>' before its first line break keeps that property through StripTags. */
  lemma {:induction false} UnclosedStaysUnclosed(t: string)
    requires Closer(t).None?
    ensures Closer(StripTags(t)).None?
    decreases |t|
  {
    if t != [] && t[0] != '\n' {
      assert !TagAt(t, 0);
      UnclosedStaysUnclosed(t[1..]);
      assert ([t[0]] + StripTags(t[1..]))[1..] == StripTags(t[1..]);
    }
  }

  /** After StripTags no tag is left. */
  lemma {:induction false} StripTagsRemovesAll(s: string)
    ensures NoTags(StripTags(s))
    decreases |s|
  {
    if s == [] {
    } else if TagAt(s, 0) {
      StripTagsRemovesAll(s[Closer(s[1..]).value + 2..]);
    } else {
      var rest := StripTags(s[1..]);
      StripTagsRemovesAll(s[1..]);
      forall i ensures !TagAt([s[0]] + rest, i) {
        if i >= 1 {
          TagShift(s[0], rest, i);
        } else if i == 0 && s[0] == '<' {
          UnclosedStaysUnclosed(s[1..]);
          assert ([s[0]] + rest)[1..] == rest;
        }
      }
    }
  }

  /** Text without tags is left unchanged, so StripTags is idempotent. */
  lemma {:induction false} StripTagsKeepsPlainText(s: string)
    requires NoTags(s)
    ensures StripTags(s) == s
    decreases |s|
  {
    if s != [] {
      assert !TagAt(s, 0);
      forall i | 0 <= i < |s| - 1 ensures !TagAt(s[1..], i) {
        assert s == [s[0]] + s[1..];
        TagShift(s[0], s[1..], i + 1);
        assert !TagAt(s, i + 1);
      }
      StripTagsKeepsPlainText(s[1..]);
      assert s == [s[0]] + s[1..];
    }
  }

  lemma StripTagsIdempotent(s: string)
    ensures StripTags(StripTags(s)) == StripTags(s)
  {
    StripTagsRemovesAll(s);
    StripTagsKeepsPlainText(StripTags(s));
  }

  /** Text before the first '<' is kept as it is. */
  lemma {:induction false} StripTagsKeepsPlainPrefix(a: string, b: string)
    requires '<' !in a
    ensures StripTags(a + b) == a + StripTags(b)
    decreases |a|
  {
    if a == [] {
      assert a + b == b && a + StripTags(b) == StripTags(b);
    } else {
      assert (a + b)[0] == a[0] != '<' && (a + b)[1..] == a[1..] + b;
      assert StripTags(a + b) == [a[0]] + StripTags(a[1..] + b);
      assert '<' !in a[1..];
      StripTagsKeepsPlainPrefix(a[1..], b);
      assert [a[0]] + a[1..] == a;
      AppendAssoc([a[0]], a[1..], StripTags(b));
    }
  }

  /** A '>' after a run with no '>' and no line break closes the tag. */
  lemma {:induction false} CloserOfTag(t: string, b: string)
    requires '>' !in t && '\n' !in t
    ensures Closer(t + ">" + b) == Some(|t|)
    decreases |t|
  {
    if t != [] {
      assert (t + ">" + b)[1..] == t[1..] + ">" + b;
      CloserOfTag(t[1..], b);
    }
  }

  /** A whole tag is removed and nothing after it. */
  lemma StripTagsDropsTag(t: string, b: string)
    requires '>' !in t && '\n' !in t
    ensures StripTags("<" + t + ">" + b) == StripTags(b)
  {
    var s := "<" + t + ">" + b;
    assert s[1..] == t + ">" + b;
    CloserOfTag(t, b);
    assert s[|t| + 2..] == b;
  }

  /** The text around a tag survives: plain text, then a tag, then the rest. */
  lemma StripTagsAroundTag(a: string, t: string, b: string)
    requires '<' !in a && '>' !in t && '\n' !in t
    ensures StripTags(a + "<" + t + ">" + b) == a + StripTags(b)
  {
    assert a + "<" + t + ">" + b == a + ("<" + t + ">" + b);
    StripTagsKeepsPlainPrefix(a, "<" + t + ">" + b);
    StripTagsDropsTag(t, b);
  }

  function DisplayOf(resp: Response): int
  {
    match resp.display
    case Some(d) => d
    case None => 0
  }

  /** The detail row for one post of a keyword. */
  function MakeRow(keyword: string, category: string, it: Item): Row
  {
    Row(category, keyword, it.postdate, StripTags(it.title), it.link)
  }

  /** One page of results in order: posts newer than endDate are skipped, and
      the first post older than startDate ends the page and the keyword. */
  function ScanItems(items: seq<Item>, keyword: string, category: string, startDate: int, endDate: int): (p: PageScan)
    ensures |p.rows| <= |items|
  {
    if items == [] then PageScan([], false)
    else if items[0].postdate < startDate then PageScan([], true)
    else
      var rest := ScanItems(items[1..], keyword, category, startDate, endDate);
      var row := if items[0].postdate > endDate then [] else [MakeRow(keyword, category, items[0])];
      PageScan(row + rest.rows, rest.hitOld)
  }

  /** Index of the first post older than startDate, or |items| if there is none. */
  function FirstOld(items: seq<Item>, startDate: int): (n: nat)
    ensures n <= |items|
    ensures n < |items| ==> items[n].postdate < startDate
    ensures forall k :: 0 <= k < n ==> items[k].postdate >= startDate
  {
    if items == [] || items[0].postdate < startDate then 0
    else 1 + FirstOld(items[1..], startDate)
  }

  /** Rows for the posts no newer than endDate, in order. */
  function KeptRows(items: seq<Item>, keyword: string, category: string, endDate: int): seq<Row>
  {
    if items == [] then []
    else (if items[0].postdate <= endDate then [MakeRow(keyword, category, items[0])] else [])
         + KeptRows(items[1..], keyword, category, endDate)
  }

  /** A page yields exactly the rows of its posts up to the first one older than
      startDate, newer ones skipped; it reports that post iff there is one. */
  lemma {:induction false} ScanItemsIsPrefixFilter(items: seq<Item>, keyword: string, category: string, startDate: int, endDate: int)
    ensures var n := FirstOld(items, startDate);
      ScanItems(items, keyword, category, startDate, endDate)
        == PageScan(KeptRows(items[..n], keyword, category, endDate), n < |items|)
  {
    if items != [] && items[0].postdate >= startDate {
      ScanItemsIsPrefixFilter(items[1..], keyword, category, startDate, endDate);
      var n := FirstOld(items, startDate);
      assert items[..n][1..] == items[1..][..n - 1];
    }
  }

  /** Every row of a page belongs to the keyword and its category, lies in the window and has no tag left in its title. */
  lemma {:induction false} ScanItemsRows(items: seq<Item>, keyword: string, category: string, startDate: int, endDate: int)
    ensures forall r :: r in ScanItems(items, keyword, category, startDate, endDate).rows ==>
      && r.keyword == keyword && r.category == category
      && startDate <= r.date <= endDate && NoTags(r.title)
  {
    if items != [] && items[0].postdate >= startDate {
      ScanItemsRows(items[1..], keyword, category, startDate, endDate);
      StripTagsRemovesAll(items[0].title);
    }
  }

  function Fetch(search: (string, int) -> Response, query: string, k: nat): Response
  {
    search(query, Cursor(k))
  }

  /** Whether the script asks for the next page after this one. */
  predicate Continues(resp: Response, keyword: string, category: string, startDate: int, endDate: int)
  {
    && resp.items.Some?
    && !ScanItems(resp.items.value, keyword, category, startDate, endDate).hitOld
    && DisplayOf(resp) >= PageSize
  }

  /** The pages of one keyword from the k-th cursor on: the rows kept and the number of requests made. */
  function ScanKeyword(search: (string, int) -> Response, query: string, keyword: string, category: string,
                       startDate: int, endDate: int, k: nat): (s: KeywordScan)
    requires k < MaxPages
    ensures 1 <= s.requests <= MaxPages - k
    decreases MaxPages - k
  {
    var resp := Fetch(search, query, k);
    if resp.items.None? then KeywordScan([], 1)
    else
      var page := ScanItems(resp.items.value, keyword, category, startDate, endDate);
      if !Continues(resp, keyword, category, startDate, endDate) || k + 1 == MaxPages then
        KeywordScan(page.rows, 1)
      else
        var rest := ScanKeyword(search, query, keyword, category, startDate, endDate, k + 1);
        KeywordScan(page.rows + rest.rows, 1 + rest.requests)
  }

  /** A keyword asks for the next page exactly when the current one had items,
      no post older than the window and a full display of 100, and stops at the
      tenth page at the latest. */
  lemma {:induction false} ScanKeywordRequests(search: (string, int) -> Response, query: string, keyword: string, category: string,
                                               startDate: int, endDate: int, k: nat)
    requires k < MaxPages
    ensures var n := ScanKeyword(search, query, keyword, category, startDate, endDate, k).requests;
      && (forall j: nat :: k <= j < k + n - 1 ==>
            Continues(Fetch(search, query, j), keyword, category, startDate, endDate))
      && (k + n == MaxPages || !Continues(Fetch(search, query, k + n - 1), keyword, category, startDate, endDate))
    decreases MaxPages - k
  {
    var s := ScanKeyword(search, query, keyword, category, startDate, endDate, k);
    if !Continues(Fetch(search, query, k), keyword, category, startDate, endDate) || k + 1 == MaxPages {
      assert s.requests == 1;
    } else {
      var rest := ScanKeyword(search, query, keyword, category, startDate, endDate, k + 1);
      ScanKeywordRequests(search, query, keyword, category, startDate, endDate, k + 1);
      assert s.requests == 1 + rest.requests;
    }
  }

  lemma {:induction false} ScanKeywordRows(search: (string, int) -> Response, query: string, keyword: string, category: string,
                                           startDate: int, endDate: int, k: nat)
    requires k < MaxPages
    ensures forall r :: r in ScanKeyword(search, query, keyword, category, startDate, endDate, k).rows ==>
      && r.keyword == keyword && r.category == category
      && startDate <= r.date <= endDate && NoTags(r.title)
    decreases MaxPages - k
  {
    var resp := Fetch(search, query, k);
    if resp.items.Some? {
      ScanItemsRows(resp.items.value, keyword, category, startDate, endDate);
      if Continues(resp, keyword, category, startDate, endDate) && k + 1 < MaxPages {
        ScanKeywordRows(search, query, keyword, category, startDate, endDate, k + 1);
      }
    }
  }

  /** The requests for the cursors of query from the first-th on. */
  function RequestLog(query: string, first: nat, n: nat): (log: seq<Request>)
    ensures |log| == n
  {
    seq(n, i requires 0 <= i < n => Request(query, Cursor(first + i)))
  }

  /** One more request extends the log at its end. */
  lemma RequestLogSnoc(query: string, first: nat, n: nat)
    ensures RequestLog(query, first, n + 1) == RequestLog(query, first, n) + [Request(query, Cursor(first + n))]
  {
    var a, b := RequestLog(query, first, n + 1), RequestLog(query, first, n) + [Request(query, Cursor(first + n))];
    assert forall i :: 0 <= i < n + 1 ==> a[i] == b[i];
  }

  /** Everything the loop over keywords produces: the rows of all keywords in
      keyword order, and every request made, in order. */
  function CollectAll(search: (string, int) -> Response, keywords: seq<string>, mapping: map<string, string>,
                      startDate: int, endDate: int): (c: Collected)
    requires forall q :: q in keywords ==> StripQuotes(q) in mapping
    ensures |c.log| <= MaxPages * |keywords|
  {
    if keywords == [] then Collected([], [])
    else
      var n := |keywords| - 1;
      var query := keywords[n];
      var prev := CollectAll(search, keywords[..n], mapping, startDate, endDate);
      var s := ScanKeyword(search, query, StripQuotes(query), mapping[StripQuotes(query)], startDate, endDate, 0);
      Collected(prev.rows + s.rows, prev.log + RequestLog(query, 0, s.requests))
  }

  /** What every collected row satisfies: its keyword is one of kw_order, its
      category is that keyword's, its date lies in the window and its title
      carries no tag. */
  predicate WellFormedRow(r: Row, keywords: seq<string>, mapping: map<string, string>, startDate: int, endDate: int)
  {
    && r.keyword in KeywordOrder(keywords)
    && r.keyword in mapping && r.category == mapping[r.keyword]
    && startDate <= r.date <= endDate
    && NoTags(r.title)
  }

  lemma KeywordOrderPrefix(keywords: seq<string>, n: nat)
    requires n <= |keywords|
    ensures forall w :: w in KeywordOrder(keywords[..n]) ==> w in KeywordOrder(keywords)
  {
    forall w | w in KeywordOrder(keywords[..n]) ensures w in KeywordOrder(keywords) {
      var i :| 0 <= i < n && KeywordOrder(keywords[..n])[i] == w;
      assert KeywordOrder(keywords)[i] == w;
    }
  }

  lemma {:induction false} CollectedRowsWellFormed(search: (string, int) -> Response, keywords: seq<string>,
                                                   mapping: map<string, string>, startDate: int, endDate: int)
    requires forall q :: q in keywords ==> StripQuotes(q) in mapping
    ensures forall r :: r in CollectAll(search, keywords, mapping, startDate, endDate).rows ==>
      WellFormedRow(r, keywords, mapping, startDate, endDate)
  {
    if keywords != [] {
      var n := |keywords| - 1;
      var query := keywords[n];
      var prev := CollectAll(search, keywords[..n], mapping, startDate, endDate);
      var s := ScanKeyword(search, query, StripQuotes(query), mapping[StripQuotes(query)], startDate, endDate, 0);
      CollectedRowsWellFormed(search, keywords[..n], mapping, startDate, endDate);
      ScanKeywordRows(search, query, StripQuotes(query), mapping[StripQuotes(query)], startDate, endDate, 0);
      KeywordOrderPrefix(keywords, n);
      assert KeywordOrder(keywords)[n] == StripQuotes(query);
      assert CollectAll(search, keywords, mapping, startDate, endDate).rows == prev.rows + s.rows;
    }
  }

  /** Every request asks for one of the keywords at one of the cursors 1, 101, ..., 901. */
  lemma {:induction false} CollectedRequests(search: (string, int) -> Response, keywords: seq<string>,
                                             mapping: map<string, string>, startDate: int, endDate: int)
    requires forall q :: q in keywords ==> StripQuotes(q) in mapping
    ensures forall q :: q in CollectAll(search, keywords, mapping, startDate, endDate).log ==>
      q.query in keywords && q.start % PageSize == 1 && 1 <= q.start <= Cursor(MaxPages - 1)
  {
    if keywords != [] {
      var n := |keywords| - 1;
      var query := keywords[n];
      var prev := CollectAll(search, keywords[..n], mapping, startDate, endDate);
      var s := ScanKeyword(search, query, StripQuotes(query), mapping[StripQuotes(query)], startDate, endDate, 0);
      var log := RequestLog(query, 0, s.requests);
      CollectedRequests(search, keywords[..n], mapping, startDate, endDate);
      assert CollectAll(search, keywords, mapping, startDate, endDate).log == prev.log + log;
      forall q | q in log ensures q.query in keywords && q.start % PageSize == 1 && 1 <= q.start <= Cursor(MaxPages - 1) {
        var i :| 0 <= i < |log| && log[i] == q;
        CursorShape(i);
      }
    }
  }

  /** The keyword's pages from the k-th cursor on; nothing once all cursors are used. */
  ghost function Remaining(search: (string, int) -> Response, query: string, keyword: string, category: string,
                           startDate: int, endDate: int, k: nat): KeywordScan
  {
    if k < MaxPages then ScanKeyword(search, query, keyword, category, startDate, endDate, k) else KeywordScan([], 0)
  }

  /** One page of a keyword: what is left from the k-th cursor on, told by the k-th response. */
  lemma ScanKeywordStep(search: (string, int) -> Response, query: string, keyword: string, category: string,
                        startDate: int, endDate: int, k: nat)
    requires k < MaxPages
    ensures var resp := Fetch(search, query, k);
      var s := Remaining(search, query, keyword, category, startDate, endDate, k);
      var next := Remaining(search, query, keyword, category, startDate, endDate, k + 1);
      && (resp.items.None? ==> s == KeywordScan([], 1))
      && (resp.items.Some? ==>
            var page := ScanItems(resp.items.value, keyword, category, startDate, endDate);
            if Continues(resp, keyword, category, startDate, endDate)
            then s == KeywordScan(page.rows + next.rows, 1 + next.requests)
            else s == KeywordScan(page.rows, 1))
  {
    var resp := Fetch(search, query, k);
    if resp.items.Some? && k + 1 == MaxPages {
      var page := ScanItems(resp.items.value, keyword, category, startDate, endDate);
      assert page.rows + [] == page.rows;
    }
  }

  /** The loop over one page's items (lines 43-55): appends the page's rows to
      detail and forces the cursor past the last one when a post is older than
      the window. */
  method ScanPage(detail: seq<Row>, items: seq<Item>, keyword: string, category: string,
                  startDate: int, endDate: int, start: int)
    returns (detail': seq<Row>, start': int)
    requires start <= LastStart
    ensures var page := ScanItems(items, keyword, category, startDate, endDate);
      && detail' == detail + page.rows
      && start' == (if page.hitOld then LastStart + 1 else start)
  {
    ghost var page := ScanItems(items, keyword, category, startDate, endDate);
    detail', start' := detail, start;
    var j := 0;
    while j < |items|
      invariant 0 <= j <= |items| && start' == start
      invariant detail' + ScanItems(items[j..], keyword, category, startDate, endDate).rows == detail + page.rows
      invariant ScanItems(items[j..], keyword, category, startDate, endDate).hitOld == page.hitOld
    {
      var item := items[j];
      if item.postdate < startDate {
        start' := LastStart + 1;
        break;
      }
      ghost var row := if item.postdate > endDate then [] else [MakeRow(keyword, category, item)];
      ScanItemsFrom(items, j, keyword, category, startDate, endDate);
      AppendAssoc(detail', row, ScanItems(items[j + 1..], keyword, category, startDate, endDate).rows);
      if item.postdate <= endDate {
        detail' := detail' + [MakeRow(keyword, category, item)];
      }
      j := j + 1;
    }
  }

  /** The scan from item j on: item j's row, if any, then the scan from j + 1 on. */
  lemma ScanItemsFrom(items: seq<Item>, j: nat, keyword: string, category: string, startDate: int, endDate: int)
    requires j < |items| && items[j].postdate >= startDate
    ensures var here, next := ScanItems(items[j..], keyword, category, startDate, endDate),
                              ScanItems(items[j + 1..], keyword, category, startDate, endDate);
      && here.hitOld == next.hitOld
      && here.rows == (if items[j].postdate > endDate then [] else [MakeRow(keyword, category, items[j])]) + next.rows
  {
    assert items[j..][1..] == items[j + 1..];
  }

  /** One pass of the keyword loop's body (lines 37-59): request the page at
      the k-th cursor, scan its items, and tell whether the keyword is done. */
  method FetchPage(detail: seq<Row>, log: seq<Request>, query: string, keyword: string, category: string,
                   startDate: int, endDate: int, search: (string, int) -> Response, start: int, ghost k: nat)
    returns (detail': seq<Row>, log': seq<Request>, start': int, done: bool)
    requires k < MaxPages && start == Cursor(k)
    ensures log' == log + [Request(query, start)]
    ensures var s := Remaining(search, query, keyword, category, startDate, endDate, k);
      var next := Remaining(search, query, keyword, category, startDate, endDate, k + 1);
      if done then detail' == detail + s.rows && s.requests == 1
      else && k + 1 <= MaxPages && start' == Cursor(k + 1)
           && detail' + next.rows == detail + s.rows && s.requests == 1 + next.requests
  {
    ScanKeywordStep(search, query, keyword, category, startDate, endDate, k);
    log' := log + [Request(query, start)];
    var resp := search(query, start);
    if resp.items.None? {
      return detail, log', start, true;
    }
    detail', start' := ScanPage(detail, resp.items.value, keyword, category, startDate, endDate, start);
    if DisplayOf(resp) < PageSize || start' >= LastStart {
      return detail', log', start', true;
    }
    start' := start' + PageSize;
    done := false;
  }

  /** The pages of one keyword (lines 35-59): requests cursor 1, 101, ... until
      a page lacks items, is short, holds a post older than the window, or the
      cursor passes 1000. */
  method ScanKeywordPages(detail: seq<Row>, query: string, keyword: string, category: string,
                          startDate: int, endDate: int, search: (string, int) -> Response)
    returns (detail': seq<Row>, requests: seq<Request>)
    ensures var s := ScanKeyword(search, query, keyword, category, startDate, endDate, 0);
      && detail' == detail + s.rows
      && requests == RequestLog(query, 0, s.requests)
  {
    ghost var goal := ScanKeyword(search, query, keyword, category, startDate, endDate, 0);
    detail', requests := detail, [];
    var start := 1;
    ghost var k: nat := 0;
    ghost var pending := goal;
    while start <= LastStart
      invariant k <= MaxPages && start == Cursor(k)
      invariant pending == Remaining(search, query, keyword, category, startDate, endDate, k)
      invariant detail' + pending.rows == detail + goal.rows
      invariant requests == RequestLog(query, 0, k) && goal.requests == k + pending.requests
      decreases MaxPages - k
    {
      ghost var next := Remaining(search, query, keyword, category, startDate, endDate, k + 1);
      RequestLogSnoc(query, 0, k);
      var done;
      detail', requests, start, done := FetchPage(detail', requests, query, keyword, category, startDate, endDate, search, start, k);
      if done {
        break;
      }
      k := k + 1;
      pending := next;
    }
  }

  /** The collection loop, lines 32-59. */
  method Collect(keywords: seq<string>, mapping: map<string, string>, startDate: int, endDate: int,
                 search: (string, int) -> Response)
    returns (detail: seq<Row>, log: seq<Request>)
    requires forall q :: q in keywords ==> StripQuotes(q) in mapping
    ensures Collected(detail, log) == CollectAll(search, keywords, mapping, startDate, endDate)
  {
    detail, log := [], [];
    for i := 0 to |keywords|
      invariant Collected(detail, log) == CollectAll(search, keywords[..i], mapping, startDate, endDate)
    {
      var query := keywords[i];
      assert keywords[..i + 1][..i] == keywords[..i];
      var requests;
      detail, requests := ScanKeywordPages(detail, query, StripQuotes(query), mapping[StripQuotes(query)], startDate, endDate, search);
      log := log + requests;
    }
    assert keywords[..|keywords|] == keywords;
  }
}
