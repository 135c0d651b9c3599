/** Word frequencies over the titles (blog_bot.py, lines 90-109): the
    part-of-speech filter on the tagger's output, one counter for the
    company's own titles and one for everyone else's, the twenty most common
    words of each, and the side-by-side table padded to equal length. */
module WordFreq {
  import opened Counting
  import opened Collector

  /** One (word, part of speech) pair from the morphological tagger. */
  datatype Token = Token(word: string, pos: string)

  /** A counter line: a word and how often it was seen. */
  datatype Entry = Entry(word: string, count: nat)

  /** A line of the side-by-side table: own word and count, then competitor word and count. */
  datatype FreqLine = FreqLine(ownWord: string, ownCount: nat, otherWord: string, otherCount: nat)

  /** Words left out of the frequencies: the brand names themselves. */
  const Stop: set<string> := {"이즐", "ezl", "티머니", "캐시비"}

  /** The category whose titles feed the first counter. */
  const Own := "자사"

  /** How many words each side of the table keeps. */
  const TopCount := 20

  predicate Kept(t: Token)
  {
    (t.pos == "Noun" || t.pos == "Adjective") && |t.word| > 1 && t.word !in Stop
  }

  function WordOf(t: Token): string { t.word }

  /** The words of the kept tokens, in tagger order. */
  function Words(tags: seq<Token>): (ws: seq<string>)
    ensures |ws| <= |tags|
  {
    if tags == [] then [] else (if Kept(tags[0]) then [tags[0].word] else []) + Words(tags[1..])
  }

  /** A word is counted exactly as often as the tagger returns it as a kept
      token: a noun or adjective, longer than one character, not a stop word. */
  lemma {:induction false} WordsCount(tags: seq<Token>, w: string)
    ensures Count(Words(tags), w) == |Filter(Filter(tags, Kept, true), WordOf, w)|
  {
    if tags != [] {
      var head := if Kept(tags[0]) then [tags[0].word] else [];
      WordsCount(tags[1..], w);
      CountConcat(head, Words(tags[1..]), w);
      if Kept(tags[0]) {
        assert Filter(tags, Kept, true) == [tags[0]] + Filter(tags[1..], Kept, true);
        FilterConcat([tags[0]], Filter(tags[1..], Kept, true), WordOf, w);
        assert [tags[0]][1..] == [];
        assert [tags[0].word][1..] == [];
      } else {
        assert Filter(tags, Kept, true) == Filter(tags[1..], Kept, true);
      }
    }
  }

  /** Everything counted passes the filter. */
  lemma {:induction false} WordsKept(tags: seq<Token>)
    ensures forall w :: w in Words(tags) ==> |w| > 1 && w !in Stop
  {
    if tags != [] {
      WordsKept(tags[1..]);
    }
  }

  /** Every word fed to one side's counter: the kept words of the titles of the
      rows on that side (own category, or anything else), row by row. */
  function SideWords(rows: seq<Row>, tagger: string -> seq<Token>, own: bool): seq<string>
  {
    if rows == [] then []
    else
      var n := |rows| - 1;
      SideWords(rows[..n], tagger, own) + (if (rows[n].category == Own) == own then Words(tagger(rows[n].title)) else [])
  }

  /** Whether a row's titles feed the own-brand counter. */
  function IsOwn(r: Row): bool { r.category == Own }

  /** The kept words of every title, row after row. */
  function TitleWords(rows: seq<Row>, tagger: string -> seq<Token>): seq<string>
  {
    if rows == [] then []
    else
      var n := |rows| - 1;
      TitleWords(rows[..n], tagger) + Words(tagger(rows[n].title))
  }

  /** A side's words are the words of exactly the rows of that side, in row order. */
  lemma {:induction false} SideWordsOfSide(rows: seq<Row>, tagger: string -> seq<Token>, own: bool)
    ensures SideWords(rows, tagger, own) == TitleWords(Filter(rows, IsOwn, own), tagger)
  {
    if rows != [] {
      var n := |rows| - 1;
      var x := rows[n];
      assert rows == rows[..n] + [x];
      SideWordsOfSide(rows[..n], tagger, own);
      FilterConcat(rows[..n], [x], IsOwn, own);
      var f := Filter(rows[..n], IsOwn, own);
      if IsOwn(x) == own {
        assert Filter([x], IsOwn, own) == [x];
        assert (f + [x])[..|f|] == f;
      } else {
        assert Filter([x], IsOwn, own) == [];
        assert f + [] == f;
      }
    }
  }

  /** Every kept word goes to exactly one of the two counters. */
  lemma {:induction false} SidesPartition(rows: seq<Row>, tagger: string -> seq<Token>)
    ensures multiset(SideWords(rows, tagger, true)) + multiset(SideWords(rows, tagger, false))
         == multiset(TitleWords(rows, tagger))
  {
    if rows != [] {
      SidesPartition(rows[..|rows| - 1], tagger);
    }
  }

  /** A counter's lines: each distinct word once, in order of first sight, with its count. */
  function Tally(fed: seq<string>, ws: seq<string>): (es: seq<Entry>)
    ensures |es| == |ws|
  {
    if ws == [] then [] else [Entry(ws[0], Count(fed, ws[0]))] + Tally(fed, ws[1..])
  }

  function Items(fed: seq<string>): seq<Entry>
  {
    Tally(fed, FirstOccurrences(fed))
  }

  lemma {:induction false} TallyAt(fed: seq<string>, ws: seq<string>, i: nat)
    requires i < |ws|
    ensures Tally(fed, ws)[i] == Entry(ws[i], Count(fed, ws[i]))
  {
    if i > 0 {
      TallyAt(fed, ws[1..], i - 1);
    }
  }

  function Total(es: seq<Entry>): nat
  {
    if es == [] then 0 else es[0].count + Total(es[1..])
  }

  /** The identity key: grouping words by Same groups equal words, so a word's
      count is the size of its Filter group. */
  function Same(w: string): string { w }

  lemma {:induction false} CountIsFilter(xs: seq<string>, w: string)
    ensures Count(xs, w) == |Filter(xs, Same, w)|
  {
    if xs != [] {
      CountIsFilter(xs[1..], w);
    }
  }

  lemma {:induction false} TallyTotal(fed: seq<string>, ws: seq<string>)
    ensures Total(Tally(fed, ws)) == Sum(Sizes(fed, Same, ws))
  {
    if ws != [] {
      TallyTotal(fed, ws[1..]);
      CountIsFilter(fed, ws[0]);
    }
  }

  /** The counter holds each word fed to it exactly once, with a positive
      count equal to its number of occurrences, and the counts add up to the
      number of words fed: nothing lost, nothing counted twice. */
  lemma ItemsSpec(fed: seq<string>)
    ensures var es := Items(fed);
      && (forall i :: 0 <= i < |es| ==> es[i].word in fed && es[i].count == Count(fed, es[i].word) && es[i].count > 0)
      && (forall w :: w in fed ==> exists i :: 0 <= i < |es| && es[i].word == w)
      && (forall i, j :: 0 <= i < j < |es| ==> es[i].word != es[j].word)
      && Total(es) == |fed|
  {
    var ws := FirstOccurrences(fed);
    var es := Items(fed);
    forall i | 0 <= i < |es| ensures es[i].word == ws[i] && es[i].count == Count(fed, ws[i]) {
      TallyAt(fed, ws, i);
    }
    forall i | 0 <= i < |es| ensures es[i].count > 0 {
      CountPositive(fed, ws[i]);
    }
    forall w | w in fed ensures exists i :: 0 <= i < |es| && es[i].word == w {
      var k :| 0 <= k < |fed| && fed[k] == w;
      var i :| 0 <= i < |ws| && ws[i] == w;
      assert es[i].word == w;
    }
    TallyTotal(fed, ws);
    forall x | x in fed ensures Same(x) in ws {
      var k :| 0 <= k < |fed| && fed[k] == x;
    }
    Partition(fed, Same, ws);
  }

  /** The count map after feeding fed, one word at a time. */
  function CountMap(fed: seq<string>): map<string, nat>
  {
    if fed == [] then map[]
    else
      var m := CountMap(fed[..|fed| - 1]);
      var w := fed[|fed| - 1];
      m[w := if w in m then m[w] + 1 else 1]
  }

  /** The count map holds exactly the words fed, each with its number of occurrences. */
  lemma {:induction false} CountMapSpec(fed: seq<string>)
    ensures forall w :: w in CountMap(fed) <==> w in fed
    ensures forall w :: w in CountMap(fed) ==> CountMap(fed)[w] == Count(fed, w)
  {
    if fed != [] {
      var n := |fed| - 1;
      var before, x := fed[..n], fed[n];
      FrontLast(fed);
      CountMapSpec(before);
      AppendOne(before, x);
      CountPositive(before, x);
    }
  }

  /** What a counter's state holds after being fed fed: the words in order of
      first arrival, and each word's number of occurrences. */
  ghost predicate Counts(keys: seq<string>, counts: map<string, nat>, fed: seq<string>)
  {
    keys == FirstOccurrences(fed) && counts == CountMap(fed)
  }

  /** Feeding one more word keeps the counter's state matched to what it was fed. */
  lemma CountsStep(keys: seq<string>, counts: map<string, nat>, fed: seq<string>, w: string)
    requires Counts(keys, counts, fed)
    ensures w in counts ==> Counts(keys, counts[w := counts[w] + 1], fed + [w])
    ensures w !in counts ==> Counts(keys + [w], counts[w := 1], fed + [w])
  {
    CountMapSpec(fed);
    CountMapSnoc(fed, w);
    FirstOccurrencesSnoc(fed, w);
  }

  lemma CountMapSnoc(fed: seq<string>, w: string)
    ensures var m := CountMap(fed); CountMap(fed + [w]) == m[w := if w in m then m[w] + 1 else 1]
  {
    SnocFront(fed, w);
  }

  /** The lines of the words ks with their counts in cs. */
  function EntriesOf(ks: seq<string>, cs: map<string, nat>): seq<Entry>
    requires forall i :: 0 <= i < |ks| ==> ks[i] in cs
  {
    if ks == [] then [] else [Entry(ks[0], cs[ks[0]])] + EntriesOf(ks[1..], cs)
  }

  lemma {:induction false} EntriesOfTally(ks: seq<string>, counts: map<string, nat>, fed: seq<string>)
    requires forall i :: 0 <= i < |ks| ==> ks[i] in counts && counts[ks[i]] == Count(fed, ks[i])
    ensures EntriesOf(ks, counts) == Tally(fed, ks)
  {
    if ks != [] {
      EntriesOfTally(ks[1..], counts, fed);
    }
  }

  /** A Counter: counts per word plus the order in which words first arrived,
      which decides how ties are listed. */
  class Counter {
    var keys: seq<string>
    var counts: map<string, nat>
    /** Every word fed so far, in order. */
    ghost var fed: seq<string>

    ghost predicate Valid()
      reads this
    {
      Counts(keys, counts, fed)
    }

    constructor ()
      ensures Valid() && fed == []
    {
      keys := [];
      counts := map[];
      fed := [];
    }

    /** One more occurrence of w: a new word goes to the end of the order. */
    method Add(w: string)
      requires Valid()
      modifies this
      ensures Valid() && fed == old(fed) + [w]
    {
      CountsStep(keys, counts, fed, w);
      if w in counts {
        counts := counts[w := counts[w] + 1];
      } else {
        keys := keys + [w];
        counts := counts[w := 1];
      }
      fed := fed + [w];
    }

    /** Counter.update(words): one more for each word, in order. */
    method Update(words: seq<string>)
      requires Valid()
      modifies this
      ensures Valid() && fed == old(fed) + words
    {
      for i := 0 to |words|
        invariant Valid() && fed == old(fed) + words[..i]
      {
        Add(words[i]);
        TakeSnoc(words, i);
        AppendAssoc(old(fed), words[..i], [words[i]]);
      }
      assert words[..|words|] == words;
    }

    /** The counter's lines in first-seen order. */
    function Lines(): (es: seq<Entry>)
      reads this
      requires Valid()
      ensures es == Items(fed)
    {
      CountMapSpec(fed);
      assert forall i :: 0 <= i < |keys| ==> keys[i] in fed;
      EntriesOfTally(keys, counts, fed);
      EntriesOf(keys, counts)
    }

    /** Counter.most_common(n). */
    function MostCommon(n: nat): (top: seq<Entry>)
      reads this
      requires Valid()
      ensures top == Top(Items(fed), n)
    {
      Top(Lines(), n)
    }
  }

  function CountKey(e: Entry): int { e.count }

  /** sorted(lines, by count, largest first)[:n]; Python's sort is stable. */
  function Top(es: seq<Entry>, n: nat): seq<Entry>
  {
    var sorted := SortDesc(es, CountKey);
    if n < |sorted| then sorted[..n] else sorted
  }

  lemma TopSplits(es: seq<Entry>, n: nat)
    ensures var sorted := SortDesc(es, CountKey);
      && sorted == Top(es, n) + sorted[|Top(es, n)|..]
      && |Top(es, n)| == (if n < |es| then n else |es|)
  {
  }

  /** most_common(n) keeps min(n, len) lines, largest count first, and every
      one of them comes from the counter. */
  lemma TopOrdered(es: seq<Entry>, n: nat)
    ensures var top := Top(es, n);
      && |top| == (if n < |es| then n else |es|)
      && (forall i, j :: 0 <= i < j < |top| ==> top[i].count >= top[j].count)
      && multiset(top) <= multiset(es)
  {
    var sorted := SortDesc(es, CountKey);
    SortDescSpec(es, CountKey);
    TopSplits(es, n);
    var top := Top(es, n);
    assert multiset(sorted) == multiset(top) + multiset(sorted[|top|..]);
    forall i, j | 0 <= i < j < |top| ensures top[i].count >= top[j].count {
      assert top[i] == sorted[i] && top[j] == sorted[j];
    }
  }

  /** A line left out of most_common(n) never has a larger count than a line kept. */
  lemma TopKeepsLargest(es: seq<Entry>, n: nat)
    ensures var top := Top(es, n);
      forall e :: e in es && e !in top ==> forall i :: 0 <= i < |top| ==> e.count <= top[i].count
  {
    var sorted := SortDesc(es, CountKey);
    SortDescSpec(es, CountKey);
    var top := Top(es, n);
    assert top == sorted[..|top|];
    forall e, i | e in es && e !in top && 0 <= i < |top| ensures e.count <= top[i].count {
      assert e in multiset(sorted);
      PrefixDominates(sorted, |top|, e, i);
    }
  }

  /** In a list sorted by count, largest first, anything outside a prefix
      counts no more than each entry of that prefix. */
  lemma PrefixDominates(sorted: seq<Entry>, m: nat, e: Entry, i: nat)
    requires SortedDesc(sorted, CountKey) && i < m <= |sorted| && e in sorted && e !in sorted[..m]
    ensures e.count <= sorted[i].count
  {
    var j :| 0 <= j < |sorted| && sorted[j] == e;
    assert forall k :: 0 <= k < m ==> sorted[..m][k] == sorted[k];
    assert j >= m;
  }


  /** Lines with equal counts keep their first-seen order: for every count,
      the kept lines with that count are a prefix of the counter's lines with it. */
  lemma TopStable(es: seq<Entry>, n: nat)
    ensures forall v :: Filter(Top(es, n), CountKey, v) <= Filter(es, CountKey, v)
  {
    var sorted := SortDesc(es, CountKey);
    SortDescSpec(es, CountKey);
    TopSplits(es, n);
    var top := Top(es, n);
    forall v ensures Filter(top, CountKey, v) <= Filter(es, CountKey, v) {
      FilterConcat(top, sorted[|top|..], CountKey, v);
    }
  }

  /** Pads with ('', 0) lines up to length len. */
  function Pad(top: seq<Entry>, len: nat): (p: seq<Entry>)
    ensures |p| == if len > |top| then len else |top|
  {
    if len > |top| then top + seq(len - |top|, _ => Entry("", 0)) else top
  }

  /** freq_side_df: both lists padded to the longer one's length, side by side. */
  function SideBySide(own: seq<Entry>, other: seq<Entry>): (t: seq<FreqLine>)
  {
    var len := if |own| > |other| then |own| else |other|;
    var a, b := Pad(own, len), Pad(other, len);
    seq(len, i requires 0 <= i < len => FreqLine(a[i].word, a[i].count, b[i].word, b[i].count))
  }

  /** The table is as long as the longer list; line i carries each list's
      i-th entry, or an empty word with count 0 where that list has ended. */
  lemma SideBySideSpec(own: seq<Entry>, other: seq<Entry>)
    ensures var t := SideBySide(own, other);
      && |t| == (if |own| > |other| then |own| else |other|)
      && (forall i :: 0 <= i < |t| ==>
            && (if i < |own| then t[i].ownWord == own[i].word && t[i].ownCount == own[i].count
                else t[i].ownWord == "" && t[i].ownCount == 0)
            && (if i < |other| then t[i].otherWord == other[i].word && t[i].otherCount == other[i].count
                else t[i].otherWord == "" && t[i].otherCount == 0))
  {
  }

  /** The loop over the detail rows: every title's kept words go to the own
      counter when the row's category is the company's own, to the other one
      otherwise. */
  method CountTitles(rows: seq<Row>, tagger: string -> seq<Token>) returns (own: Counter, other: Counter)
    ensures fresh(own) && fresh(other) && own != other
    ensures own.Valid() && own.fed == SideWords(rows, tagger, true)
    ensures other.Valid() && other.fed == SideWords(rows, tagger, false)
  {
    own := new Counter();
    other := new Counter();
    for i := 0 to |rows|
      invariant own != other
      invariant fresh(own) && fresh(other)
      invariant own.Valid() && other.Valid()
      invariant own.fed == SideWords(rows[..i], tagger, true)
      invariant other.fed == SideWords(rows[..i], tagger, false)
    {
      var row := rows[i];
      var tokens := Words(tagger(row.title));
      assert rows[..i + 1][..i] == rows[..i] && rows[..i + 1][i] == row;
      if row.category == Own {
        own.Update(tokens);
      } else {
        other.Update(tokens);
      }
    }
    assert rows[..|rows|] == rows;
  }

  /** The word-frequency step: count both sides, take each side's twenty
      most common words, pad the shorter list with ('', 0) and lay the two
      side by side. */
  method WordFrequency(rows: seq<Row>, tagger: string -> seq<Token>) returns (table: seq<FreqLine>)
    ensures table == SideBySide(Top(Items(SideWords(rows, tagger, true)), TopCount),
                                Top(Items(SideWords(rows, tagger, false)), TopCount))
  {
    var own, other := CountTitles(rows, tagger);
    var ownTop := own.MostCommon(TopCount);
    var otherTop := other.MostCommon(TopCount);
    ghost var a, b := ownTop, otherTop;
    var maxLen := if |ownTop| > |otherTop| then |ownTop| else |otherTop|;
    ownTop := ownTop + seq(maxLen - |ownTop|, _ => Entry("", 0));
    otherTop := otherTop + seq(maxLen - |otherTop|, _ => Entry("", 0));
    assert ownTop == Pad(a, maxLen) && otherTop == Pad(b, maxLen);
    table := seq(maxLen, i requires 0 <= i < maxLen =>
      FreqLine(ownTop[i].word, ownTop[i].count, otherTop[i].word, otherTop[i].count));
  }
}
