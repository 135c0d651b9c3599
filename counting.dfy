/** Grouping, counting and ordering over sequences: the parts of pandas'
    groupby().size(), collections.Counter and a stable descending sort that
    the report is built from. */
module Counting {

  /** The elements of xs whose key is k, in their original order. */
  function Filter<T, K(==)>(xs: seq<T>, key: T -> K, k: K): (r: seq<T>)
    ensures |r| <= |xs|
    ensures forall x :: x in r ==> x in xs && key(x) == k
  {
    if xs == [] then []
    else (if key(xs[0]) == k then [xs[0]] else []) + Filter(xs[1..], key, k)
  }

  lemma {:induction false} FilterConcat<T, K>(a: seq<T>, b: seq<T>, key: T -> K, k: K)
    ensures Filter(a + b, key, k) == Filter(a, key, k) + Filter(b, key, k)
  {
    if a == [] {
      assert a + b == b;
    } else {
      assert (a + b)[1..] == a[1..] + b;
      FilterConcat(a[1..], b, key, k);
      AppendAssoc(if key(a[0]) == k then [a[0]] else [], Filter(a[1..], key, k), Filter(b, key, k));
    }
  }

  /** A non-empty sequence is its front followed by its last element. */
  lemma FrontLast<T>(s: seq<T>)
    requires s != []
    ensures s == s[..|s| - 1] + [s[|s| - 1]]
  {
  }

  /** Appending one element leaves the front as it was. */
  lemma SnocFront<T>(xs: seq<T>, x: T)
    ensures (xs + [x])[..|xs|] == xs && (xs + [x])[|xs|] == x
  {
  }

  /** The first i + 1 elements are the first i and then element i. */
  lemma TakeSnoc<T>(xs: seq<T>, i: nat)
    requires i < |xs|
    ensures xs[..i + 1] == xs[..i] + [xs[i]]
  {
  }

  lemma AppendAssoc<T>(a: seq<T>, b: seq<T>, c: seq<T>)
    ensures (a + b) + c == a + (b + c)
  {
  }

  /** Filter keeps every element whose key matches. */
  lemma {:induction false} FilterKeeps<T, K>(xs: seq<T>, key: T -> K, x: T)
    requires x in xs
    ensures x in Filter(xs, key, key(x))
  {
    if xs[0] != x {
      FilterKeeps(xs[1..], key, x);
    }
  }

  lemma {:induction false} FilterEmpty<T, K>(xs: seq<T>, key: T -> K, k: K)
    requires forall x :: x in xs ==> key(x) != k
    ensures Filter(xs, key, k) == []
  {
    if xs != [] {
      FilterEmpty(xs[1..], key, k);
    }
  }

  /** Filtering on one key and then another is filtering on the pair of keys. */
  lemma {:induction false} FilterPair<T, K, L>(xs: seq<T>, f: T -> K, g: T -> L, h: T -> (K, L), a: K, b: L)
    requires forall x :: h(x) == (f(x), g(x))
    ensures Filter(Filter(xs, f, a), g, b) == Filter(xs, h, (a, b))
  {
    if xs != [] {
      var x, rest := xs[0], xs[1..];
      FilterPair(rest, f, g, h, a, b);
      var inner := Filter(rest, f, a);
      if f(x) == a {
        assert Filter(xs, f, a) == [x] + inner;
        FilterConcat([x], inner, g, b);
        assert Filter([x], g, b) == Filter([x], h, (a, b)) by {
          assert h(x) == (a, g(x));
        }
      } else {
        assert Filter(xs, f, a) == inner;
        assert h(x) != (a, b);
      }
    }
  }

  /** Group sizes: how many elements of xs fall under each key of ks, in the order of ks. */
  function Sizes<T, K(==)>(xs: seq<T>, key: T -> K, ks: seq<K>): (r: seq<nat>)
    ensures |r| == |ks|
  {
    if ks == [] then [] else [|Filter(xs, key, ks[0])|] + Sizes(xs, key, ks[1..])
  }

  lemma {:induction false} SizesAt<T, K>(xs: seq<T>, key: T -> K, ks: seq<K>, i: nat)
    requires i < |ks|
    ensures Sizes(xs, key, ks)[i] == |Filter(xs, key, ks[i])|
  {
    if i > 0 {
      SizesAt(xs, key, ks[1..], i - 1);
    }
  }

  function Sum(ns: seq<nat>): nat
  {
    if ns == [] then 0 else ns[0] + Sum(ns[1..])
  }

  lemma {:induction false} SumConcat(a: seq<nat>, b: seq<nat>)
    ensures Sum(a + b) == Sum(a) + Sum(b)
  {
    if a == [] {
      assert a + b == b;
    } else {
      assert (a + b)[1..] == a[1..] + b;
      SumConcat(a[1..], b);
    }
  }

  /** Number of occurrences of x in xs. */
  function Count<T(==)>(xs: seq<T>, x: T): nat
  {
    if xs == [] then 0 else (if xs[0] == x then 1 else 0) + Count(xs[1..], x)
  }

  lemma {:induction false} CountConcat<T>(a: seq<T>, b: seq<T>, x: T)
    ensures Count(a + b, x) == Count(a, x) + Count(b, x)
  {
    if a == [] {
      assert a + b == b;
    } else {
      assert (a + b)[1..] == a[1..] + b;
      CountConcat(a[1..], b, x);
    }
  }

  lemma {:induction false} CountPositive<T>(xs: seq<T>, x: T)
    ensures Count(xs, x) > 0 <==> x in xs
  {
    if xs != [] {
      CountPositive(xs[1..], x);
    }
  }

  predicate Distinct<T(==)>(xs: seq<T>)
  {
    forall i, j :: 0 <= i < j < |xs| ==> xs[i] != xs[j]
  }

  /** The distinct elements of xs in order of first occurrence. */
  function FirstOccurrences<T(==)>(xs: seq<T>): (r: seq<T>)
    ensures Distinct(r)
    ensures forall i :: 0 <= i < |r| ==> r[i] in xs
    ensures forall i :: 0 <= i < |xs| ==> xs[i] in r
  {
    if xs == [] then []
    else
      var n := |xs| - 1;
      var p := FirstOccurrences(xs[..n]);
      assert xs == xs[..n] + [xs[n]];
      if xs[n] in p then p
      else
        assert forall i :: 0 <= i < |p| ==> p[i] != xs[n];
        p + [xs[n]]
  }

  /** One more element: it joins the first occurrences if new, and its count goes up by one. */
  lemma AppendOne<T>(xs: seq<T>, x: T)
    ensures FirstOccurrences(xs + [x]) == if x in xs then FirstOccurrences(xs) else FirstOccurrences(xs) + [x]
    ensures forall y :: Count(xs + [x], y) == Count(xs, y) + (if y == x then 1 else 0)
  {
    FirstOccurrencesSnoc(xs, x);
    forall y ensures Count(xs + [x], y) == Count(xs, y) + (if y == x then 1 else 0) {
      CountConcat(xs, [x], y);
    }
  }

  lemma FirstOccurrencesSnoc<T>(xs: seq<T>, x: T)
    ensures FirstOccurrences(xs + [x]) == if x in xs then FirstOccurrences(xs) else FirstOccurrences(xs) + [x]
  {
    assert (xs + [x])[..|xs|] == xs;
  }


  /** Position of the first x in xs, or |xs| when x is absent. */
  function IndexOf<T(==)>(xs: seq<T>, x: T): (i: nat)
    ensures i <= |xs|
    ensures i < |xs| <==> x in xs
    ensures i < |xs| ==> xs[i] == x
    ensures forall k :: 0 <= k < i ==> xs[k] != x
  {
    if xs == [] then 0 else if xs[0] == x then 0 else 1 + IndexOf(xs[1..], x)
  }

  /** The first x of a is also the first x of a + b. */
  lemma {:induction false} IndexOfPrefix<T>(a: seq<T>, b: seq<T>, x: T)
    requires x in a
    ensures IndexOf(a + b, x) == IndexOf(a, x)
  {
    if a[0] != x {
      assert (a + b)[1..] == a[1..] + b;
      IndexOfPrefix(a[1..], b, x);
    }
  }

  /** The first occurrences come in order of first sight. */
  lemma {:induction false} FirstOccurrencesOrdered<T>(xs: seq<T>)
    ensures var r := FirstOccurrences(xs);
      forall i, j :: 0 <= i < j < |r| ==> IndexOf(xs, r[i]) < IndexOf(xs, r[j])
  {
    if xs != [] {
      var n := |xs| - 1;
      var a, x := xs[..n], xs[n];
      var p := FirstOccurrences(a);
      FirstOccurrencesOrdered(a);
      FrontLast(xs);
      FirstOccurrencesSnoc(a, x);
      forall i | 0 <= i < |p|
        ensures IndexOf(xs, p[i]) == IndexOf(a, p[i]) < n
      {
        IndexOfPrefix(a, [x], p[i]);
      }
      if x !in a {
        assert IndexOf(xs, x) == n by {
          assert forall k :: 0 <= k < n ==> xs[k] != x;
        }
      }
    }
  }

  lemma IndexOfDistinct<T>(xs: seq<T>, i: nat)
    requires Distinct(xs) && i < |xs|
    ensures IndexOf(xs, xs[i]) == i
  {
  }

  /** In a sequence without repetitions every member occurs exactly once. */
  lemma {:induction false} DistinctCountOne<T>(xs: seq<T>, x: T)
    requires Distinct(xs) && x in xs
    ensures Count(xs, x) == 1
  {
    if xs[0] == x {
      assert x !in xs[1..];
      CountPositive(xs[1..], x);
    } else {
      DistinctCountOne(xs[1..], x);
    }
  }

  lemma {:induction false} SizesOfNothing<T, K>(key: T -> K, ks: seq<K>)
    ensures Sum(Sizes([], key, ks)) == 0
  {
    if ks != [] {
      SizesOfNothing(key, ks[1..]);
    }
  }

  /** Adding one element to xs adds one to the group of its key, once per time that key is listed. */
  lemma {:induction false} SizesCons<T, K>(x: T, xs: seq<T>, key: T -> K, ks: seq<K>)
    ensures Sum(Sizes([x] + xs, key, ks)) == Count(ks, key(x)) + Sum(Sizes(xs, key, ks))
  {
    if ks != [] {
      assert ([x] + xs)[1..] == xs;
      SizesCons(x, xs, key, ks[1..]);
    }
  }

  /** Group sizes over keys that are listed once each and cover every element
      add up to the number of elements: no element is lost or counted twice. */
  lemma {:induction false} Partition<T, K>(xs: seq<T>, key: T -> K, ks: seq<K>)
    requires Distinct(ks)
    requires forall x :: x in xs ==> key(x) in ks
    ensures Sum(Sizes(xs, key, ks)) == |xs|
  {
    if xs == [] {
      SizesOfNothing(key, ks);
    } else {
      assert xs == [xs[0]] + xs[1..];
      SizesCons(xs[0], xs[1..], key, ks);
      DistinctCountOne(ks, key(xs[0]));
      Partition(xs[1..], key, ks);
    }
  }

  predicate SortedDesc<T>(s: seq<T>, key: T -> int)
  {
    forall i, j :: 0 <= i < j < |s| ==> key(s[i]) >= key(s[j])
  }

  /** Inserts x after every element whose key is at least key(x). */
  function InsertDesc<T>(s: seq<T>, x: T, key: T -> int): (r: seq<T>)
    ensures |r| == |s| + 1
  {
    if s == [] then [x]
    else if key(s[0]) >= key(x) then [s[0]] + InsertDesc(s[1..], x, key)
    else [x] + s
  }

  /** Stable sort by key, largest first (insertion sort). */
  function SortDesc<T>(xs: seq<T>, key: T -> int): (r: seq<T>)
    ensures |r| == |xs|
  {
    if xs == [] then [] else InsertDesc(SortDesc(xs[..|xs| - 1], key), xs[|xs| - 1], key)
  }

  lemma {:induction false} InsertDescPermutes<T>(s: seq<T>, x: T, key: T -> int)
    ensures multiset(InsertDesc(s, x, key)) == multiset(s) + multiset{x}
  {
    if s != [] && key(s[0]) >= key(x) {
      InsertDescPermutes(s[1..], x, key);
      assert s == [s[0]] + s[1..];
    }
  }

  lemma {:induction false} InsertDescMembers<T>(s: seq<T>, x: T, key: T -> int)
    ensures forall y :: y in InsertDesc(s, x, key) ==> y == x || y in s
  {
    if s != [] && key(s[0]) >= key(x) {
      InsertDescMembers(s[1..], x, key);
    }
  }

  lemma {:induction false} InsertDescSorted<T>(s: seq<T>, x: T, key: T -> int)
    requires SortedDesc(s, key)
    ensures SortedDesc(InsertDesc(s, x, key), key)
  {
    if s == [] {
    } else if key(s[0]) >= key(x) {
      var t := InsertDesc(s[1..], x, key);
      InsertDescSorted(s[1..], x, key);
      InsertDescMembers(s[1..], x, key);
      assert forall y :: y in s[1..] ==> key(s[0]) >= key(y);
      assert forall k :: 0 <= k < |t| ==> key(s[0]) >= key(t[k]);
      assert InsertDesc(s, x, key) == [s[0]] + t;
    } else {
      assert InsertDesc(s, x, key) == [x] + s;
    }
  }

  lemma FilterCons<T, K>(y: T, r: seq<T>, key: T -> K, k: K)
    ensures Filter([y] + r, key, k) == (if key(y) == k then [y] else []) + Filter(r, key, k)
  {
    assert ([y] + r)[1..] == r;
  }

  lemma {:induction false} InsertDescStable<T>(s: seq<T>, x: T, key: T -> int, v: int)
    requires SortedDesc(s, key)
    ensures Filter(InsertDesc(s, x, key), key, v) == Filter(s, key, v) + (if key(x) == v then [x] else [])
  {
    if s == [] {
      assert Filter([x], key, v) == (if key(x) == v then [x] else []);
    } else if key(s[0]) >= key(x) {
      InsertDescStable(s[1..], x, key, v);
      InsertDescStableBehind(s, x, key, v);
    } else {
      if key(x) == v {
        assert forall y :: y in s ==> key(y) != v;
        FilterEmpty(s, key, v);
      }
      InsertDescStableFront(s, x, key, v);
    }
  }

  /** InsertDescStable when x goes past the first element. */
  lemma InsertDescStableBehind<T>(s: seq<T>, x: T, key: T -> int, v: int)
    requires s != [] && key(s[0]) >= key(x)
    requires Filter(InsertDesc(s[1..], x, key), key, v) == Filter(s[1..], key, v) + (if key(x) == v then [x] else [])
    ensures Filter(InsertDesc(s, x, key), key, v) == Filter(s, key, v) + (if key(x) == v then [x] else [])
  {
    var h: seq<T> := if key(s[0]) == v then [s[0]] else [];
    var xv: seq<T> := if key(x) == v then [x] else [];
    calc {
      Filter(InsertDesc(s, x, key), key, v);
      Filter([s[0]] + InsertDesc(s[1..], x, key), key, v);
      { FilterCons(s[0], InsertDesc(s[1..], x, key), key, v); }
      h + Filter(InsertDesc(s[1..], x, key), key, v);
      h + (Filter(s[1..], key, v) + xv);
      { AppendAssoc(h, Filter(s[1..], key, v), xv); }
      (h + Filter(s[1..], key, v)) + xv;
      Filter(s, key, v) + xv;
    }
  }

  /** InsertDescStable when x goes in front. */
  lemma InsertDescStableFront<T>(s: seq<T>, x: T, key: T -> int, v: int)
    requires s != [] && key(s[0]) < key(x)
    requires key(x) == v ==> Filter(s, key, v) == []
    ensures Filter(InsertDesc(s, x, key), key, v) == Filter(s, key, v) + (if key(x) == v then [x] else [])
  {
    FilterCons(x, s, key, v);
    if key(x) == v {
      assert [x] + [] == [] + [x];
    } else {
      assert [] + Filter(s, key, v) == Filter(s, key, v) + [];
    }
  }

  /** SortDesc orders by key, largest first, rearranges without adding or
      dropping anything, and keeps elements with equal keys in input order. */
  lemma {:induction false} SortDescSpec<T>(xs: seq<T>, key: T -> int)
    ensures SortedDesc(SortDesc(xs, key), key)
    ensures multiset(SortDesc(xs, key)) == multiset(xs)
    ensures forall v :: Filter(SortDesc(xs, key), key, v) == Filter(xs, key, v)
  {
    if xs != [] {
      var n := |xs| - 1;
      SortDescSpec(xs[..n], key);
      InsertDescSorted(SortDesc(xs[..n], key), xs[n], key);
      InsertDescPermutes(SortDesc(xs[..n], key), xs[n], key);
      assert xs == xs[..n] + [xs[n]];
      forall v ensures Filter(SortDesc(xs, key), key, v) == Filter(xs, key, v) {
        InsertDescStable(SortDesc(xs[..n], key), xs[n], key, v);
        FilterConcat(xs[..n], [xs[n]], key, v);
        FilterCons(xs[n], [], key, v);
        assert [xs[n]] + [] == [xs[n]];
      }
    }
  }
}
