/**
 * The statistics page and the category facet of the search page: the
 * distinct categories, their sorted listing, the total number of
 * characters, and the per-category histogram with its ranking by count.
 * All categories are read with the default for a record lacking one.
 */
module Statistics {
  import opened Articles
  import opened TitleOrder

  /** The set of categories the page reads from the store: `set(v.get("category", "未分類") ...)`. */
  function Categories(m: Store): set<string>
  {
    set t | t in m :: CategoryOf(m[t])
  }

  /** There are never more distinct categories than articles, and at least one when there is an article. */
  lemma {:induction false} CategoryCountBounds(m: Store)
    ensures |Categories(m)| <= |m|
    ensures |m| > 0 ==> |Categories(m)| >= 1
    decreases |m|
  {
    if |m| > 0 {
      var t :| t in m;
      var rest := m - {t};
      assert rest.Keys == m.Keys - {t};
      CategoryCountBounds(rest);
      assert Categories(m) <= Categories(rest) + {CategoryOf(m[t])} by {
        forall c | c in Categories(m)
          ensures c in Categories(rest) + {CategoryOf(m[t])}
        {
          var u :| u in m && CategoryOf(m[u]) == c;
          if u != t {
            assert u in rest;
          }
        }
      }
      assert CategoryOf(m[t]) in Categories(m);
      CardinalityOfSubset(Categories(m), Categories(rest) + {CategoryOf(m[t])});
    }
  }

  lemma CardinalityOfSubset(a: set<string>, b: set<string>)
    requires a <= b
    ensures |a| <= |b|
  {
    assert b == a + (b - a);
  }

  /** The category facet: `sorted(set(...))`, every category once, ascending. */
  ghost function CategoryFacet(m: Store): (r: seq<string>)
    ensures |r| == |Categories(m)|
    ensures forall c :: c in r <==> exists t :: t in m && CategoryOf(m[t]) == c
    ensures Ascending(r)
  {
    Sorted(Categories(m))
  }

  /** Sum of the lengths of the given records' bodies, in any order. */
  ghost function TotalChars(m: Store): nat
    decreases |m|
  {
    if m == map[] then 0
    else
      var t :| t in m;
      assert (m - {t}).Keys == m.Keys - {t};
      |ContentOf(m[t])| + TotalChars(m - {t})
  }

  /** The character total does not depend on the order of summation: any record can be taken out first. */
  lemma {:induction false} TotalCharsRemove(m: Store, t: string)
    requires t in m
    ensures TotalChars(m) == |ContentOf(m[t])| + TotalChars(m - {t})
    decreases |m|
  {
    var u :| u in m && TotalChars(m) == |ContentOf(m[u])| + TotalChars(m - {u});
    if u != t {
      assert (m - {u}).Keys == m.Keys - {u};
      assert (m - {t}).Keys == m.Keys - {t};
      TotalCharsRemove(m - {u}, t);
      TotalCharsRemove(m - {t}, u);
      assert m - {u} - {t} == m - {t} - {u};
    }
  }

  /** The titles among `keys` whose record reads as category `c`. */
  function TitlesIn(m: Store, keys: set<string>, c: string): set<string>
  {
    set t | t in keys && t in m && CategoryOf(m[t]) == c
  }

  /** The categories of the records among `keys`. */
  function CategoriesOver(m: Store, keys: set<string>): set<string>
  {
    set t | t in keys && t in m :: CategoryOf(m[t])
  }

  /** The `category_count` dict after the records among `keys` have been counted. */
  function Tally(m: Store, keys: set<string>): map<string, nat>
  {
    map c | c in CategoriesOver(m, keys) :: |TitlesIn(m, keys, c)|
  }

  /** The histogram of the whole store: for each category read, the number of articles in it. */
  function Histogram(m: Store): (h: map<string, nat>)
    ensures h.Keys == Categories(m)
    ensures forall c :: c in h ==> h[c] >= 1
  {
    var h := Tally(m, m.Keys);
    assert forall c :: c in h ==> h[c] >= 1 by {
      forall c | c in h
        ensures h[c] >= 1
      {
        var t :| t in m && CategoryOf(m[t]) == c;
        assert t in TitlesIn(m, m.Keys, c);
      }
    }
    h
  }

  lemma CategoriesOverStep(m: Store, done: set<string>, t: string)
    requires t in m
    ensures CategoriesOver(m, done + {t}) == CategoriesOver(m, done) + {CategoryOf(m[t])}
  {
  }

  lemma TitlesInStep(m: Store, done: set<string>, t: string, d: string)
    requires t in m && t !in done
    ensures d == CategoryOf(m[t]) ==> TitlesIn(m, done + {t}, d) == TitlesIn(m, done, d) + {t}
    ensures d != CategoryOf(m[t]) ==> TitlesIn(m, done + {t}, d) == TitlesIn(m, done, d)
    ensures d !in CategoriesOver(m, done) ==> TitlesIn(m, done, d) == {}
  {
  }

  /** Counting one more record adds one to its category and leaves the other counts alone. */
  lemma TallyStep(m: Store, done: set<string>, t: string)
    requires t in m && t !in done
    ensures var c := CategoryOf(m[t]);
            var h := Tally(m, done);
            Tally(m, done + {t}) == h[c := (if c in h then h[c] else 0) + 1]
  {
    var c := CategoryOf(m[t]);
    var h := Tally(m, done);
    var h' := Tally(m, done + {t});
    var expected := h[c := (if c in h then h[c] else 0) + 1];
    CategoriesOverStep(m, done, t);
    assert h'.Keys == expected.Keys;
    forall d | d in h'
      ensures h'[d] == expected[d]
    {
      TitlesInStep(m, done, t, d);
    }
  }

  /** The sum of the counts of a ranking. */
  function CountSum(r: seq<(string, nat)>): nat
  {
    if r == [] then 0 else r[0].1 + CountSum(r[1..])
  }

  /** The categories named in a ranking. */
  function Named(r: seq<(string, nat)>): set<string>
  {
    set p | p in r :: p.0
  }

  /** The articles whose category reads as one of `cs`. */
  function ArticlesIn(m: Store, cs: set<string>): set<string>
  {
    set t | t in m && CategoryOf(m[t]) in cs
  }

  lemma NamedCons(r: seq<(string, nat)>)
    requires |r| > 0
    requires forall j :: 0 < j < |r| ==> r[0].0 != r[j].0
    ensures Named(r) == {r[0].0} + Named(r[1..])
    ensures r[0].0 !in Named(r[1..])
  {
  }

  lemma ArticlesInSplit(m: Store, c: string, cs: set<string>)
    requires c !in cs
    ensures ArticlesIn(m, {c} + cs) == TitlesIn(m, m.Keys, c) + ArticlesIn(m, cs)
    ensures TitlesIn(m, m.Keys, c) * ArticlesIn(m, cs) == {}
  {
  }

  /** Counts of distinct categories add up to the number of articles in those categories. */
  lemma {:induction false} CountSumIsArticles(m: Store, r: seq<(string, nat)>)
    requires forall i :: 0 <= i < |r| ==> r[i].1 == |TitlesIn(m, m.Keys, r[i].0)|
    requires forall i, j :: 0 <= i < j < |r| ==> r[i].0 != r[j].0
    ensures CountSum(r) == |ArticlesIn(m, Named(r))|
  {
    if r == [] {
      assert ArticlesIn(m, Named(r)) == {};
    } else {
      CountSumIsArticles(m, r[1..]);
      NamedCons(r);
      ArticlesInSplit(m, r[0].0, Named(r[1..]));
    }
  }

  ghost predicate IsLargest(h: map<string, nat>, c: string)
  {
    c in h && forall d :: d in h ==> h[d] <= h[c]
  }

  lemma {:induction false} LargestExists(h: map<string, nat>)
    requires h != map[]
    ensures exists c :: IsLargest(h, c)
    decreases |h|
  {
    var x :| x in h;
    var rest := h - {x};
    assert rest.Keys == h.Keys - {x};
    if rest.Keys == {} {
      assert h.Keys == {x};
      assert IsLargest(h, x);
    } else {
      LargestExists(rest);
      var c :| IsLargest(rest, c);
      forall d | d in h && d != x
        ensures h[d] <= h[c]
      {
        assert d in rest && rest[d] == h[d];
      }
      if h[x] <= h[c] {
        assert IsLargest(h, c);
      } else {
        assert IsLargest(h, x);
      }
    }
  }

  /** Every entry of `r` is an entry of `h`. */
  ghost predicate EntriesOf(h: map<string, nat>, r: seq<(string, nat)>)
  {
    forall i :: 0 <= i < |r| ==> r[i].0 in h && r[i].1 == h[r[i].0]
  }

  /** Every category of `h` is named in `r`. */
  ghost predicate Covers(h: map<string, nat>, r: seq<(string, nat)>)
  {
    forall c :: c in h ==> exists i :: 0 <= i < |r| && r[i].0 == c
  }

  /** No category is named twice and the counts never increase. */
  ghost predicate DistinctNonIncreasing(r: seq<(string, nat)>)
  {
    && (forall i, j :: 0 <= i < j < |r| ==> r[i].0 != r[j].0)
    && (forall i, j :: 0 <= i < j < |r| ==> r[i].1 >= r[j].1)
  }

  /** `r` lists the entries of `h`, each category once, by non-increasing count. */
  ghost predicate RanksByCount(h: map<string, nat>, r: seq<(string, nat)>)
  {
    |r| == |h| && EntriesOf(h, r) && Covers(h, r) && DistinctNonIncreasing(r)
  }

  lemma EntriesOfCons(h: map<string, nat>, c: string, tail: seq<(string, nat)>)
    requires c in h && EntriesOf(h - {c}, tail)
    ensures EntriesOf(h, [(c, h[c])] + tail)
  {
  }

  lemma CoversCons(h: map<string, nat>, c: string, tail: seq<(string, nat)>)
    requires c in h && Covers(h - {c}, tail)
    ensures Covers(h, [(c, h[c])] + tail)
  {
    var r := [(c, h[c])] + tail;
    forall d | d in h
      ensures exists i :: 0 <= i < |r| && r[i].0 == d
    {
      if d != c {
        assert d in h - {c};
        var i :| 0 <= i < |tail| && tail[i].0 == d;
        assert r[i + 1] == tail[i];
      } else {
        assert r[0].0 == d;
      }
    }
  }

  lemma OrderCons(h: map<string, nat>, c: string, tail: seq<(string, nat)>)
    requires IsLargest(h, c)
    requires EntriesOf(h - {c}, tail) && DistinctNonIncreasing(tail)
    ensures DistinctNonIncreasing([(c, h[c])] + tail)
  {
  }

  /**
   * `sorted(category_count.items(), key=count, reverse=True)`: every entry
   * once, by non-increasing count.  The order among equal counts (the dict's
   * insertion order in the source) is left unspecified.
   */
  ghost function ByCount(h: map<string, nat>): (r: seq<(string, nat)>)
    ensures RanksByCount(h, r)
    decreases |h|
  {
    if h == map[] then []
    else
      LargestExists(h);
      var c :| IsLargest(h, c);
      assert (h - {c}).Keys == h.Keys - {c};
      var tail := ByCount(h - {c});
      EntriesOfCons(h, c, tail);
      CoversCons(h, c, tail);
      OrderCons(h, c, tail);
      [(c, h[c])] + tail
  }

  /** The histogram as the page emits it. */
  ghost function CategoryRanking(m: Store): (r: seq<(string, nat)>)
    ensures RanksByCount(Histogram(m), r)
  {
    ByCount(Histogram(m))
  }

  /** When every category is among `cs`, every article is counted. */
  lemma ArticlesInAll(m: Store, cs: set<string>)
    requires Categories(m) <= cs
    ensures ArticlesIn(m, cs) == m.Keys
  {
  }

  /** A listing of a map's entries that covers it names exactly its keys. */
  lemma NamedIsKeys(h: map<string, nat>, r: seq<(string, nat)>)
    requires EntriesOf(h, r) && Covers(h, r)
    ensures Named(r) == h.Keys
  {
  }

  /** The ranking names exactly the histogram's categories. */
  lemma RankingNamesCategories(m: Store)
    ensures Named(CategoryRanking(m)) == Categories(m)
  {
    NamedIsKeys(Histogram(m), CategoryRanking(m));
  }

  /** Each category of the ranking comes with its number of articles. */
  lemma RankingCounts(m: Store)
    ensures forall i :: 0 <= i < |CategoryRanking(m)| ==>
      CategoryRanking(m)[i].1 == |TitlesIn(m, m.Keys, CategoryRanking(m)[i].0)|
  {
  }

  /** The counts of the emitted histogram add up to the number of articles, and it names every category once. */
  lemma RankingSumsToArticleCount(m: Store)
    ensures CountSum(CategoryRanking(m)) == |m|
    ensures Named(CategoryRanking(m)) == Categories(m)
  {
    var r := CategoryRanking(m);
    RankingNamesCategories(m);
    RankingCounts(m);
    assert DistinctNonIncreasing(r);
    CountSumIsArticles(m, r);
    ArticlesInAll(m, Named(r));
  }
}
