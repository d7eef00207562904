/**
 * The read-only views of the search page and the sidebar: the keyword
 * filter, the category filter, their combination, and the listings in
 * ascending title order.  Every view is a function of the store, so the
 * store is never changed by them (the page filters a copy of the dict).
 *
 * Python's `str.lower()` is Unicode library behaviour and is taken as a
 * parameter `lower`; nothing below depends on what it does.
 */
module Search {
  import opened Articles
  import opened TitleOrder

  /** Python's `p in s` on strings: `p` occurs in `s` as a contiguous run. */
  predicate Occurs(p: string, s: string)
    decreases |s|
  {
    (|p| <= |s| && s[..|p|] == p) || (|s| > 0 && Occurs(p, s[1..]))
  }

  /** `p` occurs in `s` starting at position `i`. */
  ghost predicate OccursAt(p: string, s: string, i: int)
  {
    0 <= i && i + |p| <= |s| && s[i..i + |p|] == p
  }

  /** `Occurs` agrees with the positional definition of a substring, both ways. */
  lemma {:induction false} OccursIffAtSomePosition(p: string, s: string)
    ensures Occurs(p, s) <==> exists i :: OccursAt(p, s, i)
    decreases |s|
  {
    if |s| > 0 {
      OccursIffAtSomePosition(p, s[1..]);
      if Occurs(p, s) && !(|p| <= |s| && s[..|p|] == p) {
        var i :| OccursAt(p, s[1..], i);
        assert OccursAt(p, s, i + 1) by {
          assert s[i + 1..i + 1 + |p|] == s[1..][i..i + |p|];
        }
      } else if Occurs(p, s) {
        assert OccursAt(p, s, 0);
      }
      if exists i :: OccursAt(p, s, i) {
        var i :| OccursAt(p, s, i);
        if i > 0 {
          assert OccursAt(p, s[1..], i - 1) by {
            assert s[1..][i - 1..i - 1 + |p|] == s[i..i + |p|];
          }
        }
      }
    } else if Occurs(p, s) {
      assert OccursAt(p, s, 0);
    }
  }

  /** `m2` is a sub-map of `m`: its keys are keys of `m`, with the same records. */
  ghost predicate SubMap(m2: Store, m: Store)
  {
    forall k :: k in m2 ==> k in m && m2[k] == m[k]
  }

  /** Keyword filter: an empty keyword keeps everything, otherwise the titles containing it, case-folded. */
  function KeywordFilter(m: Store, term: string, lower: string -> string): (r: Store)
    ensures SubMap(r, m)
    ensures forall k :: k in r <==> k in m && (term == "" || Occurs(lower(term), lower(k)))
  {
    if term == "" then m
    else map k | k in m && Occurs(lower(term), lower(k)) :: m[k]
  }

  /** Category filter: "all" keeps everything, otherwise exactly the records whose category reads as `selected`. */
  function CategoryFilter(m: Store, selected: string): (r: Store)
    ensures SubMap(r, m)
    ensures forall k :: k in r <==> k in m && (selected == AllCategories || CategoryOf(m[k]) == selected)
  {
    if selected == AllCategories then m
    else map k | k in m && CategoryOf(m[k]) == selected :: m[k]
  }

  /** The search results: the keyword filter, then the category filter, on a copy of the store. */
  function SearchResults(m: Store, term: string, selected: string, lower: string -> string): (r: Store)
    ensures SubMap(r, m)
    ensures forall k :: k in r <==>
      && k in m
      && (term == "" || Occurs(lower(term), lower(k)))
      && (selected == AllCategories || CategoryOf(m[k]) == selected)
  {
    CategoryFilter(KeywordFilter(m, term, lower), selected)
  }

  /** Applying the two filters in the other order gives the same results: they are a plain conjunction. */
  lemma FiltersCommute(m: Store, term: string, selected: string, lower: string -> string)
    ensures KeywordFilter(CategoryFilter(m, selected), term, lower) == SearchResults(m, term, selected, lower)
  {
  }

  /** With no keyword and the "all" choice the search shows the whole store. */
  lemma NoFilterShowsAll(m: Store, lower: string -> string)
    ensures SearchResults(m, "", AllCategories, lower) == m
  {
  }

  /** A result set is shown as `sorted(results.items())`: its entries in ascending title order. */
  ghost function Listing(r: Store): (l: seq<(string, Article)>)
    ensures |l| == |r|
    ensures forall i :: 0 <= i < |l| ==> l[i].0 in r && l[i].1 == r[l[i].0]
    ensures forall t :: t in r ==> exists i :: 0 <= i < |l| && l[i].0 == t
    ensures forall i, j :: 0 <= i < j < |l| ==> Less(l[i].0, l[j].0)
  {
    var ts := Sorted(r.Keys);
    var l := seq(|ts|, i requires 0 <= i < |ts| => (ts[i], r[ts[i]]));
    assert |l| == |r|;
    assert forall i :: 0 <= i < |l| ==> l[i].0 in r && l[i].1 == r[l[i].0];
    assert forall i, j :: 0 <= i < j < |l| ==> Less(l[i].0, l[j].0) by {
      assert Ascending(ts);
    }
    assert forall t :: t in r ==> exists i :: 0 <= i < |l| && l[i].0 == t by {
      forall t | t in r
        ensures exists i :: 0 <= i < |l| && l[i].0 == t
      {
        var i :| 0 <= i < |ts| && ts[i] == t;
        assert l[i].0 == t;
      }
    }
    l
  }

  /** The search page's list: exactly the matching entries of the store, each once, by ascending title. */
  ghost function SearchListing(m: Store, term: string, selected: string, lower: string -> string)
    : (l: seq<(string, Article)>)
    ensures forall i :: 0 <= i < |l| ==>
      && l[i].0 in m && l[i].1 == m[l[i].0]
      && (term == "" || Occurs(lower(term), lower(l[i].0)))
      && (selected == AllCategories || CategoryOf(m[l[i].0]) == selected)
    ensures forall t :: t in m && (term == "" || Occurs(lower(term), lower(t)))
                        && (selected == AllCategories || CategoryOf(m[t]) == selected)
                        ==> exists i :: 0 <= i < |l| && l[i].0 == t
    ensures forall i, j :: 0 <= i < j < |l| ==> Less(l[i].0, l[j].0)
  {
    Listing(SearchResults(m, term, selected, lower))
  }

  /** The sidebar list: every title of the store, each once, in ascending order. */
  ghost function TitleListing(m: Store): (r: seq<string>)
    ensures |r| == |m|
    ensures forall t :: t in r <==> t in m
    ensures forall i, j :: 0 <= i < j < |r| ==> r[i] != r[j]
    ensures Ascending(r)
  {
    var r := Sorted(m.Keys);
    AscendingIsDistinct(r);
    r
  }
}
