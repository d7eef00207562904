/**
 * How the changing operations and the read-only views fit together: create
 * and delete undo each other, and each moves the statistics page's numbers
 * by exactly the article it adds or removes.  The last part exhibits the
 * edit branch's silent overwrite of another article.
 */
module StoreProperties {
  import opened Articles
  import opened Statistics
  import opened Search
  import opened ArticleStore

  /** Deleting the article just created gives back the store as it was. */
  lemma CreateThenDeleteRestores(m: Store, title: string, category: string, content: string, now: string)
    requires CreateStep(m, title, category, content, now).Ok?
    ensures DeleteStep(CreateStep(m, title, category, content, now).store, title) == m
  {
  }

  /** A successful create adds the new body's length to the character total. */
  lemma CreateAddsCharacters(m: Store, title: string, category: string, content: string, now: string)
    requires CreateStep(m, title, category, content, now).Ok?
    ensures TotalChars(CreateStep(m, title, category, content, now).store) == TotalChars(m) + |content|
  {
    var after := CreateStep(m, title, category, content, now).store;
    TotalCharsRemove(after, title);
    assert after - {title} == m;
  }

  /** A delete takes the removed body's length off the character total. */
  lemma DeleteRemovesCharacters(m: Store, title: string)
    requires title != "" && title in m
    ensures TotalChars(DeleteStep(m, title)) == TotalChars(m) - |ContentOf(m[title])|
  {
    TotalCharsRemove(m, title);
  }

  /** A successful create adds its category, exactly as typed, to the set of categories and nothing else. */
  lemma CreateAddsCategory(m: Store, title: string, category: string, content: string, now: string)
    requires CreateStep(m, title, category, content, now).Ok?
    ensures Categories(CreateStep(m, title, category, content, now).store) == Categories(m) + {category}
  {
  }

  /** Tallying the same titles of two stores that agree on them gives the same counts. */
  lemma TallyAgrees(m1: Store, m2: Store, keys: set<string>)
    requires keys <= m1.Keys && keys <= m2.Keys
    requires forall k :: k in keys ==> m1[k] == m2[k]
    ensures Tally(m1, keys) == Tally(m2, keys)
  {
    assert CategoriesOver(m1, keys) == CategoriesOver(m2, keys);
    forall c | c in CategoriesOver(m1, keys)
      ensures TitlesIn(m1, keys, c) == TitlesIn(m2, keys, c)
    {
    }
  }

  /** A successful create adds one to its category's count in the histogram and leaves the other counts alone. */
  lemma CreateCountsInHistogram(m: Store, title: string, category: string, content: string, now: string)
    requires CreateStep(m, title, category, content, now).Ok?
    ensures var h := Histogram(m);
            Histogram(CreateStep(m, title, category, content, now).store)
              == h[category := (if category in h then h[category] else 0) + 1]
  {
    var after := CreateStep(m, title, category, content, now).store;
    TallyAgrees(after, m, m.Keys);
    TallyStep(after, m.Keys, title);
    assert m.Keys + {title} == after.Keys;
  }

  /** An edit that keeps the title keeps the set of titles and the creation time. */
  lemma EditInPlaceKeepsTitles(m: Store, title: string, newCategory: string, newContent: string, now: string)
    requires title != "" && title in m && m[title].created.Some?
    requires EditStep(m, title, title, newCategory, newContent, now).Ok?
    ensures EditStep(m, title, title, newCategory, newContent, now).store.Keys == m.Keys
    ensures EditStep(m, title, title, newCategory, newContent, now).store[title].created == m[title].created
  {
  }

  /** A rename moves the article: the new title is present, the old one gone. */
  lemma EditRenameMovesArticle(m: Store, oldTitle: string, newTitle: string, newCategory: string,
                               newContent: string, now: string)
    requires oldTitle != "" && oldTitle in m && oldTitle != newTitle
    requires EditStep(m, oldTitle, newTitle, newCategory, newContent, now).Ok?
    ensures oldTitle !in EditStep(m, oldTitle, newTitle, newCategory, newContent, now).store
    ensures newTitle in EditStep(m, oldTitle, newTitle, newCategory, newContent, now).store
  {
  }

  /** A newly created article is found by an empty-keyword search on its own category. */
  lemma CreatedArticleIsFound(m: Store, title: string, category: string, content: string, now: string,
                              lower: string -> string)
    requires CreateStep(m, title, category, content, now).Ok?
    ensures title in SearchResults(CreateStep(m, title, category, content, now).store, "", category, lower)
  {
  }

  /**
   * Renaming "a" to the title "b" of another article: the edit branch
   * succeeds and "b"'s own record is gone, leaving one article where there
   * were two.  The guarded edit turns the same request down.
   */
  lemma EditOverwritesOtherArticle()
    ensures var a := NewArticle("x", "first", "t0");
            var b := NewArticle("y", "second", "t0");
            var m := map["a" := a, "b" := b];
            var r := EditStep(m, "a", "b", "x", "first", "t1");
            && r.Ok? && |m| == 2 && |r.store| == 1
            && r.store["b"] != b
            && GuardedEditStep(m, "a", "b", "x", "first", "t1") == Err(DuplicateTitle)
  {
  }
}
