/**
 * The article store of the page: one mutable dict from title to record,
 * kept in the session and written back to the data file after every
 * change.  The create, edit and delete branches are given twice: as
 * transitions on a store value (`CreateStep`, `EditStep`, `DeleteStep`),
 * which state what each branch promises, and as the methods of the class
 * `Encyclopedia` that update the dict in place and are proved to perform
 * exactly those transitions.
 *
 * The data file is not modelled: `persisted` is a ghost snapshot of what was
 * last written, and writing it is `persisted := articles`.  The clock is the
 * parameter `now`, the formatted timestamp string.
 */
module ArticleStore {
  import opened Articles
  import opened Statistics

  /** Why a submitted form was turned down; the page shows an error message and changes nothing. */
  datatype Rejection = EmptyTitle | DuplicateTitle | EmptyContent

  /** What a create/edit branch does to the store. */
  datatype StepResult = Ok(store: Store) | Err(reason: Rejection)

  /** What the user sees after submitting a form. */
  datatype Outcome = Saved | Rejected(reason: Rejection)

  /** The record the create branch writes: category and content as typed, stamped with the creation time. */
  function NewArticle(category: string, content: string, now: string): Article
  {
    Article(Some(category), Some(content), Some(now), None)
  }

  /** The record the edit branch writes, keeping the old creation time (or `now` when the record had none). */
  function EditedArticle(current: Article, category: string, content: string, now: string): Article
  {
    Article(Some(category), Some(content), Some(current.created.GetOr(now)), Some(now))
  }

  /** The create branch: checks title, uniqueness and content in that order, then adds one entry. */
  function CreateStep(m: Store, title: string, category: string, content: string, now: string): (r: StepResult)
    ensures r.Err? <==> title == "" || title in m || content == ""
    ensures title == "" ==> r == Err(EmptyTitle)
    ensures title != "" && title in m ==> r == Err(DuplicateTitle)
    ensures title != "" && title !in m && content == "" ==> r == Err(EmptyContent)
    ensures r.Ok? ==> r.store.Keys == m.Keys + {title} && |r.store| == |m| + 1
    ensures r.Ok? ==> r.store[title] == NewArticle(category, content, now)
    ensures r.Ok? ==> forall k :: k in m ==> k in r.store && r.store[k] == m[k]
  {
    if title == "" then Err(EmptyTitle)
    else if title in m then Err(DuplicateTitle)
    else if content == "" then Err(EmptyContent)
    else Ok(m[title := NewArticle(category, content, now)])
  }

  /**
   * The edit branch, reached only for a selected title that is not empty
   * (the page's `if article_to_edit:`): checks the new title and the new content, then drops
   * the old key if the title changed and writes the new one.  Whether the new
   * title is already another article's is not checked: that article is
   * overwritten.
   */
  function EditStep(m: Store, oldTitle: string, newTitle: string, newCategory: string, newContent: string,
                    now: string): (r: StepResult)
    requires oldTitle != "" && oldTitle in m
    ensures r.Err? <==> newTitle == "" || newContent == ""
    ensures newTitle == "" ==> r == Err(EmptyTitle)
    ensures newTitle != "" && newContent == "" ==> r == Err(EmptyContent)
    ensures r.Ok? ==> r.store.Keys == (m.Keys - {oldTitle}) + {newTitle}
    ensures r.Ok? ==> r.store[newTitle] == EditedArticle(m[oldTitle], newCategory, newContent, now)
    ensures r.Ok? ==> forall k :: k in m && k != oldTitle && k != newTitle ==> k in r.store && r.store[k] == m[k]
    ensures r.Ok? && (newTitle == oldTitle || newTitle !in m) ==> |r.store| == |m|
    ensures r.Ok? && newTitle != oldTitle && newTitle in m ==> |r.store| == |m| - 1
  {
    if newTitle == "" then Err(EmptyTitle)
    else if newContent == "" then Err(EmptyContent)
    else
      var kept := if newTitle != oldTitle then m - {oldTitle} else m;
      assert kept.Keys == if newTitle != oldTitle then m.Keys - {oldTitle} else m.Keys;
      Ok(kept[newTitle := EditedArticle(m[oldTitle], newCategory, newContent, now)])
  }

  /** The delete branch, reached only for a selected title that is not empty: exactly that entry goes. */
  function DeleteStep(m: Store, title: string): (r: Store)
    requires title != "" && title in m
    ensures r.Keys == m.Keys - {title} && |r| == |m| - 1
    ensures forall k :: k in r ==> r[k] == m[k]
  {
    assert (m - {title}).Keys == m.Keys - {title};
    m - {title}
  }

  /**
   * The edit branch as it was evidently meant to be, mirroring the create
   * branch: a new title that already names another article is turned down.
   * No article other than the edited one is ever lost and the count never
   * changes.
   */
  function GuardedEditStep(m: Store, oldTitle: string, newTitle: string, newCategory: string, newContent: string,
                           now: string): (r: StepResult)
    requires oldTitle != "" && oldTitle in m
    ensures r.Err? <==> newTitle == "" || newContent == "" || (newTitle != oldTitle && newTitle in m)
    ensures newTitle == "" ==> r == Err(EmptyTitle)
    ensures r == Err(DuplicateTitle) <==> newTitle != "" && newTitle != oldTitle && newTitle in m
    ensures newTitle != "" && (newTitle == oldTitle || newTitle !in m) && newContent == "" ==> r == Err(EmptyContent)
    ensures r.Ok? ==> r.store.Keys == (m.Keys - {oldTitle}) + {newTitle}
    ensures r.Ok? ==> |r.store| == |m|
    ensures r.Ok? ==> forall k :: k in m && k != oldTitle ==> k in r.store && r.store[k] == m[k]
    ensures r.Ok? ==> newTitle in r.store && r.store[newTitle] == EditedArticle(m[oldTitle], newCategory, newContent, now)
  {
    if newTitle == "" then Err(EmptyTitle)
    else if newTitle != oldTitle && newTitle in m then Err(DuplicateTitle)
    else EditStep(m, oldTitle, newTitle, newCategory, newContent, now)
  }

  /** The session's article dict and the data file's last written contents. */
  class Encyclopedia {
    var articles: Store
    ghost var persisted: Store

    /**
     * Every change is written back at once, so the file holds the session's
     * dict, provided every write succeeds and no other session writes the file.
     */
    ghost predicate Valid()
      reads this
    {
      persisted == articles
    }

    /** `load_data`: the file's contents, or an empty store when there is no file. */
    constructor Load(saved: Option<Store>)
      ensures Valid()
      ensures saved.Some? ==> articles == saved.value
      ensures saved.None? ==> articles == map[]
    {
      articles := saved.GetOr(map[]);
      persisted := saved.GetOr(map[]);
    }

    /** `save_data`: the file now holds the dict. */
    method Save()
      modifies this`persisted
      ensures Valid()
    {
      persisted := articles;
    }

    /** The "new article" form was submitted. */
    method Create(title: string, category: string, content: string, now: string) returns (outcome: Outcome)
      requires Valid()
      modifies this
      ensures Valid()
      ensures CreateStep(old(articles), title, category, content, now).Ok? ==>
        outcome == Saved && articles == CreateStep(old(articles), title, category, content, now).store
      ensures CreateStep(old(articles), title, category, content, now).Err? ==>
        && outcome == Rejected(CreateStep(old(articles), title, category, content, now).reason)
        && articles == old(articles) && persisted == old(persisted)
    {
      if title == "" {
        outcome := Rejected(EmptyTitle);
      } else if title in articles {
        outcome := Rejected(DuplicateTitle);
      } else if content == "" {
        outcome := Rejected(EmptyContent);
      } else {
        articles := articles[title := NewArticle(category, content, now)];
        Save();
        outcome := Saved;
      }
    }

    /** The edit form for the selected article `oldTitle` was submitted. */
    method Edit(oldTitle: string, newTitle: string, newCategory: string, newContent: string, now: string)
      returns (outcome: Outcome)
      requires Valid() && oldTitle != "" && oldTitle in articles
      modifies this
      ensures Valid()
      ensures EditStep(old(articles), oldTitle, newTitle, newCategory, newContent, now).Ok? ==>
        outcome == Saved && articles == EditStep(old(articles), oldTitle, newTitle, newCategory, newContent, now).store
      ensures EditStep(old(articles), oldTitle, newTitle, newCategory, newContent, now).Err? ==>
        && outcome == Rejected(EditStep(old(articles), oldTitle, newTitle, newCategory, newContent, now).reason)
        && articles == old(articles) && persisted == old(persisted)
    {
      var current := articles[oldTitle];
      if newTitle == "" {
        outcome := Rejected(EmptyTitle);
      } else if newContent == "" {
        outcome := Rejected(EmptyContent);
      } else {
        if newTitle != oldTitle {
          articles := articles - {oldTitle};
        }
        articles := articles[newTitle := EditedArticle(current, newCategory, newContent, now)];
        Save();
        outcome := Saved;
      }
    }

    /** The delete button was pressed for the selected article. */
    method Delete(title: string)
      requires Valid() && title != "" && title in articles
      modifies this
      ensures Valid()
      ensures articles == DeleteStep(old(articles), title)
    {
      articles := articles - {title};
      Save();
    }

    /** The `category_count` loop of the statistics page: one pass over the records. */
    method CategoryCounts() returns (count: map<string, nat>)
      ensures count == Histogram(articles)
    {
      var rest := articles.Keys;
      count := map[];
      assert CategoriesOver(articles, {}) == {};
      while rest != {}
        invariant rest <= articles.Keys
        invariant count == Tally(articles, articles.Keys - rest)
        decreases rest
      {
        var t :| t in rest;
        var c := CategoryOf(articles[t]);
        TallyStep(articles, articles.Keys - rest, t);
        assert articles.Keys - (rest - {t}) == (articles.Keys - rest) + {t};
        count := count[c := (if c in count then count[c] else 0) + 1];
        rest := rest - {t};
      }
      assert articles.Keys - rest == articles.Keys;
    }
  }
}
