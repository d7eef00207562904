# Original encyclopedia: the article store

This project models the data layer of a small personal encyclopedia. The
program is a Streamlit page, `streamlit_app.py`. Behind its widgets, the
page keeps one mutable dict in the session. The dict maps an article title
to a record `{category, content, created, updated?}`. After every change
the page writes the whole dict to a JSON data file.

The model covers:

- **The record** (`Articles`): every field is optional, because a record
  read from the data file may lack any key. The page applies its defaults
  when it reads a record, not when it stores one. A missing category reads
  as `"未分類"` ("uncategorised") and missing content reads as `""`. A
  category the user typed is stored exactly as typed, even when it is empty.
- **Title order** (`TitleOrder`): Python orders strings lexicographically by
  code point. `Less` is that order, proved irreflexive, transitive and total.
  `Sorted` is `sorted(...)` over a finite set of strings.
- **Search and the sidebar** (`Search`): the keyword filter, the category
  filter (`"すべて"`, "all", keeps everything), their conjunction, the result
  list in ascending title order, and the sorted title list in the sidebar.
  Python's `str.lower` is a parameter `lower`. Python's `in` on strings is
  `Occurs`, and `Occurs` is proved equal to the positional definition of a
  substring.
- **Statistics** (`Statistics`): the category facet, the number of distinct
  categories, the character total, and the per-category histogram ranked by
  count.
- **The store** (`ArticleStore`): each of the create, edit and delete
  branches is a transition on a store value (`CreateStep`, `EditStep`,
  `DeleteStep`). The class `Encyclopedia` holds the dict in a `map` field
  plus a ghost `persisted` snapshot of the data file. Its methods update the
  dict in place and are proved to perform exactly those transitions. Its
  invariant `Valid()` says that the file holds the session's dict, given
  that every write succeeds and no other session writes the file. The
  statistics page's counting loop is the method `CategoryCounts`.
- **Cross-cutting properties** (`StoreProperties`): create followed by
  delete restores the store. Each change moves the character total, the
  category set and the histogram by exactly the article it adds or removes.

`streamlit_app.py` has one free-text category per article. It has no user
accounts, passwords, images or "not found" error, and it gives no order to
categories with equal counts in the histogram. The edit and delete pages
pick the article from a select box of existing titles, and they show the
form or the button only when the selected title is not empty (lines 118 and
157). So those operations require the title to be present and non-empty.

## Model

| member | source | states |
|---|---|---|
| `TitleOrder.LessTotal` | streamlit_app.py:40 | any two different strings are ordered one way or the other, so sorting titles is well defined |
| `TitleOrder.LessTransitive` | streamlit_app.py:40 | the string order is transitive |
| `TitleOrder.Sorted` | streamlit_app.py:40 | `sorted(s)` lists every element of the set exactly once (same length), strictly ascending |
| `Search.TitleListing` | streamlit_app.py:39-41 | the sidebar lists every title of the store, no title twice, in ascending order |
| `Search.OccursIffAtSomePosition` | streamlit_app.py:65 | `p in s` holds exactly when `p` equals the slice of `s` at some position (both directions) |
| `Search.KeywordFilter` | streamlit_app.py:63-65 | the result is a sub-map of the store; an empty keyword keeps every entry, otherwise a title is kept exactly when `lower(keyword)` occurs in `lower(title)` |
| `Search.CategoryFilter` | streamlit_app.py:68-70 | the result is a sub-map; `"すべて"` keeps every entry, otherwise exactly the entries whose category, read with the default, equals the selection |
| `Search.SearchResults` | streamlit_app.py:60-70 | the search works on a copy and returns a sub-map holding exactly the entries that pass both filters |
| `Search.FiltersCommute` | streamlit_app.py:63-70 | applying the two filters in either order gives the same result, so the search is their AND |
| `Search.NoFilterShowsAll` | streamlit_app.py:60-70 | with no keyword and `"すべて"` the search shows the whole store |
| `Search.Listing` | streamlit_app.py:74 | `sorted(results.items())` has one pair per entry with that entry's record, in strictly ascending title order |
| `Search.SearchListing` | streamlit_app.py:60-74 | the shown list holds exactly the matching entries of the store with their records, each once, by ascending title |
| `Statistics.CategoryFacet` | streamlit_app.py:51 | the facet holds every category read from the store (default included), no duplicates, ascending, as many as there are distinct categories |
| `Statistics.CategoryCountBounds` | streamlit_app.py:182-183 | the distinct-category count is at most the article count, and at least 1 when there is an article |
| `Statistics.TotalCharsRemove` | streamlit_app.py:187 | the character total does not depend on summation order: it is any one article's body length plus the total of the others |
| `Statistics.Histogram` | streamlit_app.py:193-196 | the histogram has one entry per category read from the store, and every count is at least 1 |
| `Statistics.TallyStep` | streamlit_app.py:194-196 | counting one more article adds one to its category's count, starting from 0, and leaves the other counts alone |
| `Statistics.CountSumIsArticles` | streamlit_app.py:193-196 | the counts of distinct categories add up to the number of articles in those categories |
| `Statistics.CategoryRanking` | streamlit_app.py:198 | the emitted histogram lists each category once with its count, and the counts never increase |
| `Statistics.RankingSumsToArticleCount` | streamlit_app.py:179-198 | the emitted counts add up to the article count `len(encyclopedia)`, and the histogram names exactly the distinct categories |
| `ArticleStore.CreateStep` | streamlit_app.py:95-108 | rejects an empty title, then a title already present, then empty content, in that order; on success the keys gain exactly `title`, the size grows by one, the new record is `{category as typed, content, created = now}`, and every other entry is unchanged |
| `ArticleStore.EditStep` | streamlit_app.py:118-144 | rejects an empty new title, then empty new content; on success the keys are (old keys minus the old title) plus the new title, the new record keeps the old `created` (or `now`) and sets `updated = now`, and other entries are unchanged; the size is unchanged unless the rename lands on another existing title, when it drops by one |
| `ArticleStore.DeleteStep` | streamlit_app.py:157-163 | exactly the selected key goes, the size drops by one, and every remaining entry is unchanged |
| `ArticleStore.GuardedEditStep` | streamlit_app.py:128-144 | corrected edit: rejected exactly when the new title is empty, the new content is empty, or the new title is another existing article's, with the reasons `EmptyTitle`, `DuplicateTitle` and `EmptyContent`; on success the keys are (old keys minus the old title) plus the new title, the size never changes and no other article is lost |
| `ArticleStore.Encyclopedia.Load` | streamlit_app.py:10-14 | the session starts with the file's contents, or an empty store when there is no file, and the file matches the session |
| `ArticleStore.Encyclopedia.Save` | streamlit_app.py:17-19 | after a save the persisted copy equals the store |
| `ArticleStore.Encyclopedia.Create` | streamlit_app.py:95-108 | performs `CreateStep` in place and persists; on rejection neither the store nor the persisted copy changes |
| `ArticleStore.Encyclopedia.Edit` | streamlit_app.py:119-145 | performs `EditStep` in place (delete the old key, then write the new one) and persists; on rejection nothing changes |
| `ArticleStore.Encyclopedia.Delete` | streamlit_app.py:162-164 | performs `DeleteStep` in place and persists |
| `ArticleStore.Encyclopedia.CategoryCounts` | streamlit_app.py:193-196 | the counting loop over the records yields exactly the histogram of the store |
| `StoreProperties.CreateThenDeleteRestores` | streamlit_app.py:103-164 | deleting the article just created gives back the original store |
| `StoreProperties.CreateAddsCharacters` | streamlit_app.py:187 | a successful create raises the character total by the new body's length |
| `StoreProperties.DeleteRemovesCharacters` | streamlit_app.py:187 | a delete lowers the character total by the removed body's length |
| `StoreProperties.CreateAddsCategory` | streamlit_app.py:182-183 | a successful create adds exactly its typed category to the category set |
| `StoreProperties.CreateCountsInHistogram` | streamlit_app.py:193-196 | a successful create adds one to its category's count and leaves the other counts alone |
| `StoreProperties.EditInPlaceKeepsTitles` | streamlit_app.py:139-143 | an edit that keeps the title keeps the set of titles and the creation time |
| `StoreProperties.EditRenameMovesArticle` | streamlit_app.py:135-139 | after a rename the old title is absent and the new one present |
| `StoreProperties.CreatedArticleIsFound` | streamlit_app.py:68-70 | a new article is found when its own category is selected with no keyword |
| `StoreProperties.EditOverwritesOtherArticle` | streamlit_app.py:135-139 | renaming "a" onto an existing "b" succeeds, replaces "b"'s record and leaves one article of two; the guarded edit rejects it |

## Left out

- Streamlit presentation: widgets, layout, the sidebar menu, forms, messages, `st.balloons` and `st.rerun`. Only which branch runs and its effect on the store are modelled.
- File I/O and JSON encoding in `load_data`/`save_data`. The constructor takes the decoded file contents, or `None` when there is no file. Writing the file is the ghost assignment `persisted := articles`. A record whose values are not strings is not modelled.
- The clock: `datetime.now().strftime(...)` is the parameter `now`.
- ArticleStore.Encyclopedia.Edit: the source reads the clock twice, once for the `created` fallback and once for `updated`. The model uses one `now` for both, so it does not capture the two readings differing by a second.
- Python's `str.lower` is the uninterpreted parameter `lower`; no property depends on its Unicode behaviour.
- Statistics.CategoryRanking: the order among categories with equal counts is not fixed. In the source it follows the dict's insertion order through Python's stable sort.
- The edit and delete pages only offer existing titles, and act only when the selected title is not empty, so `Edit` and `Delete` require the title to be present and non-empty. There is no "not found" path in the source. An article titled `""`, which only a hand-written data file can hold, can be neither edited nor deleted on the page; the model does not describe that article's fate beyond leaving it out of these operations.
- Failed writes and concurrent sessions: the source changes the session dict before it calls `save_data`, and `open(..., "w")` truncates the file first. `Valid()` assumes that every write succeeds, so it does not capture a stale or truncated file after an exception. It also assumes that only one session writes the file: each browser session loads the file once, so another session's save can overwrite this session's changes (a lost update), which the model does not capture.
- The `"すべて"` entry that the select box puts before the facet is not part of `CategoryFacet`. A category typed literally as `"すべて"` cannot be selected on its own, because choosing it means "all"; `CategoryFilter` captures that.
- Accounts, password digests, images and category lists do not exist in this source.

## Findings

| source | as written | input that shows it | evidently intended | confidence | as-written member | corrected member |
|---|---|---|---|---|---|---|
| streamlit_app.py:135-139 | edit deletes the old key and writes the new title without checking whether another article already has it | store `{"a", "b"}`, edit "a" with new title "b": "b"'s record is replaced and the store drops from two articles to one | reject a title already taken, as the create branch does at lines 98-99 | medium, not executed | `StoreProperties.EditOverwritesOtherArticle` (about `ArticleStore.EditStep`) | `ArticleStore.GuardedEditStep` |

The class `Encyclopedia` keeps the as-written edit, since it models the page as it is. `GuardedEditStep` states and proves the corrected behaviour.
