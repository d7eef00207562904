/**
 * The article record of the encyclopedia and the defaults the page applies
 * when it reads a record whose JSON object lacks a key.
 *
 * A record is a JSON object.  Records written by the page always carry
 * "category", "content" and "created"; "updated" is added by an edit.
 * Records loaded from the data file may lack any of them, so every field is
 * optional here and the read-time defaults are separate functions.
 */
module Articles {

  datatype Option<T> = None | Some(value: T) {
    function GetOr(default: T): (r: T)
      ensures Some? ==> r == value
      ensures None? ==> r == default
    {
      match this
      case Some(v) => v
      case None => default
    }
  }

  datatype Article = Article(
    category: Option<string>,
    content: Option<string>,
    created: Option<string>,
    updated: Option<string>)

  /** The whole store: article title -> record. */
  type Store = map<string, Article>

  /** Category shown for a record that has no "category" key ("uncategorised"). */
  const DefaultCategory: string := "未分類"

  /** The category-filter choice that keeps every article ("all"). */
  const AllCategories: string := "すべて"

  /** The category the page reads for a record: the stored string, exactly as typed, or the default. */
  function CategoryOf(a: Article): (c: string)
    ensures a.category.Some? ==> c == a.category.value
    ensures a.category.None? ==> c == DefaultCategory
  {
    a.category.GetOr(DefaultCategory)
  }

  /** The body text the page reads for a record, "" when the key is missing. */
  function ContentOf(a: Article): (s: string)
    ensures a.content.Some? ==> s == a.content.value
    ensures a.content.None? ==> s == ""
  {
    a.content.GetOr("")
  }
}
