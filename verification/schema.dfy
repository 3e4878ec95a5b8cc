// The five tables of the bookmark store (account, bookmark, tag, bookmark_tag,
// bookmark_content), the records the store hands to its callers, and the
// constraints the schema declares: unique url, tag name and username, the
// bookmark_tag key and its references, and content keyed by bookmark id.
// AUTO_INCREMENT columns are modelled by the next id each table will assign.

module Schema {

  /** A row of `bookmark`, without its id. */
  datatype BookmarkRow = BookmarkRow(
    url: string,
    title: string,
    imageUrl: string,
    excerpt: string,
    author: string,
    minReadTime: int,
    maxReadTime: int,
    modified: string)

  /** A row of `bookmark_content`, keyed by `docid`. */
  datatype ContentRow = ContentRow(title: string, content: string, html: string)

  /** A row of `account`, without its id; `password` holds the stored hash. */
  datatype AccountRow = AccountRow(username: string, password: string)

  /** A row of `bookmark_tag`: the bookmark carries the tag. */
  datatype Link = Link(bookmarkId: int, tagId: int)

  /** The tag record callers exchange with the store. */
  datatype Tag = Tag(id: int, name: string, deleted: bool, nBookmarks: int)

  /** The bookmark record callers exchange with the store. */
  datatype Bookmark = Bookmark(
    id: int,
    url: string,
    title: string,
    imageUrl: string,
    excerpt: string,
    author: string,
    minReadTime: int,
    maxReadTime: int,
    modified: string,
    content: string,
    html: string,
    tags: seq<Tag>)

  /** The account record callers exchange with the store. */
  datatype Account = Account(id: int, username: string, password: string)

  /** The failures the store reports. */
  datatype DbError =
    | EmptyUrl             // InsertBookmark: "URL must not be empty"
    | EmptyTitle           // InsertBookmark: "Title must not be empty"
    | DuplicateUrl         // unique index on bookmark.url
    | DuplicateUsername    // unique index on account.username
    | NoRows               // a single-row query found nothing
    | ForeignKeyViolation  // a parent row still referenced by a child row
    | UnknownColumn        // the table has no `id` column

  datatype Result<T> = Ok(value: T) | Err(error: DbError)

  /** The `error` a Go method returns: nil or one failure. */
  datatype Option<T> = None | Some(value: T)

  /** The contents of the five tables, with each AUTO_INCREMENT counter. */
  datatype Tables = Tables(
    bookmarks: map<int, BookmarkRow>,
    contents: map<int, ContentRow>,
    tags: map<int, string>,
    links: set<Link>,
    accounts: map<int, AccountRow>,
    nextBookmarkId: int,
    nextTagId: int,
    nextAccountId: int)

  /** The freshly provisioned schema: every table empty, every counter at 1. */
  const EMPTY: Tables := Tables(map[], map[], map[], {}, map[], 1, 1, 1)

  predicate UniqueUrls(bookmarks: map<int, BookmarkRow>)
  {
    forall i, j :: i in bookmarks && j in bookmarks && bookmarks[i].url == bookmarks[j].url ==> i == j
  }

  predicate UniqueNames(tags: map<int, string>)
  {
    forall i, j :: i in tags && j in tags && tags[i] == tags[j] ==> i == j
  }

  predicate UniqueUsernames(accounts: map<int, AccountRow>)
  {
    forall i, j :: i in accounts && j in accounts && accounts[i].username == accounts[j].username ==> i == j
  }

  /** The counter is positive and every id is positive and below it. */
  predicate IdsBelow<V>(m: map<int, V>, next: int)
  {
    0 < next && forall id :: id in m ==> 0 < id < next
  }

  /** Both foreign keys of bookmark_tag point at existing rows. */
  predicate LinksResolve(t: Tables)
  {
    forall l :: l in t.links ==> l.bookmarkId in t.bookmarks && l.tagId in t.tags
  }

  /** The constraints every committed state satisfies. */
  predicate Valid(t: Tables)
  {
    && UniqueUrls(t.bookmarks)
    && UniqueNames(t.tags)
    && UniqueUsernames(t.accounts)
    && t.contents.Keys == t.bookmarks.Keys
    && LinksResolve(t)
    && IdsBelow(t.bookmarks, t.nextBookmarkId)
    && IdsBelow(t.tags, t.nextTagId)
    && IdsBelow(t.accounts, t.nextAccountId)
  }

  /**
   * Whether a row keyed `key` falls under the WHERE clause built from `ids`:
   * every row for an empty list (" WHERE 1"), else the listed keys.
   */
  predicate Selected<K(==)>(ids: seq<K>, key: K)
  {
    |ids| == 0 || key in ids
  }
}
