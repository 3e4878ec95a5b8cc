// The storage adapter itself: a database object holding the five tables and
// their AUTO_INCREMENT counters, whose methods change them step by step as the
// SQL statements of database/postgresql.go do.  Each method is proved against
// the pure effect (Effects) or query (Queries) it implements.

module Store {
  import opened Schema
  import Text
  import Clauses
  import Effects
  import Queries

  class Database {
    var bookmarks: map<int, BookmarkRow>
    var contents: map<int, ContentRow>
    var tags: map<int, string>
    var links: set<Link>
    var accounts: map<int, AccountRow>
    var nextBookmarkId: int
    var nextTagId: int
    var nextAccountId: int

    /** The tables as a value. */
    function State(): Tables
      reads this
    {
      Tables(bookmarks, contents, tags, links, accounts, nextBookmarkId, nextTagId, nextAccountId)
    }

    ghost predicate Valid()
      reads this
    {
      Schema.Valid(State())
    }

    /** A freshly provisioned schema: empty tables, counters at 1. */
    constructor()
      ensures State() == EMPTY
      ensures Valid()
    {
      bookmarks := map[];
      contents := map[];
      tags := map[];
      links := {};
      accounts := map[];
      nextBookmarkId := 1;
      nextTagId := 1;
      nextAccountId := 1;
    }

    /** Put every table back as it was in `t` (a transaction rollback). */
    method Restore(t: Tables)
      modifies this
      ensures State() == t
    {
      bookmarks, contents, tags, links, accounts := t.bookmarks, t.contents, t.tags, t.links, t.accounts;
      nextBookmarkId, nextTagId, nextAccountId := t.nextBookmarkId, t.nextTagId, t.nextAccountId;
    }

    // -------------------------------------------------------------------------
    // Prepared tag statements
    // -------------------------------------------------------------------------

    /** `SELECT id FROM tag WHERE name = ?` into a variable preset to -1. */
    method LookupTag(name: string) returns (tagId: int)
      requires Valid()
      ensures tagId == Effects.TagIdByName(State(), name)
    {
      tagId := -1;
      if name in tags.Values {
        var k := Effects.KeyOf(tags, name);
        tagId :| tagId in tags && tags[tagId] == name;
      }
    }

    /** `INSERT INTO tag (name) VALUES (?)`, returning the last insert id. */
    method InsertTag(name: string) returns (tagId: int)
      requires Valid() && name !in tags.Values
      modifies this
      ensures (State(), tagId) == Effects.InsertTag(old(State()), name)
      ensures Valid()
    {
      tagId := nextTagId;
      tags := tags[tagId := name];
      nextTagId := nextTagId + 1;
    }

    /** `INSERT IGNORE INTO bookmark_tag (tag_id, bookmark_id) VALUES (?, ?)`. */
    method AttachTag(bookmarkId: int, tagId: int)
      requires Valid()
      modifies this
      ensures State() == Effects.AttachTag(old(State()), bookmarkId, tagId)
      ensures Valid()
    {
      if bookmarkId in bookmarks && tagId in tags {
        links := links + {Link(bookmarkId, tagId)};
      }
    }

    /** `DELETE FROM bookmark_tag WHERE bookmark_id = ? AND tag_id = ?`. */
    method DetachTag(bookmarkId: int, tagId: int)
      requires Valid()
      modifies this
      ensures State() == Effects.DetachTag(old(State()), bookmarkId, tagId)
      ensures Valid()
    {
      links := links - {Link(bookmarkId, tagId)};
    }

    /** Look `name` up, insert it when the lookup finds nothing, and return its id. */
    method ResolveTag(name: string) returns (tagId: int)
      requires Valid()
      modifies this
      ensures (State(), tagId) == Effects.ResolveTag(old(State()), name)
      ensures Valid()
    {
      tagId := LookupTag(name);
      if tagId == -1 {
        tagId := InsertTag(name);
      }
    }

    // -------------------------------------------------------------------------
    // Bookmarks
    // -------------------------------------------------------------------------

    /**
     * InsertBookmark: validate the url and the title, write the bookmark row
     * and its content row, then normalise, resolve and attach each tag.  On
     * failure the id is -1 and no table changes.
     */
    method InsertBookmark(b: Bookmark, now: string) returns (id: int, err: Option<DbError>)
      requires Valid()
      modifies this
      ensures Valid()
      ensures var r := Effects.InsertBookmark(old(State()), b, now);
        && (r.Ok? ==> State() == r.value.0 && id == r.value.1 && err == None)
        && (r.Err? ==> State() == old(State()) && id == -1 && err == Some(r.error))
    {
      if b.url == "" {
        return -1, Some(EmptyUrl);
      }
      if b.title == "" {
        return -1, Some(EmptyTitle);
      }
      var modified := if b.modified == "" then now else b.modified;
      if Effects.UrlTaken(State(), b.url) {
        // the unique index on url rejects the row; the transaction rolls back
        return -1, Some(DuplicateUrl);
      }
      id := nextBookmarkId;
      bookmarks := bookmarks[id := Effects.NewRow(b, modified)];
      nextBookmarkId := id + 1;
      contents := contents[id := ContentRow(b.title, b.content, b.html)];
      err := None;
      assert State() == Effects.InsertRows(old(State()), b, now);
      InsertTags(id, b.tags);
    }

    /** The tag loop of InsertBookmark: normalise, resolve and attach each tag. */
    method InsertTags(bookmarkId: int, bookTags: seq<Tag>)
      requires Valid()
      modifies this
      ensures Valid()
      ensures State() == Effects.InsertTags(old(State()), bookmarkId, bookTags)
    {
      ghost var start := State();
      for i := 0 to |bookTags|
        invariant Valid()
        invariant State() == Effects.InsertTags(start, bookmarkId, bookTags[..i])
      {
        assert bookTags[..i + 1][..i] == bookTags[..i];
        var tagName := Text.Normalize(bookTags[i].name);
        var tagId := ResolveTag(tagName);
        AttachTag(bookmarkId, tagId);
      }
      assert bookTags[..|bookTags|] == bookTags;
    }

    /**
     * GetBookmarks: select the rows under the WHERE clause built from `ids`,
     * then fill in each record's tags and, with `withContent`, its content.
     */
    method GetBookmarks(withContent: bool, ids: seq<int>) returns (books: seq<Bookmark>)
      requires Valid()
      ensures books == Queries.GetBookmarks(State(), withContent, ids)
    {
      var clause, args := Clauses.BuildInClause("id", ids);
      var sel := Queries.SelectedIds(State(), args);
      books := FillRecords(sel, withContent);
    }

    /**
     * The per-row loop of GetBookmarks and SearchBookmarks: start from the
     * selected rows, then set each record's tags and, with `withContent`, its
     * title, content and html from its content row.
     */
    method FillRecords(ids: seq<int>, withContent: bool) returns (books: seq<Bookmark>)
      requires Valid() && forall k :: k in ids ==> k in bookmarks
      ensures books == Queries.Views(State(), ids, withContent)
    {
      var st := State();
      books := seq(|ids|, j requires 0 <= j < |ids| => Queries.RowView(st, ids[j]));
      for i := 0 to |books|
        invariant |books| == |ids|
        invariant forall j :: 0 <= j < i ==> books[j] == Queries.View(st, ids[j], withContent)
        invariant forall j :: i <= j < |books| ==> books[j] == Queries.RowView(st, ids[j])
      {
        var book := books[i];
        book := book.(tags := Queries.TagsOf(st, book.id));
        if withContent && book.id in contents {
          var c := contents[book.id];
          book := book.(title := c.title, content := c.content, html := c.html);
        }
        books := books[i := book];
      }
      ghost var views := Queries.Views(st, ids, withContent);
      assert forall j :: 0 <= j < |ids| ==> books[j] == views[j];
    }

    /**
     * DeleteBookmarks: the same WHERE clause, with its column renamed, removes
     * the selected rows from bookmark_tag, bookmark_content and bookmark, the
     * children before their parent.
     */
    method DeleteBookmarks(ids: seq<int>) returns (err: Option<DbError>)
      requires Valid()
      modifies this
      ensures State() == Effects.DeleteBookmarks(old(State()), ids)
      ensures Valid()
      ensures err == None
    {
      var whereClause, args := Clauses.BuildInClause("id", ids);
      var whereTagClause := Clauses.ReplaceFirst(whereClause, "id", "bookmark_id");
      var whereContentClause := Clauses.ReplaceFirst(whereClause, "id", "docid");
      Clauses.RenameIdColumn(|ids|, "bookmark_id");
      Clauses.RenameIdColumn(|ids|, "docid");
      assert whereTagClause == Clauses.InClause("bookmark_id", |args|);
      assert whereContentClause == Clauses.InClause("docid", |args|);

      links := set l | l in links && !Selected(args, l.bookmarkId);
      contents := map k | k in contents && !Selected(args, k) :: contents[k];
      bookmarks := map k | k in bookmarks && !Selected(args, k) :: bookmarks[k];
      err := None;
    }

    /**
     * SearchBookmarks: build the keyword and tag filters, select the matching
     * rows in id order (descending with `orderLatest`), then fill in each
     * record's tags.
     */
    method SearchBookmarks(orderLatest: bool, keyword: string, names: seq<string>,
                           fullText: (ContentRow, string) -> bool) returns (books: seq<Bookmark>)
      requires Valid()
      ensures books == Queries.SearchBookmarks(State(), orderLatest, keyword, names, fullText)
    {
      var clause, args := Clauses.BuildSearchClause(keyword, names);
      var sel := Queries.SearchIds(State(), orderLatest, keyword, names, fullText);
      books := FillRecords(sel, false);
    }

    /**
     * UpdateBookmarks: rewrite each bookmark row and content row, detach the
     * tags marked deleted, resolve and attach the tags with id 0 by their raw
     * name, and return each bookmark with the deleted tags dropped.  A url
     * taken by another bookmark rolls the whole batch back.
     */
    method UpdateBookmarks(books: seq<Bookmark>) returns (result: seq<Bookmark>, err: Option<DbError>)
      requires Valid()
      modifies this
      ensures Valid()
      ensures var r := Effects.UpdateBookmarks(old(State()), books);
        && (r.Ok? ==>
              && State() == r.value && err == None
              && result == Effects.UpdatedBooks(books))
        && (r.Err? ==> State() == old(State()) && result == [] && err == Some(r.error))
    {
      var saved := State();
      var committed;
      result, committed := ApplyUpdates(books);
      if !committed {
        Restore(saved);
        result, err := [], Some(DuplicateUrl);
      } else {
        err := None;
      }
    }

    /**
     * The loop of UpdateBookmarks inside its transaction: stops at the first
     * bookmark whose url another bookmark holds, reporting that the batch
     * cannot commit.
     */
    method ApplyUpdates(books: seq<Bookmark>) returns (result: seq<Bookmark>, committed: bool)
      requires Valid()
      modifies this
      ensures Valid()
      ensures committed <==> Effects.UpdateBookmarks(old(State()), books).Ok?
      ensures committed ==>
        && Effects.UpdateBookmarks(old(State()), books) == Ok(State())
        && result == Effects.UpdatedBooks(books)
    {
      ghost var saved := State();
      result := [];
      for i := 0 to |books|
        invariant Effects.UpdateBookmarks(saved, books[..i]) == Ok(State())
        invariant result == Effects.UpdatedBooks(books[..i])
      {
        assert books[..i + 1][..i] == books[..i];
        Effects.UpdateBookmarksStep(saved, books, i, State());
        var updated, newTags := UpdateBookmark(books[i]);
        if !updated {
          Effects.UpdateBookmarksAtomic(saved, books, i + 1);
          return result, false;
        }
        result := result + [books[i].(tags := newTags)];
      }
      assert books[..|books|] == books;
      committed := true;
    }

    /**
     * One bookmark of UpdateBookmarks: its row, its content row, then its tag
     * loop; refused, with nothing changed, when another bookmark holds its url.
     */
    method UpdateBookmark(book: Bookmark) returns (updated: bool, newTags: seq<Tag>)
      requires Valid()
      modifies this
      ensures Valid()
      ensures updated <==> Effects.UpdateBookmark(old(State()), book).Ok?
      ensures updated ==> Effects.UpdateBookmark(old(State()), book) == Ok(State())
      ensures updated ==> newTags == Effects.KeptTags(book.tags)
      ensures !updated ==> State() == old(State())
    {
      if book.id in bookmarks && Effects.UrlTakenByOther(State(), book.url, book.id) {
        // the unique index on url rejects the update
        return false, [];
      }
      if book.id in bookmarks {
        bookmarks := bookmarks[book.id := Effects.RowOf(book)];
        contents := contents[book.id := ContentRow(book.title, book.content, book.html)];
      }
      assert Valid();
      newTags := UpdateTags(book.id, book.tags);
      updated := true;
    }

    /** The tag loop of UpdateBookmarks for one bookmark; returns the tags kept. */
    method UpdateTags(bookmarkId: int, bookTags: seq<Tag>) returns (newTags: seq<Tag>)
      requires Valid()
      modifies this
      ensures Valid()
      ensures State() == Effects.UpdateTags(old(State()), bookmarkId, bookTags)
      ensures newTags == Effects.KeptTags(bookTags)
    {
      ghost var start := State();
      newTags := [];
      for k := 0 to |bookTags|
        invariant Valid()
        invariant State() == Effects.UpdateTags(start, bookmarkId, bookTags[..k])
        invariant newTags == Effects.KeptTags(bookTags[..k])
      {
        assert bookTags[..k + 1][..k] == bookTags[..k];
        var tag := bookTags[k];
        if tag.deleted {
          DetachTag(bookmarkId, tag.id);
          continue;
        }
        if tag.id == 0 {
          var tagId := ResolveTag(tag.name);
          AttachTag(bookmarkId, tagId);
        }
        newTags := newTags + [tag];
      }
      assert bookTags[..|bookTags|] == bookTags;
    }

    // -------------------------------------------------------------------------
    // Accounts
    // -------------------------------------------------------------------------

    /**
     * CreateAccount: store the username with the hash of the password; a
     * username already stored is rejected and nothing changes.
     */
    method CreateAccount(username: string, password: string, hash: string -> string) returns (err: Option<DbError>)
      requires Valid()
      modifies this
      ensures Valid()
      ensures var r := Effects.CreateAccount(old(State()), username, password, hash);
        && (r.Ok? ==> State() == r.value && err == None)
        && (r.Err? ==> State() == old(State()) && err == Some(r.error))
    {
      var hashedPassword := hash(password);
      if Effects.UsernameTaken(State(), username) {
        return Some(DuplicateUsername);
      }
      accounts := accounts[nextAccountId := AccountRow(username, hashedPassword)];
      nextAccountId := nextAccountId + 1;
      err := None;
    }

    /** DeleteAccounts: remove the accounts under the WHERE clause built from `usernames`. */
    method DeleteAccounts(usernames: seq<string>) returns (err: Option<DbError>)
      requires Valid()
      modifies this
      ensures Valid()
      ensures State() == Effects.DeleteAccounts(old(State()), usernames)
      ensures err == None
    {
      var whereClause, args := Clauses.BuildInClause("username", usernames);
      accounts := map k | k in accounts && !Selected(args, accounts[k].username) :: accounts[k];
      err := None;
    }
  }
}
