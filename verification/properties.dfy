// Properties that relate several operations of the store: what a read returns
// after a write, and the behaviour of tag names across InsertBookmark and
// UpdateBookmarks.

module Properties {
  import opened Schema
  import Text
  import Order
  import Effects
  import Queries

  /** A freshly inserted bookmark carries exactly the tags named by its normalised tag names. */
  lemma InsertedTagNames(t: Tables, b: Bookmark, now: string)
    requires Valid(t) && Effects.InsertBookmark(t, b, now).Ok?
    ensures var (s, id) := Effects.InsertBookmark(t, b, now).value;
      Queries.CarriedNames(s, id) == Effects.NormalizedNames(b.tags)
  {
    var (s, id) := Effects.InsertBookmark(t, b, now).value;
    var names := Effects.NormalizedNames(b.tags);
    forall n | n in names
      ensures n in Queries.CarriedNames(s, id)
    {
      var x := Effects.KeyOf(s.tags, n);
      assert x in Queries.TagIdsOf(s, id);
    }
  }

  /** The singleton selection `[id]` of an existing bookmark is that bookmark alone. */
  lemma SelectOne(t: Tables, id: int)
    requires id in t.bookmarks
    ensures Queries.SelectedIds(t, [id]) == [id]
  {
    var sel := Queries.SelectedIds(t, [id]);
    assert (set k | k in t.bookmarks && Selected([id], k)) == {id};
    assert id in sel;
  }

  /**
   * Reading a bookmark back with its content after InsertBookmark returns
   * what was inserted: the caller's fields, the chosen timestamp, and its tags.
   */
  lemma InsertThenGet(t: Tables, b: Bookmark, now: string)
    requires Valid(t) && Effects.InsertBookmark(t, b, now).Ok?
    ensures var (s, id) := Effects.InsertBookmark(t, b, now).value;
      Queries.GetBookmarks(s, true, [id]) ==
        [Bookmark(id, b.url, b.title, b.imageUrl, b.excerpt, b.author, b.minReadTime, b.maxReadTime,
                  Effects.Stamp(b, now), b.content, b.html, Queries.TagsOf(s, id))]
  {
    var (s, id) := Effects.InsertBookmark(t, b, now).value;
    SelectOne(s, id);
  }

  /** After InsertBookmark, GetBookmarkID finds the new bookmark by its url. */
  lemma InsertThenGetId(t: Tables, b: Bookmark, now: string)
    requires Valid(t) && Effects.InsertBookmark(t, b, now).Ok?
    ensures var (s, id) := Effects.InsertBookmark(t, b, now).value;
      Queries.GetBookmarkID(s, b.url) == id
  {
    var (s, id) := Effects.InsertBookmark(t, b, now).value;
    assert s.bookmarks[id].url == b.url;
  }

  /** A second InsertBookmark with the same url fails and leaves the first in place. */
  lemma InsertSameUrlTwice(t: Tables, b: Bookmark, c: Bookmark, now: string)
    requires Valid(t) && Effects.InsertBookmark(t, b, now).Ok? && c.url == b.url && c.title != ""
    ensures var (s, _) := Effects.InsertBookmark(t, b, now).value;
      Effects.InsertBookmark(s, c, now) == Err(DuplicateUrl)
  {
    var (s, id) := Effects.InsertBookmark(t, b, now).value;
    assert s.bookmarks[id].url == c.url;
  }

  /** The bookmarks DeleteBookmarks removed are gone from every later GetBookmarks of the same ids. */
  lemma DeleteThenGet(t: Tables, ids: seq<int>, withContent: bool)
    requires Valid(t)
    ensures Queries.GetBookmarks(Effects.DeleteBookmarks(t, ids), withContent, ids) == []
  {
    var s := Effects.DeleteBookmarks(t, ids);
    assert (set k | k in s.bookmarks && Selected(ids, k)) == {};
  }

  /** Deleting bookmarks leaves the other bookmarks readable exactly as before, tags included. */
  lemma DeleteKeepsOthers(t: Tables, ids: seq<int>, k: int, withContent: bool)
    requires Valid(t) && k in t.bookmarks && !Selected(ids, k)
    ensures k in Effects.DeleteBookmarks(t, ids).bookmarks
    ensures Queries.View(Effects.DeleteBookmarks(t, ids), k, withContent) == Queries.View(t, k, withContent)
  {
    var s := Effects.DeleteBookmarks(t, ids);
    assert Queries.TagIdsOf(s, k) == Queries.TagIdsOf(t, k);
  }

  /**
   * Tag names differing only in case and surrounding white space resolve to
   * one tag on insert: inserting "Go " and "go" adds at most the name "go".
   */
  lemma InsertMergesEquivalentNames(t: Tables, bookmarkId: int)
    requires Valid(t) && bookmarkId in t.bookmarks
    ensures Effects.InsertTags(t, bookmarkId, [Tag(0, "Go ", false, 0), Tag(0, "go", false, 0)]).tags.Values
         == t.tags.Values + {"go"}
  {
    var tags := [Tag(0, "Go ", false, 0), Tag(0, "go", false, 0)];
    var first := tags[..1];
    assert first[..0] == [];
    assert Effects.NormalizedNames(first) == {Text.Normalize("Go ")};
    assert Effects.NormalizedNames(tags) == Effects.NormalizedNames(first) + {Text.Normalize("go")};
    Text.NormalizeCaseAndSpace();
    Effects.InsertTagsNames(t, bookmarkId, tags);
  }

  /**
   * UpdateBookmarks resolves new tags by their raw name: with "go" stored,
   * a new tag "Go " becomes a second tag instead of reusing "go".
   */
  lemma UpdateKeepsRawName(t: Tables, bookmarkId: int)
    requires Valid(t) && "go" in t.tags.Values && "Go " !in t.tags.Values
    ensures var r := Effects.UpdateTag(t, bookmarkId, Tag(0, "Go ", false, 0));
      && r.tags.Values == t.tags.Values + {"Go "}
      && Effects.TagIdByName(r, "Go ") != Effects.TagIdByName(r, "go")
  {
    var p := Effects.ResolveTag(t, "Go ");
    Effects.ValuesOfFreshKey(t.tags, p.1, "Go ");
  }

  /** The example used below: a bookmark without tags. */
  const EXAMPLE: Bookmark := Bookmark(0, "https://example.com", "Example", "", "", "", 0, 0, "", "", "", [])

  /**
   * DeleteBookmarks as written fails on the first bookmark ever inserted,
   * while the child-first order removes it.
   */
  lemma DeleteAsWrittenExample()
    ensures Effects.InsertBookmark(EMPTY, EXAMPLE, "2019-01-01 00:00:00").Ok?
    ensures Effects.InsertBookmark(EMPTY, EXAMPLE, "2019-01-01 00:00:00").value.1 == 1
    ensures var s := Effects.InsertBookmark(EMPTY, EXAMPLE, "2019-01-01 00:00:00").value.0;
      && Effects.DeleteAsWritten(s, [1]) == Err(ForeignKeyViolation)
      && Effects.DeleteBookmarks(s, [1]).bookmarks == map[]
  {
    var r := Effects.InsertBookmark(EMPTY, EXAMPLE, "2019-01-01 00:00:00");
    assert !Effects.UrlTaken(EMPTY, EXAMPLE.url);
    var s := r.value.0;
    Effects.DeleteAsWrittenFails(s, [1], 1);
    assert Effects.DeleteBookmarks(s, [1]).bookmarks.Keys == {};
  }

  /**
   * A second CreateAccount with the same username fails, and GetAccount
   * returns the first account with the hash of the first password.
   */
  lemma CreateAccountTwice(t: Tables, username: string, first: string, second: string, hash: string -> string)
    requires Valid(t) && Effects.CreateAccount(t, username, first, hash).Ok?
    ensures var s := Effects.CreateAccount(t, username, first, hash).value;
      && Effects.CreateAccount(s, username, second, hash) == Err(DuplicateUsername)
      && Queries.GetAccount(s, username) == Ok(Account(t.nextAccountId, username, hash(first)))
  {
    var s := Effects.CreateAccount(t, username, first, hash).value;
    assert s.accounts[t.nextAccountId].username == username;
  }

  /** An account named in DeleteAccounts can no longer be fetched. */
  lemma DeleteAccountThenGet(t: Tables, usernames: seq<string>, username: string)
    requires Valid(t) && username in usernames
    ensures Queries.GetAccount(Effects.DeleteAccounts(t, usernames), username) == Err(NoRows)
  {
  }
}
