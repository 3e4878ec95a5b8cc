// The effect of each mutating operation of database/postgresql.go on the five
// tables, as pure functions from the old state to the new one.  Every
// function keeps the schema constraints (Schema.Valid); the lemmas state what
// the operations promise across calls.

module Effects {
  import opened Schema
  import Text

  // ---------------------------------------------------------------------------
  // Tag rows and bookmark_tag rows
  // ---------------------------------------------------------------------------

  /**
   * `SELECT id FROM tag WHERE name = ?` read into a variable preset to -1:
   * the id of the tag called `name`, or -1 when no row matches.
   */
  function TagIdByName(t: Tables, name: string): (r: int)
    requires Valid(t)
    ensures r == -1 <==> name !in t.tags.Values
    ensures r != -1 ==> r in t.tags && t.tags[r] == name
  {
    if name in t.tags.Values then
      KeyOfExists(t.tags, name);
      var id :| id in t.tags && t.tags[id] == name; id
    else
      -1
  }

  /** A key under which `v` is stored. */
  lemma KeyOf(m: map<int, string>, v: string) returns (k: int)
    requires v in m.Values
    ensures k in m && m[k] == v
  {
    if forall j :: j in m ==> m[j] != v {
      assert false;
    }
    k :| k in m && m[k] == v;
  }

  lemma KeyOfExists(m: map<int, string>, v: string)
    requires v in m.Values
    ensures exists k :: k in m && m[k] == v
  {
    var k := KeyOf(m, v);
  }

  /** `INSERT INTO tag (name) VALUES (?)`: a new row under the next AUTO_INCREMENT id. */
  function InsertTag(t: Tables, name: string): (r: (Tables, int))
    requires Valid(t) && name !in t.tags.Values
    ensures Valid(r.0)
    ensures r.1 > 0 && r.1 !in t.tags
    ensures r.0.tags == t.tags[r.1 := name]
    ensures r.0 == t.(tags := r.0.tags, nextTagId := r.0.nextTagId)
  {
    var id := t.nextTagId;
    (t.(tags := t.tags[id := name], nextTagId := id + 1), id)
  }

  /**
   * Look `name` up and insert it when the lookup comes back -1: the id of the
   * tag called `name`, which exists afterwards; the tag table grows only when
   * the name was new.
   */
  function ResolveTag(t: Tables, name: string): (r: (Tables, int))
    requires Valid(t)
    ensures Valid(r.0)
    ensures r.1 in r.0.tags && r.0.tags[r.1] == name
    ensures r.0.tags.Values == t.tags.Values + {name}
    ensures name in t.tags.Values ==> r.0 == t
    ensures name !in t.tags.Values ==>
      && r.1 !in t.tags
      && r.0.tags == t.tags[r.1 := name]
      && r.0 == t.(tags := r.0.tags, nextTagId := r.0.nextTagId)
  {
    var id := TagIdByName(t, name);
    if id == -1 then
      ValuesOfFreshKey(t.tags, t.nextTagId, name);
      InsertTag(t, name)
    else (t, id)
  }

  /**
   * `INSERT IGNORE INTO bookmark_tag (tag_id, bookmark_id)`: the pair is
   * added unless it is already there or names a missing bookmark or tag, in
   * which case the statement is ignored.
   */
  function AttachTag(t: Tables, bookmarkId: int, tagId: int): (r: Tables)
    requires Valid(t)
    ensures Valid(r)
    ensures r == t.(links := r.links)
    ensures forall l :: l in r.links <==>
      l in t.links || (l == Link(bookmarkId, tagId) && bookmarkId in t.bookmarks && tagId in t.tags)
    ensures Link(bookmarkId, tagId) in t.links ==> r == t
  {
    if bookmarkId in t.bookmarks && tagId in t.tags then
      t.(links := t.links + {Link(bookmarkId, tagId)})
    else
      t
  }

  /** `DELETE FROM bookmark_tag WHERE bookmark_id = ? AND tag_id = ?`. */
  function DetachTag(t: Tables, bookmarkId: int, tagId: int): (r: Tables)
    requires Valid(t)
    ensures Valid(r)
    ensures r == t.(links := r.links)
    ensures forall l :: l in r.links <==> l in t.links && l != Link(bookmarkId, tagId)
  {
    t.(links := t.links - {Link(bookmarkId, tagId)})
  }

  /** `r` differs from `t` at most by new tag rows and new or removed bookmark_tag rows. */
  predicate SameRows(t: Tables, r: Tables)
  {
    && r.bookmarks == t.bookmarks
    && r.contents == t.contents
    && r.accounts == t.accounts
    && r.nextBookmarkId == t.nextBookmarkId
    && r.nextAccountId == t.nextAccountId
    && (forall x :: x in t.tags ==> x in r.tags && r.tags[x] == t.tags[x])
  }

  // ---------------------------------------------------------------------------
  // InsertBookmark
  // ---------------------------------------------------------------------------

  /** The normalised names of `tags`: each lower-cased, then trimmed. */
  function NormalizedNames(tags: seq<Tag>): set<string>
  {
    if tags == [] then {}
    else NormalizedNames(tags[..|tags| - 1]) + {Text.Normalize(tags[|tags| - 1].name)}
  }

  /**
   * The tag loop of InsertBookmark over `tags`: normalise each name, resolve
   * it to a tag id and attach it to the bookmark.
   */
  function InsertTags(t: Tables, bookmarkId: int, tags: seq<Tag>): (r: Tables)
    requires Valid(t)
    ensures Valid(r)
    ensures SameRows(t, r)
    ensures t.links <= r.links
  {
    if tags == [] then t
    else
      var prev := InsertTags(t, bookmarkId, tags[..|tags| - 1]);
      var p := ResolveTag(prev, Text.Normalize(tags[|tags| - 1].name));
      AttachTag(p.0, bookmarkId, p.1)
  }

  /** One pass of the insert tag loop: resolve `name`, then attach it to the bookmark. */
  lemma ResolveAttachStep(prev: Tables, bookmarkId: int, name: string)
    requires Valid(prev) && bookmarkId in prev.bookmarks
    ensures var p := ResolveTag(prev, name);
      var r := AttachTag(p.0, bookmarkId, p.1);
      && r.tags.Values == prev.tags.Values + {name}
      && (name in prev.tags.Values ==> r.tags == prev.tags)
      && (forall x :: x in r.tags && x !in prev.tags ==> r.tags[x] == name)
      && (forall x :: Link(bookmarkId, x) in r.links <==>
            Link(bookmarkId, x) in prev.links || (x in r.tags && r.tags[x] == name))
      && (forall l :: l in r.links && l.bookmarkId != bookmarkId ==> l in prev.links)
  {
    var p := ResolveTag(prev, name);
    if name !in prev.tags.Values {
      ValuesOfFreshKey(prev.tags, p.1, name);
    }
  }

  lemma ValuesOfFreshKey(m: map<int, string>, k: int, v: string)
    requires k !in m
    ensures m[k := v].Values == m.Values + {v}
  {
    var m' := m[k := v];
    forall w | w in m'.Values
      ensures w in m.Values + {v}
    {
      var j := KeyOf(m', w);
      if j != k {
        assert m[j] == w;
      }
    }
    forall w | w in m.Values
      ensures w in m'.Values
    {
      var j := KeyOf(m, w);
      assert m'[j] == w;
    }
    assert m'[k] == v;
  }

  /** After the tag loop the tag table holds its old names plus the normalised ones. */
  lemma {:induction false} InsertTagsNames(t: Tables, bookmarkId: int, tags: seq<Tag>)
    requires Valid(t) && bookmarkId in t.bookmarks
    ensures InsertTags(t, bookmarkId, tags).tags.Values == t.tags.Values + NormalizedNames(tags)
  {
    if tags != [] {
      var front := tags[..|tags| - 1];
      InsertTagsNames(t, bookmarkId, front);
      ResolveAttachStep(InsertTags(t, bookmarkId, front), bookmarkId, Text.Normalize(tags[|tags| - 1].name));
    }
  }

  /** The tag loop gives no tag to any bookmark but its own. */
  lemma {:induction false} InsertTagsOthers(t: Tables, bookmarkId: int, tags: seq<Tag>)
    requires Valid(t) && bookmarkId in t.bookmarks
    ensures forall l :: l in InsertTags(t, bookmarkId, tags).links && l.bookmarkId != bookmarkId ==> l in t.links
  {
    if tags != [] {
      var front := tags[..|tags| - 1];
      InsertTagsOthers(t, bookmarkId, front);
      ResolveAttachStep(InsertTags(t, bookmarkId, front), bookmarkId, Text.Normalize(tags[|tags| - 1].name));
    }
  }

  /**
   * After the tag loop the bookmark carries exactly its old tags plus the
   * tags whose names are the normalised names of `tags`.
   */
  lemma {:induction false} InsertTagsLinks(t: Tables, bookmarkId: int, tags: seq<Tag>)
    requires Valid(t) && bookmarkId in t.bookmarks
    ensures var r := InsertTags(t, bookmarkId, tags);
      forall x :: Link(bookmarkId, x) in r.links <==>
        Link(bookmarkId, x) in t.links || (x in r.tags && r.tags[x] in NormalizedNames(tags))
  {
    if tags != [] {
      var front := tags[..|tags| - 1];
      var name := Text.Normalize(tags[|tags| - 1].name);
      var prev := InsertTags(t, bookmarkId, front);
      InsertTagsLinks(t, bookmarkId, front);
      InsertTagsNames(t, bookmarkId, front);
      ResolveAttachStep(prev, bookmarkId, name);
      var r := InsertTags(t, bookmarkId, tags);
      forall x | x in r.tags && r.tags[x] in NormalizedNames(front)
        ensures x in prev.tags && prev.tags[x] == r.tags[x]
      {
        if x !in prev.tags {
          assert false;
        }
      }
    }
  }

  /** The `bookmark` row InsertBookmark writes, with the timestamp already chosen. */
  function NewRow(b: Bookmark, modified: string): BookmarkRow
  {
    BookmarkRow(b.url, b.title, b.imageUrl, b.excerpt, b.author, b.minReadTime, b.maxReadTime, modified)
  }

  /** Some bookmark row already holds `url`. */
  predicate UrlTaken(t: Tables, url: string)
  {
    exists id :: id in t.bookmarks && t.bookmarks[id].url == url
  }

  /** The `modified` value stored: the caller's, or the clock's when the caller left it empty. */
  function Stamp(b: Bookmark, now: string): string
  {
    if b.modified == "" then now else b.modified
  }

  /** The bookmark row and the content row InsertBookmark writes under the next id. */
  function InsertRows(t: Tables, b: Bookmark, now: string): (r: Tables)
    requires Valid(t) && !UrlTaken(t, b.url)
    ensures Valid(r)
  {
    var id := t.nextBookmarkId;
    t.(bookmarks := t.bookmarks[id := NewRow(b, Stamp(b, now))],
       contents := t.contents[id := ContentRow(b.title, b.content, b.html)],
       nextBookmarkId := id + 1)
  }

  /**
   * InsertBookmark: reject an empty url, then an empty title, then a url
   * already stored; otherwise add the bookmark row and its content row under
   * a fresh id and run the tag loop.  The result is the new state and the id.
   */
  function InsertBookmark(t: Tables, b: Bookmark, now: string): (r: Result<(Tables, int)>)
    requires Valid(t)
    ensures b.url == "" ==> r == Err(EmptyUrl)
    ensures b.url != "" && b.title == "" ==> r == Err(EmptyTitle)
    ensures r.Err? <==> b.url == "" || b.title == "" || UrlTaken(t, b.url)
    ensures r.Err? ==> r.error in {EmptyUrl, EmptyTitle, DuplicateUrl}
    ensures r.Ok? ==>
      var (s, id) := r.value;
      && Valid(s)
      && id > 0 && id !in t.bookmarks
      && s.bookmarks == t.bookmarks[id := NewRow(b, Stamp(b, now))]
      && s.contents == t.contents[id := ContentRow(b.title, b.content, b.html)]
      && s.accounts == t.accounts
      && s.tags.Values == t.tags.Values + NormalizedNames(b.tags)
      && (forall x :: x in t.tags ==> x in s.tags && s.tags[x] == t.tags[x])
      && (forall x :: Link(id, x) in s.links <==> x in s.tags && s.tags[x] in NormalizedNames(b.tags))
      && (forall l :: l in s.links && l.bookmarkId != id <==> l in t.links)
  {
    if b.url == "" then Err(EmptyUrl)
    else if b.title == "" then Err(EmptyTitle)
    else if UrlTaken(t, b.url) then Err(DuplicateUrl)
    else
      var id := t.nextBookmarkId;
      var t1 := InsertRows(t, b, now);
      InsertTagsNames(t1, id, b.tags);
      InsertTagsLinks(t1, id, b.tags);
      InsertTagsOthers(t1, id, b.tags);
      Ok((InsertTags(t1, id, b.tags), id))
  }

  // ---------------------------------------------------------------------------
  // UpdateBookmarks
  // ---------------------------------------------------------------------------

  /**
   * One pass of the tag loop of UpdateBookmarks: a tag marked deleted is
   * detached; a tag with id 0 is resolved by its raw name (no normalisation)
   * and attached; any other tag is left alone.
   */
  function UpdateTag(t: Tables, bookmarkId: int, tag: Tag): (r: Tables)
    requires Valid(t)
    ensures Valid(r)
    ensures SameRows(t, r)
    ensures tag.deleted ==> r == t.(links := t.links - {Link(bookmarkId, tag.id)})
    ensures !tag.deleted && tag.id == 0 ==>
      && r.tags.Values == t.tags.Values + {tag.name}
      && (forall l :: l in r.links <==>
            l in t.links || (bookmarkId in t.bookmarks && l == Link(bookmarkId, TagIdByName(r, tag.name))))
    ensures !tag.deleted && tag.id != 0 ==> r == t
  {
    if tag.deleted then DetachTag(t, bookmarkId, tag.id)
    else if tag.id == 0 then
      var p := ResolveTag(t, tag.name);
      AttachTag(p.0, bookmarkId, p.1)
    else t
  }

  /**
   * The tag loop of UpdateBookmarks over `tags`: it adds tag rows and changes
   * the bookmark_tag rows of bookmark `bookmarkId` only.
   */
  function UpdateTags(t: Tables, bookmarkId: int, tags: seq<Tag>): (r: Tables)
    requires Valid(t)
    ensures Valid(r)
    ensures SameRows(t, r)
    ensures forall l: Link :: l.bookmarkId != bookmarkId ==> (l in r.links <==> l in t.links)
  {
    if tags == [] then t
    else UpdateTag(UpdateTags(t, bookmarkId, tags[..|tags| - 1]), bookmarkId, tags[|tags| - 1])
  }

  /** The raw names of the tags the loop resolves and attaches: not deleted, id 0. */
  function AttachedNames(tags: seq<Tag>): set<string>
  {
    if tags == [] then {}
    else
      var last := tags[|tags| - 1];
      AttachedNames(tags[..|tags| - 1]) + (if !last.deleted && last.id == 0 then {last.name} else {})
  }

  /** After the tag loop the tag table holds its old names plus the raw names of the new tags. */
  lemma {:induction false} UpdateTagsNames(t: Tables, bookmarkId: int, tags: seq<Tag>)
    requires Valid(t)
    ensures UpdateTags(t, bookmarkId, tags).tags.Values == t.tags.Values + AttachedNames(tags)
  {
    if tags != [] {
      UpdateTagsNames(t, bookmarkId, tags[..|tags| - 1]);
    }
  }

  /**
   * When no tag is marked deleted, the tag loop leaves the bookmark with
   * exactly its old tags plus the tags named by the raw names of the tags
   * with id 0.
   */
  lemma {:induction false} UpdateTagsLinks(t: Tables, bookmarkId: int, tags: seq<Tag>)
    requires Valid(t) && bookmarkId in t.bookmarks
    requires forall i :: 0 <= i < |tags| ==> !tags[i].deleted
    ensures var r := UpdateTags(t, bookmarkId, tags);
      forall x :: Link(bookmarkId, x) in r.links <==>
        Link(bookmarkId, x) in t.links || (x in r.tags && r.tags[x] in AttachedNames(tags))
  {
    if tags != [] {
      var front := tags[..|tags| - 1];
      var last := tags[|tags| - 1];
      var prev := UpdateTags(t, bookmarkId, front);
      var r := UpdateTags(t, bookmarkId, tags);
      UpdateTagsLinks(t, bookmarkId, front);
      UpdateTagsNames(t, bookmarkId, front);
      if last.id == 0 {
        var id := TagIdByName(r, last.name);
        forall x | x in r.tags && r.tags[x] in AttachedNames(front)
          ensures x in prev.tags && prev.tags[x] == r.tags[x]
        {
          if x !in prev.tags {
            assert false;
          }
        }
        forall x | x in r.tags && r.tags[x] == last.name
          ensures x == id
        {
        }
      }
    }
  }

  /** The tags UpdateBookmarks returns for a bookmark: those not marked deleted, in order. */
  function KeptTags(tags: seq<Tag>): (r: seq<Tag>)
    ensures |r| <= |tags|
    ensures forall x :: x in r <==> x in tags && !x.deleted
  {
    if tags == [] then []
    else KeptTags(tags[..|tags| - 1]) + (if tags[|tags| - 1].deleted then [] else [tags[|tags| - 1]])
  }

  /** With no tag marked deleted every tag is kept, in order. */
  lemma {:induction false} KeptTagsNoneDeleted(tags: seq<Tag>)
    requires forall i :: 0 <= i < |tags| ==> !tags[i].deleted
    ensures KeptTags(tags) == tags
  {
    if tags != [] {
      var front, last := tags[..|tags| - 1], tags[|tags| - 1];
      assert !last.deleted;
      assert KeptTags(tags) == KeptTags(front) + [last];
      KeptTagsNoneDeleted(front);
      assert front + [last] == tags;
    }
  }

  /** Filtering a concatenation filters each part and keeps them in order. */
  lemma {:induction false} KeptTagsAppend(a: seq<Tag>, b: seq<Tag>)
    ensures KeptTags(a + b) == KeptTags(a) + KeptTags(b)
    decreases |b|
  {
    if b == [] {
      assert a + b == a;
    } else {
      var front := b[..|b| - 1];
      assert (a + b)[..|a + b| - 1] == a + front;
      KeptTagsAppend(a, front);
    }
  }

  /** The books UpdateBookmarks hands back: each with its deleted tags dropped, in order. */
  function UpdatedBooks(books: seq<Bookmark>): (r: seq<Bookmark>)
    ensures |r| == |books|
    ensures forall i :: 0 <= i < |r| ==> r[i] == books[i].(tags := KeptTags(books[i].tags))
  {
    if books == [] then []
    else
      var last := books[|books| - 1];
      UpdatedBooks(books[..|books| - 1]) + [last.(tags := KeptTags(last.tags))]
  }

  /** The `bookmark` row `UPDATE bookmark SET ... WHERE id = ?` writes. */
  function RowOf(b: Bookmark): BookmarkRow
  {
    BookmarkRow(b.url, b.title, b.imageUrl, b.excerpt, b.author, b.minReadTime, b.maxReadTime, b.modified)
  }

  /** A bookmark other than `id` already holds `url`. */
  predicate UrlTakenByOther(t: Tables, url: string, id: int)
  {
    exists j :: j in t.bookmarks && j != id && t.bookmarks[j].url == url
  }

  /**
   * One bookmark of UpdateBookmarks: update its row and its content row when
   * they exist (an UPDATE matching no row changes nothing), then run the tag
   * loop.  Fails when the new url belongs to another bookmark.
   */
  function UpdateBookmark(t: Tables, book: Bookmark): (r: Result<Tables>)
    requires Valid(t)
    ensures r.Err? <==> book.id in t.bookmarks && UrlTakenByOther(t, book.url, book.id)
    ensures r.Err? ==> r.error == DuplicateUrl
    ensures r.Ok? ==>
      && Valid(r.value)
      && r.value.bookmarks.Keys == t.bookmarks.Keys
      && (book.id in t.bookmarks ==>
            && r.value.bookmarks[book.id] == RowOf(book)
            && r.value.contents[book.id] == ContentRow(book.title, book.content, book.html))
      && (forall j :: j in t.bookmarks && j != book.id ==>
            r.value.bookmarks[j] == t.bookmarks[j] && r.value.contents[j] == t.contents[j])
      && r.value.accounts == t.accounts
      && (forall l: Link :: l.bookmarkId != book.id ==> (l in r.value.links <==> l in t.links))
  {
    if book.id in t.bookmarks && UrlTakenByOther(t, book.url, book.id) then Err(DuplicateUrl)
    else
      var t1 :=
        if book.id in t.bookmarks then
          t.(bookmarks := t.bookmarks[book.id := RowOf(book)],
             contents := t.contents[book.id := ContentRow(book.title, book.content, book.html)])
        else t;
      Ok(UpdateTags(t1, book.id, book.tags))
  }

  /**
   * UpdateBookmarks: the books in order inside one transaction; the first
   * failure aborts the whole batch.
   */
  function UpdateBookmarks(t: Tables, books: seq<Bookmark>): (r: Result<Tables>)
    requires Valid(t)
    ensures r.Ok? ==> Valid(r.value) && r.value.accounts == t.accounts
    ensures r.Ok? ==> r.value.bookmarks.Keys == t.bookmarks.Keys
    ensures r.Err? ==> r.error == DuplicateUrl
  {
    if books == [] then Ok(t)
    else
      match UpdateBookmarks(t, books[..|books| - 1])
      case Err(e) => Err(e)
      case Ok(t1) => UpdateBookmark(t1, books[|books| - 1])
  }

  /** The batch up to book `i` is the batch before it followed by book `i`. */
  lemma UpdateBookmarksStep(t: Tables, books: seq<Bookmark>, i: nat, s: Tables)
    requires Valid(t) && i < |books| && UpdateBookmarks(t, books[..i]) == Ok(s)
    ensures Valid(s)
    ensures UpdateBookmarks(t, books[..i + 1]) == UpdateBookmark(s, books[i])
  {
    assert books[..i + 1][..i] == books[..i];
  }

  /** No book of `books` names bookmark `id`. */
  predicate Unnamed(books: seq<Bookmark>, id: int)
  {
    forall i :: 0 <= i < |books| ==> books[i].id != id
  }

  /** A bookmark the batch does not name keeps its row, its content and its tags. */
  lemma {:induction false} UpdateBookmarksOthers(t: Tables, books: seq<Bookmark>, id: int)
    requires Valid(t) && UpdateBookmarks(t, books).Ok?
    requires id in t.bookmarks && Unnamed(books, id)
    ensures var r := UpdateBookmarks(t, books).value;
      && r.bookmarks[id] == t.bookmarks[id]
      && r.contents[id] == t.contents[id]
      && (forall x :: Link(id, x) in r.links <==> Link(id, x) in t.links)
  {
    if books != [] {
      var front := books[..|books| - 1];
      assert UpdateBookmarks(t, front).Ok?;
      UpdateBookmarksOthers(t, front, id);
    }
  }

  /**
   * A named bookmark that exists ends with the row and the content row of the
   * last book that names it.
   */
  lemma {:induction false} UpdateBookmarksLastWrite(t: Tables, books: seq<Bookmark>, i: nat)
    requires Valid(t) && UpdateBookmarks(t, books).Ok?
    requires i < |books| && books[i].id in t.bookmarks
    requires forall k :: i < k < |books| ==> books[k].id != books[i].id
    ensures var r := UpdateBookmarks(t, books).value;
      && r.bookmarks[books[i].id] == RowOf(books[i])
      && r.contents[books[i].id] == ContentRow(books[i].title, books[i].content, books[i].html)
  {
    var front := books[..|books| - 1];
    assert UpdateBookmarks(t, front).Ok?;
    if i < |books| - 1 {
      UpdateBookmarksLastWrite(t, front, i);
    }
  }

  /**
   * Book `k` is the one the batch stops at: the books before it went through
   * and its url belongs to another existing bookmark at that point.
   */
  predicate Refused(t: Tables, books: seq<Bookmark>, k: int)
    requires Valid(t)
  {
    && 0 <= k < |books|
    && var before := UpdateBookmarks(t, books[..k]);
    && before.Ok?
    && books[k].id in before.value.bookmarks
    && UrlTakenByOther(before.value, books[k].url, books[k].id)
  }

  /** The batch fails exactly when some book meets a url held by another bookmark. */
  lemma {:induction false} UpdateBookmarksFails(t: Tables, books: seq<Bookmark>)
    requires Valid(t)
    ensures UpdateBookmarks(t, books).Err? <==> exists k :: Refused(t, books, k)
  {
    if UpdateBookmarks(t, books).Err? {
      var n := |books| - 1;
      UpdateBookmarksFails(t, books[..n]);
      RefusedLast(t, books);
      if UpdateBookmarks(t, books[..n]).Err? {
        var k :| Refused(t, books[..n], k);
        RefusedPrefix(t, books, k);
        assert Refused(t, books, k);
      } else {
        assert Refused(t, books, n);
      }
    } else {
      forall k | 0 <= k < |books|
        ensures !Refused(t, books, k)
      {
        if Refused(t, books, k) {
          RefusedFails(t, books, k);
        }
      }
    }
  }

  /** A refused book makes the whole batch fail. */
  lemma RefusedFails(t: Tables, books: seq<Bookmark>, k: int)
    requires Valid(t) && Refused(t, books, k)
    ensures UpdateBookmarks(t, books).Err?
  {
    UpdateBookmarksStep(t, books, k, UpdateBookmarks(t, books[..k]).value);
    UpdateBookmarksAtomic(t, books, k + 1);
  }

  /** The last book is refused exactly when the books before it went through and the batch fails. */
  lemma RefusedLast(t: Tables, books: seq<Bookmark>)
    requires Valid(t) && books != []
    ensures var front := UpdateBookmarks(t, books[..|books| - 1]);
      && (front.Err? ==> UpdateBookmarks(t, books).Err?)
      && (Refused(t, books, |books| - 1) <==> front.Ok? && UpdateBookmarks(t, books).Err?)
  {
  }

  /** Whether book `k` is refused does not depend on the books after it. */
  lemma RefusedPrefix(t: Tables, books: seq<Bookmark>, k: int)
    requires Valid(t) && 0 <= k < |books| - 1
    ensures Refused(t, books[..|books| - 1], k) <==> Refused(t, books, k)
  {
    assert books[..|books| - 1][..k] == books[..k];
  }

  /** A batch whose prefix fails fails as a whole: no later book commits anything. */
  lemma {:induction false} UpdateBookmarksAtomic(t: Tables, books: seq<Bookmark>, k: nat)
    requires Valid(t) && k <= |books|
    requires UpdateBookmarks(t, books[..k]).Err?
    ensures UpdateBookmarks(t, books).Err?
    decreases |books|
  {
    if k < |books| {
      var front := books[..|books| - 1];
      assert front[..k] == books[..k];
      UpdateBookmarksAtomic(t, front, k);
    } else {
      assert books[..k] == books;
    }
  }

  // ---------------------------------------------------------------------------
  // DeleteBookmarks
  // ---------------------------------------------------------------------------

  /** `DELETE FROM bookmark_tag` under the WHERE clause built from `ids` (column bookmark_id). */
  function DeleteLinkRows(t: Tables, ids: seq<int>): (r: Tables)
    ensures r == t.(links := r.links)
    ensures forall l :: l in r.links <==> l in t.links && !Selected(ids, l.bookmarkId)
  {
    t.(links := set l | l in t.links && !Selected(ids, l.bookmarkId))
  }

  /** `DELETE FROM bookmark_content` under the WHERE clause built from `ids` (column docid). */
  function DeleteContentRows(t: Tables, ids: seq<int>): (r: Tables)
    ensures r == t.(contents := r.contents)
    ensures forall k :: k in r.contents <==> k in t.contents && !Selected(ids, k)
    ensures forall k :: k in r.contents ==> r.contents[k] == t.contents[k]
  {
    t.(contents := map k | k in t.contents && !Selected(ids, k) :: t.contents[k])
  }

  /** Some bookmark_tag or bookmark_content row still refers to bookmark `id`. */
  predicate Referenced(t: Tables, id: int)
  {
    id in t.contents || exists l :: l in t.links && l.bookmarkId == id
  }

  /**
   * `DELETE FROM bookmark` under the WHERE clause built from `ids`: refused
   * while a selected bookmark is still referenced by a child row, since both
   * child tables declare a foreign key to `bookmark(id)`.
   */
  function DeleteBookmarkRows(t: Tables, ids: seq<int>): (r: Result<Tables>)
    ensures r.Err? <==> exists id :: id in t.bookmarks && Selected(ids, id) && Referenced(t, id)
    ensures r.Err? ==> r.error == ForeignKeyViolation
    ensures r.Ok? ==> r.value == t.(bookmarks := r.value.bookmarks)
    ensures r.Ok? ==> forall k :: k in r.value.bookmarks <==> k in t.bookmarks && !Selected(ids, k)
    ensures r.Ok? ==> forall k :: k in r.value.bookmarks ==> r.value.bookmarks[k] == t.bookmarks[k]
  {
    if exists id :: id in t.bookmarks && Selected(ids, id) && Referenced(t, id) then
      Err(ForeignKeyViolation)
    else
      Ok(t.(bookmarks := map k | k in t.bookmarks && !Selected(ids, k) :: t.bookmarks[k]))
  }

  /** DeleteBookmarks as written: the `bookmark` rows go first, then their tags, then their content. */
  function DeleteAsWritten(t: Tables, ids: seq<int>): (r: Result<Tables>)
    ensures r.Err? <==> exists id :: id in t.bookmarks && Selected(ids, id) && Referenced(t, id)
    ensures r.Err? ==> r.error == ForeignKeyViolation
    ensures Valid(t) && r.Ok? ==> r.value == t
  {
    match DeleteBookmarkRows(t, ids)
    case Err(e) => Err(e)
    case Ok(t1) =>
      DeleteAsWrittenKeeps(t, ids);
      Ok(DeleteContentRows(DeleteLinkRows(t1, ids), ids))
  }

  /**
   * When the first statement goes through on a valid state, no existing
   * bookmark was selected, so none of the three statements removes a row.
   */
  lemma DeleteAsWrittenKeeps(t: Tables, ids: seq<int>)
    requires DeleteBookmarkRows(t, ids).Ok?
    ensures Valid(t) ==> DeleteContentRows(DeleteLinkRows(DeleteBookmarkRows(t, ids).value, ids), ids) == t
  {
    if Valid(t) {
      var t1 := DeleteBookmarkRows(t, ids).value;
      var r := DeleteContentRows(DeleteLinkRows(t1, ids), ids);
      forall k | k in t.bookmarks
        ensures !Selected(ids, k)
      {
        assert k in t.contents;
      }
      forall l | l in t.links
        ensures !Selected(ids, l.bookmarkId)
      {
        assert l.bookmarkId in t.bookmarks;
      }
      assert r.bookmarks == t.bookmarks;
      assert r.links == t.links;
      assert r.contents == t.contents;
    }
  }

  /**
   * In a valid state every bookmark has a content row, so the statement order
   * as written fails as soon as one existing bookmark is selected.
   */
  lemma DeleteAsWrittenFails(t: Tables, ids: seq<int>, id: int)
    requires Valid(t) && id in t.bookmarks && Selected(ids, id)
    ensures DeleteAsWritten(t, ids) == Err(ForeignKeyViolation)
  {
    assert Referenced(t, id);
  }

  /**
   * DeleteBookmarks with the child rows removed before their parents: the
   * selected ids leave `bookmark`, `bookmark_tag` and `bookmark_content`, and
   * nothing else changes.
   */
  function DeleteBookmarks(t: Tables, ids: seq<int>): (r: Tables)
    requires Valid(t)
    ensures Valid(r)
    ensures forall k :: k in r.bookmarks <==> k in t.bookmarks && !Selected(ids, k)
    ensures forall k :: k in r.bookmarks ==> r.bookmarks[k] == t.bookmarks[k] && r.contents[k] == t.contents[k]
    ensures forall l :: l in r.links <==> l in t.links && !Selected(ids, l.bookmarkId)
    ensures r.contents.Keys == r.bookmarks.Keys
    ensures r.tags == t.tags && r.accounts == t.accounts
    ensures r.nextBookmarkId == t.nextBookmarkId && r.nextTagId == t.nextTagId
    ensures r.nextAccountId == t.nextAccountId
  {
    var t2 := DeleteContentRows(DeleteLinkRows(t, ids), ids);
    var res := DeleteBookmarkRows(t2, ids);
    if res.Ok? then res.value else assert false; t
  }

  // ---------------------------------------------------------------------------
  // Accounts
  // ---------------------------------------------------------------------------

  /** Some account row already holds `username`. */
  predicate UsernameTaken(t: Tables, username: string)
  {
    exists id :: id in t.accounts && t.accounts[id].username == username
  }

  /**
   * CreateAccount: store `username` with the hash of `password` under a fresh
   * id; a username already stored violates the unique index.
   */
  function CreateAccount(t: Tables, username: string, password: string, hash: string -> string): (r: Result<Tables>)
    requires Valid(t)
    ensures r.Err? <==> UsernameTaken(t, username)
    ensures r.Err? ==> r.error == DuplicateUsername
    ensures r.Ok? ==>
      && Valid(r.value)
      && t.nextAccountId !in t.accounts
      && r.value.accounts == t.accounts[t.nextAccountId := AccountRow(username, hash(password))]
      && r.value == t.(accounts := r.value.accounts, nextAccountId := r.value.nextAccountId)
  {
    if UsernameTaken(t, username) then Err(DuplicateUsername)
    else
      var id := t.nextAccountId;
      Ok(t.(accounts := t.accounts[id := AccountRow(username, hash(password))], nextAccountId := id + 1))
  }

  /** DeleteAccounts: remove the accounts whose username falls under the WHERE clause built from `usernames`. */
  function DeleteAccounts(t: Tables, usernames: seq<string>): (r: Tables)
    requires Valid(t)
    ensures Valid(r)
    ensures r == t.(accounts := r.accounts)
    ensures forall k :: k in r.accounts <==> k in t.accounts && !Selected(usernames, t.accounts[k].username)
    ensures forall k :: k in r.accounts ==> r.accounts[k] == t.accounts[k]
  {
    t.(accounts := map k | k in t.accounts && !Selected(usernames, t.accounts[k].username) :: t.accounts[k])
  }
}
