// The read-only queries of database/postgresql.go as functions of the state:
// the bookmark views GetBookmarks and SearchBookmarks assemble, the search
// filters, and the account, tag and id queries.

module Queries {
  import opened Schema
  import Text
  import Order

  // ---------------------------------------------------------------------------
  // Bookmark views
  // ---------------------------------------------------------------------------

  /** The ids of the tags bookmark `id` carries. */
  function TagIdsOf(t: Tables, id: int): set<int>
  {
    set x | x in t.tags && Link(id, x) in t.links
  }

  /** The bookmarks carrying tag `x`. */
  function BookmarksWith(t: Tables, x: int): set<int>
  {
    set b | b in t.bookmarks && Link(b, x) in t.links
  }

  /** How many bookmarks carry tag `x`. */
  function Frequency(t: Tables, x: int): nat
  {
    |BookmarksWith(t, x)|
  }

  /** Tag records for `ids`, named from the tag table. */
  function TagRecords(t: Tables, ids: seq<int>, counted: bool): (r: seq<Tag>)
    requires forall i :: 0 <= i < |ids| ==> ids[i] in t.tags
    ensures |r| == |ids|
    ensures forall i :: 0 <= i < |r| ==>
      r[i] == Tag(ids[i], t.tags[ids[i]], false, if counted then Frequency(t, ids[i]) else 0)
    ensures forall k :: k in ids ==> exists i :: 0 <= i < |r| && r[i].id == k
  {
    var r := seq(|ids|, i requires 0 <= i < |ids| =>
      Tag(ids[i], t.tags[ids[i]], false, if counted then Frequency(t, ids[i]) else 0));
    assert forall k :: k in ids ==> exists i :: 0 <= i < |r| && r[i].id == k by {
      forall k | k in ids
        ensures exists i :: 0 <= i < |r| && r[i].id == k
      {
        var i := Order.IndexOf(ids, k);
        assert r[i].id == k;
      }
    }
    r
  }

  /**
   * `SELECT t.id, t.name FROM bookmark_tag bt LEFT JOIN tag t ... WHERE
   * bt.bookmark_id = ? ORDER BY t.name`: the tags of bookmark `id`, each
   * once, by ascending name.
   */
  function TagsOf(t: Tables, id: int): (r: seq<Tag>)
    requires Valid(t)
    ensures |r| == |TagIdsOf(t, id)|
    ensures forall i :: 0 <= i < |r| ==> r[i].id in TagIdsOf(t, id) && r[i] == Tag(r[i].id, t.tags[r[i].id], false, 0)
    ensures forall x :: x in TagIdsOf(t, id) ==> exists i :: 0 <= i < |r| && r[i].id == x
    ensures forall i, j :: 0 <= i < j < |r| ==> r[i].id != r[j].id && Order.StrLe(r[i].name, r[j].name)
  {
    var ids := Order.ByKey(TagIdsOf(t, id), t.tags);
    TagRecords(t, ids, false)
  }

  /** The names of the tags bookmark `id` carries. */
  function CarriedNames(t: Tables, id: int): set<string>
    requires Valid(t)
  {
    set x | x in TagIdsOf(t, id) :: t.tags[x]
  }

  /** The columns the first SELECT of GetBookmarks and SearchBookmarks reads from `bookmark`. */
  function RowView(t: Tables, id: int): Bookmark
    requires id in t.bookmarks
  {
    var row := t.bookmarks[id];
    Bookmark(id, row.url, row.title, row.imageUrl, row.excerpt, row.author,
             row.minReadTime, row.maxReadTime, row.modified, "", "", [])
  }

  /**
   * The record the per-row loop leaves for bookmark `id`: its tags, and with
   * `withContent` the title, content and html of its content row.
   */
  function View(t: Tables, id: int, withContent: bool): (r: Bookmark)
    requires Valid(t) && id in t.bookmarks
    ensures r.id == id && r.tags == TagsOf(t, id)
    ensures var row := t.bookmarks[id];
      && r.url == row.url && r.imageUrl == row.imageUrl && r.excerpt == row.excerpt
      && r.author == row.author && r.minReadTime == row.minReadTime
      && r.maxReadTime == row.maxReadTime && r.modified == row.modified
    ensures withContent ==>
      var c := t.contents[id];
      r.title == c.title && r.content == c.content && r.html == c.html
    ensures !withContent ==> r.title == t.bookmarks[id].title && r.content == "" && r.html == ""
  {
    var b := RowView(t, id).(tags := TagsOf(t, id));
    if withContent && id in t.contents then
      var c := t.contents[id];
      b.(title := c.title, content := c.content, html := c.html)
    else b
  }

  /** The records for the bookmarks `ids`, in that order. */
  function Views(t: Tables, ids: seq<int>, withContent: bool): (r: seq<Bookmark>)
    requires Valid(t) && forall k :: k in ids ==> k in t.bookmarks
    ensures |r| == |ids|
    ensures forall i :: 0 <= i < |r| ==> r[i].id == ids[i] && r[i] == View(t, ids[i], withContent)
  {
    seq(|ids|, i requires 0 <= i < |ids| => View(t, ids[i], withContent))
  }

  /** The ids under the WHERE clause built from `ids`, in primary-key order. */
  function SelectedIds(t: Tables, ids: seq<int>): (r: seq<int>)
    ensures forall k :: k in r <==> k in t.bookmarks && Selected(ids, k)
    ensures Order.Increasing(r)
  {
    Order.Ascending(set k | k in t.bookmarks && Selected(ids, k))
  }

  /**
   * GetBookmarks: one record per selected bookmark, in ascending id order.
   */
  function GetBookmarks(t: Tables, withContent: bool, ids: seq<int>): (r: seq<Bookmark>)
    requires Valid(t)
    ensures forall i :: 0 <= i < |r| ==> r[i].id in t.bookmarks && Selected(ids, r[i].id)
    ensures forall i, j :: 0 <= i < j < |r| ==> r[i].id < r[j].id
    ensures forall i :: 0 <= i < |r| ==> r[i] == View(t, r[i].id, withContent)
  {
    Views(t, SelectedIds(t, ids), withContent)
  }

  /** Every bookmark under the WHERE clause is returned by GetBookmarks. */
  lemma GetBookmarksComplete(t: Tables, withContent: bool, ids: seq<int>, k: int)
    requires Valid(t) && k in t.bookmarks && Selected(ids, k)
    ensures exists i :: 0 <= i < |GetBookmarks(t, withContent, ids)| && GetBookmarks(t, withContent, ids)[i].id == k
  {
    var sel := SelectedIds(t, ids);
    var i := Order.IndexOf(sel, k);
    assert GetBookmarks(t, withContent, ids)[i].id == k;
  }

  // ---------------------------------------------------------------------------
  // SearchBookmarks
  // ---------------------------------------------------------------------------

  /**
   * The keyword filter: an empty keyword keeps every bookmark; otherwise the
   * url contains the keyword or the content row matches it in full text.
   */
  predicate KeywordMatch(t: Tables, id: int, keyword: string, fullText: (ContentRow, string) -> bool)
    requires id in t.bookmarks
    ensures KeywordMatch(t, id, keyword, fullText) <==>
      || keyword == ""
      || (exists i :: Text.OccursAt(t.bookmarks[id].url, keyword, i))
      || (id in t.contents && fullText(t.contents[id], keyword))
  {
    Text.ContainsAt(t.bookmarks[id].url, keyword);
    || keyword == ""
    || Text.Contains(t.bookmarks[id].url, keyword)
    || (id in t.contents && fullText(t.contents[id], keyword))
  }

  /** The bookmark_tag rows of bookmark `id` whose tag name is one of `names`. */
  function CountedTags(t: Tables, id: int, names: seq<string>): set<int>
  {
    set x | x in t.tags && Link(id, x) in t.links && t.tags[x] in names
  }

  /**
   * The tag filter: no names keep every bookmark; otherwise `COUNT(bookmark_id)`
   * over the matching bookmark_tag rows must reach `len(tags)`.
   */
  predicate TagMatch(t: Tables, id: int, names: seq<string>)
    ensures |names| == 0 ==> TagMatch(t, id, names)
    ensures TagMatch(t, id, names) && |names| > 0 ==>
      exists x :: x in t.tags && Link(id, x) in t.links && t.tags[x] in names
  {
    |names| == 0 || |CountedTags(t, id, names)| >= |names|
  }

  /** Both filters of SearchBookmarks, ANDed, with the keyword already trimmed. */
  predicate SearchMatch(t: Tables, id: int, keyword: string, names: seq<string>, fullText: (ContentRow, string) -> bool)
    requires id in t.bookmarks
  {
    KeywordMatch(t, id, keyword, fullText) && TagMatch(t, id, names)
  }

  /** The ids SearchBookmarks returns: ascending, or descending with `orderLatest`. */
  function SearchIds(t: Tables, orderLatest: bool, keyword: string, names: seq<string>,
                     fullText: (ContentRow, string) -> bool): (r: seq<int>)
    ensures forall k :: k in r <==> k in t.bookmarks && SearchMatch(t, k, Text.TrimSpace(keyword), names, fullText)
    ensures orderLatest ==> Order.Decreasing(r)
    ensures !orderLatest ==> Order.Increasing(r)
  {
    var kw := Text.TrimSpace(keyword);
    var s := set k | k in t.bookmarks && SearchMatch(t, k, kw, names, fullText);
    if orderLatest then Order.Descending(s) else Order.Ascending(s)
  }

  /** SearchBookmarks: the matching bookmarks with their tags, without content. */
  function SearchBookmarks(t: Tables, orderLatest: bool, keyword: string, names: seq<string>,
                           fullText: (ContentRow, string) -> bool): (r: seq<Bookmark>)
    requires Valid(t)
    ensures forall i :: 0 <= i < |r| ==>
      && r[i].id in t.bookmarks
      && SearchMatch(t, r[i].id, Text.TrimSpace(keyword), names, fullText)
      && r[i] == View(t, r[i].id, false)
    ensures forall i, j :: 0 <= i < j < |r| ==> if orderLatest then r[i].id > r[j].id else r[i].id < r[j].id
  {
    Views(t, SearchIds(t, orderLatest, keyword, names, fullText), false)
  }

  /** Every matching bookmark is returned by SearchBookmarks. */
  lemma SearchBookmarksComplete(t: Tables, orderLatest: bool, keyword: string, names: seq<string>,
                                fullText: (ContentRow, string) -> bool, k: int)
    requires Valid(t) && k in t.bookmarks && SearchMatch(t, k, Text.TrimSpace(keyword), names, fullText)
    ensures var r := SearchBookmarks(t, orderLatest, keyword, names, fullText);
      exists i :: 0 <= i < |r| && r[i].id == k
  {
    var i := Order.IndexOf(SearchIds(t, orderLatest, keyword, names, fullText), k);
    assert SearchBookmarks(t, orderLatest, keyword, names, fullText)[i].id == k;
  }

  /** Surrounding white space in the keyword does not change the result. */
  lemma SearchIgnoresKeywordSpace(t: Tables, orderLatest: bool, keyword: string, names: seq<string>,
                                  fullText: (ContentRow, string) -> bool)
    requires Valid(t)
    ensures SearchBookmarks(t, orderLatest, Text.TrimSpace(keyword), names, fullText)
         == SearchBookmarks(t, orderLatest, keyword, names, fullText)
  {
    Text.TrimSpaceIdempotent(keyword);
  }

  // Cardinality facts behind the tag filter.

  lemma {:induction false} SubsetCard<T>(a: set<T>, b: set<T>)
    requires a <= b
    ensures |a| <= |b|
    ensures |a| == |b| ==> a == b
    decreases |b|
  {
    if exists x :: x in b && x !in a {
      var x :| x in b && x !in a;
      SubsetCard(a, b - {x});
    } else {
      assert a == b;
    }
  }

  /** Distinct names of a sequence. */
  function NameSet(names: seq<string>): set<string>
  {
    set n | n in names
  }

  predicate Distinct(names: seq<string>)
  {
    forall i, j :: 0 <= i < j < |names| ==> names[i] != names[j]
  }

  lemma {:induction false} NameSetCard(names: seq<string>)
    ensures |NameSet(names)| <= |names|
    ensures |NameSet(names)| == |names| <==> Distinct(names)
  {
    if names != [] {
      var front := names[..|names| - 1];
      var last := names[|names| - 1];
      NameSetCard(front);
      assert NameSet(names) == NameSet(front) + {last};
      if last in front {
        assert !Distinct(names) by {
          var i :| 0 <= i < |front| && front[i] == last;
          assert names[i] == names[|names| - 1];
        }
      } else {
        if Distinct(names) {
          assert Distinct(front) by {
            forall i, j | 0 <= i < j < |front|
              ensures front[i] != front[j]
            {
              assert names[i] == front[i] && names[j] == front[j];
            }
          }
        }
        if Distinct(front) {
          forall i, j | 0 <= i < j < |names|
            ensures names[i] != names[j]
          {
            if j < |front| {
              assert names[i] == front[i] && names[j] == front[j];
            } else {
              assert names[i] in front;
            }
          }
        }
      }
    }
  }

  /** Tag names are unique, so a set of tag ids has as many names as ids. */
  lemma {:induction false} ImageCard(ids: set<int>, m: map<int, string>)
    requires ids <= m.Keys && UniqueNames(m)
    ensures |set x | x in ids :: m[x]| == |ids|
    decreases |ids|
  {
    if ids != {} {
      var y := Order.Element(ids);
      var rest := ids - {y};
      ImageCard(rest, m);
      var img := set x | x in ids :: m[x];
      var imgRest := set x | x in rest :: m[x];
      assert img == imgRest + {m[y]};
      assert m[y] !in imgRest;
    }
  }

  /** The counted bookmark_tag rows number the requested names the bookmark carries. */
  lemma CountedTagsCard(t: Tables, id: int, names: seq<string>)
    requires Valid(t)
    ensures |CountedTags(t, id, names)| == |CarriedNames(t, id) * NameSet(names)|
  {
    var counted := CountedTags(t, id, names);
    ImageCard(counted, t.tags);
    assert (set x | x in counted :: t.tags[x]) == CarriedNames(t, id) * NameSet(names);
  }

  /**
   * With distinct names, the tag filter keeps exactly the bookmarks that
   * carry every requested tag.
   */
  lemma TagMatchDistinct(t: Tables, id: int, names: seq<string>)
    requires Valid(t) && Distinct(names)
    ensures TagMatch(t, id, names) <==> NameSet(names) <= CarriedNames(t, id)
  {
    CountedTagsCard(t, id, names);
    NameSetCard(names);
    var both := CarriedNames(t, id) * NameSet(names);
    SubsetCard(both, NameSet(names));
    if NameSet(names) <= CarriedNames(t, id) {
      assert both == NameSet(names);
    }
  }

  /**
   * A name requested twice makes the filter unsatisfiable: the count of
   * distinct matching tags can never reach `len(tags)`.
   */
  lemma TagMatchDuplicate(t: Tables, id: int, names: seq<string>)
    requires Valid(t) && !Distinct(names)
    ensures !TagMatch(t, id, names)
  {
    CountedTagsCard(t, id, names);
    NameSetCard(names);
    SubsetCard(CarriedNames(t, id) * NameSet(names), NameSet(names));
  }

  // ---------------------------------------------------------------------------
  // Accounts
  // ---------------------------------------------------------------------------

  /**
   * GetAccount: the account stored under `username`, or the no-rows error
   * `db.Get` reports when there is none.
   */
  function GetAccount(t: Tables, username: string): (r: Result<Account>)
    requires Valid(t)
    ensures r.Err? <==> !(exists id :: id in t.accounts && t.accounts[id].username == username)
    ensures r.Err? ==> r.error == NoRows
    ensures r.Ok? ==>
      && r.value.username == username
      && r.value.id in t.accounts
      && t.accounts[r.value.id] == AccountRow(username, r.value.password)
  {
    if exists id :: id in t.accounts && t.accounts[id].username == username then
      var id :| id in t.accounts && t.accounts[id].username == username;
      Ok(Account(id, username, t.accounts[id].password))
    else
      Err(NoRows)
  }

  /** The usernames keyed by account id, the sort key of `ORDER BY username`. */
  function Usernames(t: Tables): (r: map<int, string>)
    ensures r.Keys == t.accounts.Keys
    ensures forall k :: k in r ==> r[k] == t.accounts[k].username
  {
    map k | k in t.accounts :: t.accounts[k].username
  }

  /** The accounts `WHERE username LIKE '%keyword%'` keeps; all of them without a keyword. */
  function AccountHits(t: Tables, keyword: string): set<int>
  {
    set k | k in t.accounts && (keyword == "" || Text.Contains(t.accounts[k].username, keyword))
  }

  /** Account records for `ids`, read from the account table. */
  function AccountRecords(t: Tables, ids: seq<int>): (r: seq<Account>)
    requires forall i :: 0 <= i < |ids| ==> ids[i] in t.accounts
    ensures |r| == |ids|
    ensures forall i :: 0 <= i < |r| ==>
      r[i] == Account(ids[i], t.accounts[ids[i]].username, t.accounts[ids[i]].password)
    ensures forall k :: k in ids ==> exists i :: 0 <= i < |r| && r[i].id == k
  {
    var r := seq(|ids|, i requires 0 <= i < |ids| => Account(ids[i], t.accounts[ids[i]].username, t.accounts[ids[i]].password));
    assert forall k :: k in ids ==> exists i :: 0 <= i < |r| && r[i].id == k by {
      forall k | k in ids
        ensures exists i :: 0 <= i < |r| && r[i].id == k
      {
        var i := Order.IndexOf(ids, k);
        assert r[i].id == k;
      }
    }
    r
  }

  /**
   * GetAccounts: every account, or with a keyword those whose username
   * contains it, by ascending username.
   */
  function GetAccounts(t: Tables, keyword: string): (r: seq<Account>)
    requires Valid(t)
    ensures forall i :: 0 <= i < |r| ==>
      && r[i].id in AccountHits(t, keyword)
      && t.accounts[r[i].id] == AccountRow(r[i].username, r[i].password)
    ensures forall k :: k in AccountHits(t, keyword) ==> exists i :: 0 <= i < |r| && r[i].id == k
    ensures forall i, j :: 0 <= i < j < |r| ==> r[i].id != r[j].id && Order.StrLe(r[i].username, r[j].username)
  {
    var names := Usernames(t);
    var hits := AccountHits(t, keyword);
    var ids := Order.ByKey(hits, names);
    AccountRecords(t, ids)
  }

  // ---------------------------------------------------------------------------
  // Tags
  // ---------------------------------------------------------------------------

  /** The tags at least one bookmark_tag row refers to. */
  function UsedTags(t: Tables): (r: set<int>)
    requires Valid(t)
    ensures r <= t.tags.Keys
  {
    set l | l in t.links :: l.tagId
  }

  /** A tag in use is carried by at least one bookmark. */
  lemma UsedTagCounted(t: Tables, x: int)
    requires Valid(t) && x in UsedTags(t)
    ensures Frequency(t, x) > 0
  {
    var l :| l in t.links && l.tagId == x;
    assert l == Link(l.bookmarkId, x);
    assert l.bookmarkId in BookmarksWith(t, x);
  }

  /**
   * GetTags: one record per tag in use, with the number of bookmarks that
   * carry it, by ascending name.
   */
  function GetTags(t: Tables): (r: seq<Tag>)
    requires Valid(t)
    ensures forall i :: 0 <= i < |r| ==>
      && r[i].id in UsedTags(t)
      && r[i] == Tag(r[i].id, t.tags[r[i].id], false, Frequency(t, r[i].id))
    ensures forall x :: x in UsedTags(t) ==> exists i :: 0 <= i < |r| && r[i].id == x
    ensures forall i, j :: 0 <= i < j < |r| ==> r[i].id != r[j].id && Order.StrLe(r[i].name, r[j].name)
  {
    var ids := Order.ByKey(UsedTags(t), t.tags);
    TagRecords(t, ids, true)
  }

  /** Every tag GetTags lists is carried by at least one bookmark. */
  lemma GetTagsCounted(t: Tables)
    requires Valid(t)
    ensures forall i :: 0 <= i < |GetTags(t)| ==> GetTags(t)[i].nBookmarks > 0
  {
    var r := GetTags(t);
    forall i | 0 <= i < |r|
      ensures r[i].nBookmarks > 0
    {
      UsedTagCounted(t, r[i].id);
    }
  }

  // ---------------------------------------------------------------------------
  // Ids
  // ---------------------------------------------------------------------------

  /** The tables GetNewID can be asked about. */
  datatype Table = AccountTable | BookmarkTable | TagTable | BookmarkTagTable | BookmarkContentTable

  /** `IFNULL(MAX(id) + 1, 1)`. */
  function MaxPlusOne(ids: set<int>): (r: int)
    ensures ids == {} ==> r == 1
    ensures ids != {} ==> r - 1 in ids && forall k :: k in ids ==> k < r
  {
    var s := Order.Ascending(ids);
    if s == [] then 1
    else
      assert forall k :: k in ids ==> k <= s[|s| - 1] by {
        forall k | k in ids
          ensures k <= s[|s| - 1]
        {
          var i :| 0 <= i < |s| && s[i] == k;
        }
      }
      s[|s| - 1] + 1
  }

  /**
   * GetNewID: one more than the largest id of the table, 1 when it is empty;
   * bookmark_tag and bookmark_content have no `id` column, so the query fails.
   */
  function GetNewID(t: Tables, table: Table): (r: Result<int>)
    ensures r.Err? <==> table == BookmarkTagTable || table == BookmarkContentTable
    ensures r.Err? ==> r.error == UnknownColumn
    ensures table == AccountTable ==>
      (forall k :: k in t.accounts ==> k < r.value) && (r.value == 1 || r.value - 1 in t.accounts)
    ensures table == BookmarkTable ==>
      (forall k :: k in t.bookmarks ==> k < r.value) && (r.value == 1 || r.value - 1 in t.bookmarks)
    ensures table == TagTable ==>
      (forall k :: k in t.tags ==> k < r.value) && (r.value == 1 || r.value - 1 in t.tags)
    ensures table == AccountTable && t.accounts == map[] ==> r == Ok(1)
    ensures table == BookmarkTable && t.bookmarks == map[] ==> r == Ok(1)
    ensures table == TagTable && t.tags == map[] ==> r == Ok(1)
  {
    match table
    case AccountTable => Ok(MaxPlusOne(t.accounts.Keys))
    case BookmarkTable => Ok(MaxPlusOne(t.bookmarks.Keys))
    case TagTable => Ok(MaxPlusOne(t.tags.Keys))
    case BookmarkTagTable => Err(UnknownColumn)
    case BookmarkContentTable => Err(UnknownColumn)
  }

  /** GetNewID never runs ahead of AUTO_INCREMENT: it is at most the next id the table assigns. */
  lemma GetNewIdBounded(t: Tables)
    requires Valid(t)
    ensures GetNewID(t, BookmarkTable).value <= t.nextBookmarkId
    ensures GetNewID(t, TagTable).value <= t.nextTagId
    ensures GetNewID(t, AccountTable).value <= t.nextAccountId
  {
    assert GetNewID(t, BookmarkTable) == Ok(MaxPlusOne(t.bookmarks.Keys));
    assert GetNewID(t, TagTable) == Ok(MaxPlusOne(t.tags.Keys));
    assert GetNewID(t, AccountTable) == Ok(MaxPlusOne(t.accounts.Keys));
    MaxPlusOneBelow(t.bookmarks.Keys, t.nextBookmarkId);
    MaxPlusOneBelow(t.tags.Keys, t.nextTagId);
    MaxPlusOneBelow(t.accounts.Keys, t.nextAccountId);
  }

  lemma MaxPlusOneBelow(ids: set<int>, next: int)
    requires 0 < next && forall k :: k in ids ==> k < next
    ensures MaxPlusOne(ids) <= next
  {
    if ids != {} {
      assert MaxPlusOne(ids) - 1 in ids;
    }
  }

  /** GetBookmarkID: the id of the bookmark stored under `url`, 0 when there is none. */
  function GetBookmarkID(t: Tables, url: string): (r: int)
    requires Valid(t)
    ensures r == 0 <==> !(exists id :: id in t.bookmarks && t.bookmarks[id].url == url)
    ensures r != 0 ==> r in t.bookmarks && t.bookmarks[r].url == url
  {
    if exists id :: id in t.bookmarks && t.bookmarks[id].url == url then
      var id :| id in t.bookmarks && t.bookmarks[id].url == url; id
    else 0
  }
}
