# Bookmark store: a verified model of the MySQL storage adapter

This project models the storage adapter of the shiori bookmark manager (`database/postgresql.go`). Despite the file name, the adapter writes MySQL-flavoured SQL. It keeps bookmarks, their tags and their extracted content, and user accounts, in five tables:

- `account`
- `bookmark`
- `tag`
- `bookmark_tag`
- `bookmark_content`

**Modules:**

- `Schema`: the table rows and the records the adapter exchanges with callers. The schema constraints become one invariant, `Schema.Valid`:
  - unique url, tag name and username;
  - the `bookmark_tag` keys and their foreign keys;
  - one content row per bookmark;
  - the AUTO_INCREMENT counters.
- `Text`: the string handling the adapter relies on:
  - `strings.ToLower`;
  - `strings.TrimSpace`;
  - tag-name normalisation;
  - substring search for `LIKE '%kw%'`.
- `Order`: code-point string order, plus ascending, descending and by-name id lists. These are the `ORDER BY` clauses.
- `Clauses`: the SQL text built at run time:
  - the `WHERE col IN (?,?,…)` builder loop;
  - its `strings.Replace` column rewrite;
  - the search clause with its arguments.
- `Effects`: each mutating operation as a pure function from the old tables to the new ones, each proved to keep `Schema.Valid`. Lemmas state what the operations promise.
- `Queries`: each read as a pure function of the tables. These are GetBookmarks, SearchBookmarks, GetAccount, GetAccounts, GetTags, GetNewID and GetBookmarkID.
- `Properties`: lemmas that relate several operations, such as reading back what was written.
- `Store`: `class Database`. It holds the five tables and their counters as fields. Its methods change them step by step, as the adapter's statements and loops do, and each method is proved against the `Effects` function or `Queries` function it implements.

**Outside collaborators, given as parameters:**

- MySQL full-text matching is a parameter `fullText: (ContentRow, string) -> bool`.
- bcrypt is a parameter `hash: string -> string`.
- The clock is a parameter `now: string`.

## Model

| member | source | states |
|---|---|---|
| Text.ToLower | database/postgresql.go:162 | the result has the input's length and each character lower-cased |
| Text.TrimSpace | database/postgresql.go:304 | the result is the input with leading and trailing white space (the characters of Go's `unicode.IsSpace`) cut off; it starts and ends with non-space |
| Text.Normalize | database/postgresql.go:162-163 | a normalised tag name has no upper-case letter and no surrounding white space |
| Text.TrimSpaceIdempotent | database/postgresql.go:304 | trimming twice equals trimming once |
| Text.NormalizeIdempotent | database/postgresql.go:162-163 | normalising a normalised name changes nothing |
| Text.NormalizeCaseAndSpace | database/postgresql.go:161-163 | "Go " and "go" normalise to the same name "go" |
| Text.ContainsAt | database/postgresql.go:498-504 | the `LIKE '%kw%'` test holds exactly when the keyword occurs at some position |
| Order.StrLeTotal | database/postgresql.go:219 | any two names are ordered one way or the other |
| Order.StrLeAntisymmetric | database/postgresql.go:219 | names ordered both ways are equal |
| Order.StrLeTransitive | database/postgresql.go:219 | the name order is transitive |
| Order.Ascending | database/postgresql.go:205-209 | a set of ids listed once each, strictly increasing |
| Order.Descending | database/postgresql.go:341-343 | a set of ids listed once each, strictly decreasing (`ORDER BY id DESC`) |
| Order.ByKey | database/postgresql.go:507 | ids listed once each, non-decreasing by their name (`ORDER BY username`, `ORDER BY t.name`) |
| Clauses.AppendPlaceholders | database/postgresql.go:195-201 | the loop appends one "?," per value, collects the values in order, and cuts the final comma |
| Clauses.BuildInClause | database/postgresql.go:189-202 | an empty list gives " WHERE 1"; otherwise the IN clause has one placeholder per value, and the arguments are the values in order |
| Clauses.InClausePlaceholders | database/postgresql.go:193-202 | the clause holds exactly as many `?` as the list has values |
| Clauses.PlaceholdersShape | database/postgresql.go:198-200 | the placeholders alternate `?` and `,`, start and end with `?`, and number n |
| Clauses.ReplaceFirstAt | database/postgresql.go:287-288 | `strings.Replace(s, pat, rep, 1)` rewrites the first occurrence of the pattern and keeps the text before and after it |
| Clauses.ReplaceFirstAbsent | database/postgresql.go:287-288 | a clause in which the pattern does not occur comes back unchanged |
| Clauses.RenameIdColumn | database/postgresql.go:287-288 | replacing the first "id" renames the column of the IN clause and leaves " WHERE 1" unchanged |
| Clauses.BuildSearchClause | database/postgresql.go:304-333 | the clause and arguments for the trimmed keyword and the tag names; the number of `?` equals the number of arguments |
| Clauses.SearchPlaceholders | database/postgresql.go:309-333 | every placeholder of the search clause has exactly one argument |
| Clauses.StrArgs | database/postgresql.go:323-326 | the tag names become string arguments in order |
| Clauses.TagFilterMarks | database/postgresql.go:318-330 | the tag filter for n names holds n + 1 placeholders: one per name and one for `len(tags)` |
| Clauses.TagFilterTailMarks | database/postgresql.go:329-330 | the tail of the tag filter binds exactly one value, `len(tags)` |
| Effects.TagIdByName | database/postgresql.go:165-167 | -1 exactly when no tag has the name; otherwise the id of the tag with that name |
| Effects.InsertTag | database/postgresql.go:169-173 | the new tag gets a fresh positive id and the counter moves; nothing else changes |
| Effects.ResolveTag | database/postgresql.go:165-174 | afterwards a tag has the name and the returned id; the tag names grow by exactly that name; the tables change only when the name was new |
| Effects.AttachTag | database/postgresql.go:176 | `INSERT IGNORE` adds the pair only when it is new and both rows exist; otherwise nothing changes |
| Effects.DetachTag | database/postgresql.go:436 | removes exactly that bookmark_tag pair |
| Effects.InsertTags | database/postgresql.go:161-177 | the tag loop keeps the constraints and touches only tag and bookmark_tag, which only grow |
| Effects.InsertTagsNames | database/postgresql.go:161-177 | after the loop, the tag names are the old names plus the normalised names of the bookmark's tags |
| Effects.InsertTagsLinks | database/postgresql.go:161-177 | afterwards the bookmark carries exactly the old tags plus the tags named by the normalised names |
| Effects.InsertTagsOthers | database/postgresql.go:161-177 | the loop leaves every other bookmark's tags alone |
| Effects.InsertBookmark | database/postgresql.go:96-184 | fails, in that order of checks, on an empty url, an empty title or a url already stored, and changes nothing when it fails. Otherwise the new id is fresh; the row, content and modified time are stored; the tags are as InsertTagsLinks states; the other rows are untouched; the constraints hold |
| Effects.UpdateTag | database/postgresql.go:434-455 | a deleted tag removes exactly its pair. A tag with id 0 adds exactly its raw name to the tag names and exactly one pair, the bookmark with the tag of that name, when the bookmark exists. Any other tag changes nothing |
| Effects.UpdateTags | database/postgresql.go:433-456 | the tag loop keeps the constraints and the bookmark, content and account rows, and leaves the tags of every other bookmark exactly as they were |
| Effects.UpdateTagsNames | database/postgresql.go:433-456 | after the loop, the tag names are the old names plus the raw names of the tags with id 0 that are not deleted |
| Effects.UpdateTagsLinks | database/postgresql.go:433-456 | with no tag marked deleted, the bookmark ends with exactly its old tags plus the tags named by the raw names of the tags with id 0 |
| Effects.KeptTags | database/postgresql.go:433-458 | the returned tags are the input tags not marked deleted, and there are no more of them than in the input |
| Effects.KeptTagsNoneDeleted | database/postgresql.go:433-458 | with no tag marked deleted, the returned tags are the input tags, in order |
| Effects.KeptTagsAppend | database/postgresql.go:433-458 | filtering a concatenation filters each part and keeps the parts in input order; with the one-tag case of the definition this fixes the order of the result |
| Effects.UpdatedBooks | database/postgresql.go:458-459 | one returned bookmark per input, in order, each with its deleted tags dropped |
| Effects.UpdateBookmark | database/postgresql.go:415-456 | fails exactly when the new url belongs to another existing bookmark. Otherwise it rewrites that bookmark's row and content, leaves the other rows and the accounts alone, and leaves every other bookmark's tags exactly as they were |
| Effects.UpdateBookmarks | database/postgresql.go:374-467 | on success the constraints hold and the set of bookmarks and the accounts are unchanged; the only failure is a duplicate url |
| Effects.UpdateBookmarksOthers | database/postgresql.go:414-460 | after a successful batch, a bookmark no book names keeps its row, its content and its tags |
| Effects.UpdateBookmarksLastWrite | database/postgresql.go:414-431 | after a successful batch, an existing bookmark holds the row and content of the last book that names it |
| Effects.UpdateBookmarksFails | database/postgresql.go:374-467 | the batch fails exactly when some book, reached after the books before it went through, carries a url held by another existing bookmark |
| Effects.RefusedFails | database/postgresql.go:382-390 | one refused book makes the whole batch fail |
| Effects.UpdateBookmarksAtomic | database/postgresql.go:382-390 | a failing prefix makes the whole batch fail, so nothing of it commits |
| Effects.DeleteBookmarkRows | database/postgresql.go:290 | `DELETE FROM bookmark` is refused exactly when a selected bookmark still has a tag or content row |
| Effects.DeleteLinkRows | database/postgresql.go:291 | removes exactly the bookmark_tag rows of the selected bookmarks and changes no other table |
| Effects.DeleteContentRows | database/postgresql.go:292 | removes exactly the bookmark_content rows of the selected bookmarks, keeps the others' content and changes no other table |
| Effects.DeleteAsWritten | database/postgresql.go:290-292 | the statement order as written fails, on the foreign key, exactly when a selected existing bookmark still has a tag or content row; on a valid state it can only succeed by changing nothing |
| Effects.DeleteAsWrittenFails | database/postgresql.go:290-292 | as written, deleting any existing bookmark fails on the foreign key |
| Effects.DeleteBookmarks | database/postgresql.go:253-299 | the selected bookmarks leave bookmark, bookmark_tag and bookmark_content; everything else stays; the constraints hold |
| Effects.CreateAccount | database/postgresql.go:470-483 | fails exactly when the username is taken; otherwise one new account with the hashed password under a fresh id |
| Effects.DeleteAccounts | database/postgresql.go:515-534 | removes exactly the accounts whose username is selected (all of them for an empty list) |
| Queries.TagsOf | database/postgresql.go:217-219 | the bookmark's tags, each once, sorted by name |
| Queries.View | database/postgresql.go:232-247 | the record has the id, url, image url, excerpt, author, read times and modified time of the bookmark row and the bookmark's tags (TagsOf); with content, its title, content and html come from the content row; without, the title is the row's and content and html are empty |
| Queries.Views | database/postgresql.go:232-247 | one record per id, in order |
| Queries.SelectedIds | database/postgresql.go:205-214 | exactly the existing bookmarks under the WHERE clause, in increasing id order |
| Queries.GetBookmarks | database/postgresql.go:187-250 | every record is a selected existing bookmark, with strictly increasing ids, built as View states |
| Queries.GetBookmarksComplete | database/postgresql.go:205-214 | every selected existing bookmark is returned |
| Queries.KeywordMatch | database/postgresql.go:309-315 | a bookmark passes the keyword filter exactly when the keyword is empty, occurs in the url (`LIKE '%kw%'`), or full-text matches its content row |
| Queries.TagMatch | database/postgresql.go:317-330 | no names keep every bookmark; a bookmark passing a non-empty tag filter carries at least one of the requested tags |
| Queries.SearchIds | database/postgresql.go:302-343 | exactly the bookmarks matching both filters on the trimmed keyword; descending with orderLatest, else ascending |
| Queries.SearchBookmarks | database/postgresql.go:302-371 | every record matches both filters and carries its tags without content; ids strictly ordered as requested |
| Queries.SearchBookmarksComplete | database/postgresql.go:336-348 | every matching bookmark is returned |
| Queries.SearchIgnoresKeywordSpace | database/postgresql.go:304 | a keyword with surrounding white space gives the same result as the trimmed keyword |
| Queries.NameSetCard | database/postgresql.go:329-330 | the distinct requested names number at most `len(tags)`, and exactly that many when no name repeats |
| Queries.CountedTagsCard | database/postgresql.go:318-330 | `COUNT(bookmark_id)` equals the number of requested names that the bookmark carries |
| Queries.TagMatchDistinct | database/postgresql.go:318-330 | with distinct names, the tag filter keeps exactly the bookmarks carrying every requested tag |
| Queries.TagMatchDuplicate | database/postgresql.go:329-330 | a requested name given twice makes the tag filter reject every bookmark |
| Queries.GetAccount | database/postgresql.go:486-492 | the account with that username, or the no-rows error when there is none |
| Queries.GetAccounts | database/postgresql.go:495-512 | the accounts whose username contains the keyword (all for an empty keyword), each once, sorted by username |
| Queries.UsedTags | database/postgresql.go:539-542 | the tags referenced from bookmark_tag all exist |
| Queries.UsedTagCounted | database/postgresql.go:539-542 | a tag in use has a positive bookmark count |
| Queries.GetTags | database/postgresql.go:537-550 | one record per tag in use, with its name and the number of bookmarks carrying it, sorted by name |
| Queries.GetTagsCounted | database/postgresql.go:539-542 | every listed tag has `n_bookmarks > 0` |
| Queries.MaxPlusOne | database/postgresql.go:555 | `IFNULL(MAX(id) + 1, 1)`: 1 for no rows; otherwise above every id and one past an existing id |
| Queries.GetNewID | database/postgresql.go:553-563 | above every id of the table, and 1 for an empty table; the tables without an `id` column fail |
| Queries.GetBookmarkID | database/postgresql.go:566-570 | the id of the bookmark with that url, or 0 when none has it |
| Properties.InsertedTagNames | database/postgresql.go:161-177 | a new bookmark carries exactly the tags named by its normalised tag names |
| Properties.InsertThenGet | database/postgresql.go:128-149 | GetBookmarks with content of a new id returns the inserted fields, the chosen modified time and the bookmark's tags |
| Properties.InsertThenGetId | database/postgresql.go:566-570 | after an insert, GetBookmarkID of its url returns the new id |
| Properties.InsertSameUrlTwice | database/postgresql.go:128-139 | a second insert with the same url fails as a duplicate |
| Properties.DeleteThenGet | database/postgresql.go:253-299 | after DeleteBookmarks, GetBookmarks of the same ids returns nothing |
| Properties.DeleteKeepsOthers | database/postgresql.go:253-299 | a bookmark that was not selected reads back as before, tags and content included |
| Properties.InsertMergesEquivalentNames | database/postgresql.go:161-174 | inserting tags "Go " and "go" adds at most the single name "go" |
| Properties.UpdateKeepsRawName | database/postgresql.go:440-453 | with "go" stored, an update adding "Go " creates a second tag with a different id |
| Properties.DeleteAsWrittenExample | database/postgresql.go:290-292 | the first bookmark inserted into an empty store cannot be deleted with the statement order as written, but can with children first |
| Properties.CreateAccountTwice | database/postgresql.go:470-492 | a second account with the same username fails, and GetAccount returns the first one |
| Properties.DeleteAccountThenGet | database/postgresql.go:515-534 | a deleted username is no longer found |
| Store.Database.constructor | database/postgresql.go:42-82 | a fresh database has empty tables with counters at 1, and satisfies the constraints |
| Store.Database.Restore | database/postgresql.go:382-390 | the rollback puts back every table and counter saved when the transaction began |
| Store.Database.LookupTag | database/postgresql.go:165-167 | the prepared lookup returns TagIdByName |
| Store.Database.InsertTag | database/postgresql.go:169-173 | the insert yields the new state and id InsertTag describes |
| Store.Database.AttachTag | database/postgresql.go:176 | the new state is AttachTag of the old |
| Store.Database.DetachTag | database/postgresql.go:436 | the new state is DetachTag of the old |
| Store.Database.ResolveTag | database/postgresql.go:165-174 | the new state and id are ResolveTag of the old |
| Store.Database.InsertBookmark | database/postgresql.go:96-184 | returns the id and new state of Effects.InsertBookmark; on failure it returns -1 and the error, with the tables unchanged |
| Store.Database.InsertTags | database/postgresql.go:161-177 | the loop's final state is Effects.InsertTags of the state before it |
| Store.Database.GetBookmarks | database/postgresql.go:187-250 | the records equal Queries.GetBookmarks |
| Store.Database.FillRecords | database/postgresql.go:232-247 | overwriting each selected row with its tags (and content) yields Queries.Views |
| Store.Database.SearchBookmarks | database/postgresql.go:302-371 | the records equal Queries.SearchBookmarks |
| Store.Database.DeleteBookmarks | database/postgresql.go:253-299 | runs the corrected, child-first statement order (bookmark_tag, then bookmark_content, then bookmark) rather than the order at lines 290-292; the new state is Effects.DeleteBookmarks of the old; no error |
| Store.Database.UpdateBookmarks | database/postgresql.go:374-467 | on success, the new state is Effects.UpdateBookmarks and the result is UpdatedBooks; on failure, the tables are restored, the result is empty and the error is returned |
| Store.Database.ApplyUpdates | database/postgresql.go:414-460 | the loop commits exactly when Effects.UpdateBookmarks succeeds, and then reaches its state |
| Store.Database.UpdateBookmark | database/postgresql.go:415-458 | one book's statements give Effects.UpdateBookmark's state and the kept tags, or change nothing when its url is taken |
| Store.Database.UpdateTags | database/postgresql.go:433-456 | the tag loop's final state is Effects.UpdateTags and it returns KeptTags |
| Store.Database.CreateAccount | database/postgresql.go:470-483 | the new state is that of Effects.CreateAccount, or unchanged with the duplicate-username error |
| Store.Database.DeleteAccounts | database/postgresql.go:515-534 | the new state is Effects.DeleteAccounts of the old; no error |

## Left out

- Connection setup and table creation (database/postgresql.go:21-92) are not modelled. The DDL becomes the `Schema.Valid` invariant and the constructor's empty tables.
- Transactions, `defer`/`recover` and Go panics are modelled abstractly. An operation either produces its new state or leaves the old one; `Store.Database.Restore` stands for the rollback.
- Driver and prepared-statement failures are left out. So are `Close` and the error paths of `Select` and `Get` other than "no rows", and the `checkError` helper, which is not part of this model. A tag lookup that finds no row leaves the id at -1 and leads to an insert; it is not treated as a failure.
- bcrypt is the parameter `hash`. Hashing failures are left out.
- The clock (`time.Now`) is the parameter `now`.
- MySQL full-text `MATCH … AGAINST` is the uninterpreted parameter `fullText`.
- `LIKE '%kw%'` is plain substring search. `%` and `_` inside the keyword are not treated as wildcards, and case-insensitive collation is not modelled.
- Text.ToLower: lower-cases ASCII letters only, because Unicode case mapping is outside the model.
- Order.ByKey: orders names by code point. The case-insensitive, PAD SPACE ordering of MySQL collations is not modelled.
- Collations in lookups: the equality tests `WHERE name = ?` (database/postgresql.go:152, 402), `WHERE username = ?` (489) and `name IN (...)` (321), and the unique indexes on url, tag name and username, compare strings exactly. Under MySQL's default case-insensitive collation "Go" and "go" would be the same tag, so Properties.UpdateKeepsRawName holds only under exact comparison.
- Order.Ascending: a `SELECT` without `ORDER BY` is taken to return rows in primary-key order. SQL does not promise this; InnoDB does it in practice.
- `VARCHAR` length limits and the `NOT NULL` defaults are not modelled.
- `bookmark_content` declares no key on `docid`. The model keys it by bookmark id, which matches what InsertBookmark writes.
- Queries.GetNewID: table names are a closed datatype instead of the interpolated `fmt.Sprintf` string. An unknown table name is not modelled.
- The SQL clause constants collapse the source's line breaks and indentation into single spaces. Only the placeholders and their arguments are proved about.
- AUTO_INCREMENT counters: InnoDB does not roll them back. A failed duplicate-url or duplicate-username insert, and an UpdateBookmarks batch that inserted tags and then rolled back, still use up ids. The model restores the counters with everything else: Effects.InsertBookmark and Effects.CreateAccount change nothing on failure, and Store.Database.Restore puts back the saved counters. Later ids can therefore be lower in the model than in MySQL; no promise about id values other than freshness is made.
- Properties.InsertThenGet: `modified` is a TIMESTAMP column (database/postgresql.go:58), so MySQL stores a normalised timestamp and rejects or converts other strings. The model stores the string as given, so the read-back of the modified time holds only for strings already in MySQL's canonical form.
- min_read_time and max_read_time are 32-bit INTEGER columns (database/postgresql.go:56-57). The model uses unbounded integers, so an out-of-range value, which fails the insert or update in MySQL, is stored.
- The model treats foreign keys as enforced (InnoDB), and `INSERT IGNORE` skips a pair that already exists or whose bookmark or tag is missing.

## Findings

| source | as written | input that shows it | evidently intended | confidence | as-written member | corrected member |
|---|---|---|---|---|---|---|
| database/postgresql.go:290-292 | DeleteBookmarks deletes the `bookmark` rows first, then the `bookmark_tag` and `bookmark_content` rows that reference them through foreign keys (lines 70-71, 80). Under enforced foreign keys the first statement fails, `MustExec` panics and the transaction rolls back. | InsertBookmark of a bookmark with url "https://example.com" and title "Example" into an empty store (id 1), then DeleteBookmarks(1) | delete the child rows first, then the bookmark rows | medium: assumes the InnoDB engine enforces the foreign keys; not executed | Effects.DeleteAsWritten, Effects.DeleteAsWrittenFails, Properties.DeleteAsWrittenExample | Effects.DeleteBookmarks, Store.Database.DeleteBookmarks |

Kept as written, not counted as findings:

- The tag filter of SearchBookmarks compares against `len(tags)`, so a name requested twice matches no bookmark (`Queries.TagMatchDuplicate`).
- UpdateBookmarks resolves new tags by their raw name, with no lower-casing or trimming (`Properties.UpdateKeepsRawName`).
