// The SQL text the storage layer assembles at run time: the `WHERE ... IN
// (?,?,...)` clause built from an id or username list, its column rewrite in
// DeleteBookmarks (strings.Replace with n = 1), and the WHERE clause of
// SearchBookmarks. Each builder is proved to produce one placeholder per
// argument, with the arguments in input order.

module Clauses {
  import Text

  /** A bound statement argument (Go's `[]interface{}` holds ints and strings). */
  datatype Arg = IntArg(n: int) | StrArg(s: string)

  /** The clause used when no id is given: every row. */
  const ALL_ROWS: string := " WHERE 1"

  /** Occurrences of `c` in `s`. */
  function Count(s: string, c: char): nat
  {
    if s == [] then 0 else (if s[0] == c then 1 else 0) + Count(s[1..], c)
  }

  lemma {:induction false} CountAppend(a: string, b: string, c: char)
    ensures Count(a + b, c) == Count(a, c) + Count(b, c)
    decreases |a|
  {
    if a == [] {
      assert a + b == b;
    } else {
      assert (a + b)[0] == a[0];
      assert (a + b)[1..] == a[1..] + b;
      CountAppend(a[1..], b, c);
    }
  }

  lemma {:induction false} CountAbsent(s: string, c: char)
    requires c !in s
    ensures Count(s, c) == 0
    decreases |s|
  {
    if s != [] {
      assert s[0] != c;
      CountAbsent(s[1..], c);
    }
  }

  /** "?," repeated `n` times: the clause text after `n` rounds of the builder loop. */
  function Repeat(n: nat): string
  {
    if n == 0 then "" else Repeat(n - 1) + "?,"
  }

  /** `n` comma-separated placeholders: "?", "?,?", "?,?,?", ... */
  function Placeholders(n: nat): string
    requires n > 0
  {
    Repeat(n - 1) + "?"
  }

  /** The WHERE clause selecting the rows whose `column` is one of `n` bound values. */
  function InClause(column: string, n: nat): string
  {
    if n == 0 then ALL_ROWS else " WHERE " + column + " IN (" + Placeholders(n) + ")"
  }

  lemma {:induction false} RepeatShape(n: nat)
    ensures |Repeat(n)| == 2 * n
    ensures forall k :: 0 <= k < 2 * n ==> Repeat(n)[k] == if k % 2 == 0 then '?' else ','
  {
    if n > 0 {
      RepeatShape(n - 1);
    }
  }

  /** Placeholders alternate `?` and `,`, begin and end with `?`, and there are `n` of them. */
  lemma PlaceholdersShape(n: nat)
    requires n > 0
    ensures |Placeholders(n)| == 2 * n - 1
    ensures forall k :: 0 <= k < 2 * n - 1 ==> Placeholders(n)[k] == if k % 2 == 0 then '?' else ','
    ensures Count(Placeholders(n), '?') == n
  {
    RepeatShape(n - 1);
    RepeatCount(n - 1);
    CountAppend(Repeat(n - 1), "?", '?');
  }

  lemma {:induction false} RepeatCount(n: nat)
    ensures Count(Repeat(n), '?') == n
  {
    if n > 0 {
      RepeatCount(n - 1);
      CountAppend(Repeat(n - 1), "?,", '?');
    }
  }

  /** The clause binds exactly `n` values: one `?` per list element. */
  lemma InClausePlaceholders(column: string, n: nat)
    requires '?' !in column
    ensures Count(InClause(column, n), '?') == n
  {
    if n == 0 {
      CountAbsent(ALL_ROWS, '?');
    } else {
      PlaceholdersShape(n);
      CountAbsent(" WHERE ", '?');
      CountAbsent(column, '?');
      CountAbsent(" IN (", '?');
      CountAbsent(")", '?');
      CountAppend(" WHERE ", column, '?');
      CountAppend(" WHERE " + column, " IN (", '?');
      CountAppend(" WHERE " + column + " IN (", Placeholders(n), '?');
      CountAppend(" WHERE " + column + " IN (" + Placeholders(n), ")", '?');
    }
  }

  /**
   * The loop shared by every clause builder: append "?," once per value while
   * collecting the value as an argument, then cut off the last comma.
   */
  method AppendPlaceholders<T>(head: string, values: seq<T>) returns (clause: string, args: seq<T>)
    requires |values| > 0
    ensures clause == head + Placeholders(|values|)
    ensures args == values
  {
    args := [];
    clause := head;
    for i := 0 to |values|
      invariant clause == head + Repeat(i)
      invariant args == values[..i]
    {
      args := args + [values[i]];
      clause := clause + "?,";
    }
    assert head + Repeat(|values|) == head + Repeat(|values| - 1) + "?,";
    clause := clause[..|clause| - 1];
  }

  /**
   * The WHERE-clause builder of GetBookmarks, DeleteBookmarks and DeleteAccounts:
   * all rows for an empty list, else one placeholder per value, in list order.
   */
  method BuildInClause<T>(column: string, values: seq<T>) returns (clause: string, args: seq<T>)
    ensures clause == InClause(column, |values|)
    ensures args == values
  {
    args := [];
    clause := ALL_ROWS;
    if |values| > 0 {
      clause, args := AppendPlaceholders(" WHERE " + column + " IN (", values);
      clause := clause + ")";
    }
  }

  /** `pat` occurs at `i` in `s` and at no earlier index. */
  predicate FirstAt(s: string, pat: string, i: int)
  {
    Text.OccursAt(s, pat, i) && forall j :: 0 <= j < i ==> !Text.OccursAt(s, pat, j)
  }

  /** strings.Replace(s, pat, rep, 1): the first occurrence of `pat` replaced by `rep`. */
  function ReplaceFirst(s: string, pat: string, rep: string): string
    requires pat != []
    decreases |s|
  {
    if |s| < |pat| then s
    else if s[..|pat|] == pat then rep + s[|pat|..]
    else [s[0]] + ReplaceFirst(s[1..], pat, rep)
  }

  /** An occurrence past the first letter is an occurrence in the tail, one index earlier. */
  lemma OccursAtShift(s: string, pat: string, i: int)
    requires s != [] && 1 <= i
    ensures Text.OccursAt(s, pat, i) <==> Text.OccursAt(s[1..], pat, i - 1)
  {
    if i + |pat| <= |s| {
      var tail := s[1..];
      assert tail[i - 1..i - 1 + |pat|] == s[i..i + |pat|];
    }
  }

  /** ReplaceFirst rewrites the first occurrence of `pat` and keeps what is around it. */
  lemma {:induction false} ReplaceFirstAt(s: string, pat: string, rep: string, i: int)
    requires pat != [] && FirstAt(s, pat, i)
    ensures ReplaceFirst(s, pat, rep) == s[..i] + rep + s[i + |pat|..]
    decreases |s|
  {
    if i > 0 {
      var tail := s[1..];
      assert !Text.OccursAt(s, pat, 0);
      assert s[..|pat|] != pat;
      assert ReplaceFirst(s, pat, rep) == [s[0]] + ReplaceFirst(tail, pat, rep);
      OccursAtShift(s, pat, i);
      forall j | 0 <= j < i - 1
        ensures !Text.OccursAt(tail, pat, j)
      {
        OccursAtShift(s, pat, j + 1);
      }
      assert FirstAt(tail, pat, i - 1);
      ReplaceFirstAt(tail, pat, rep, i - 1);
      assert [s[0]] + tail[..i - 1] == s[..i];
      assert tail[i - 1 + |pat|..] == s[i + |pat|..];
    } else {
      assert s[..|pat|] == pat;
    }
  }

  /** A string in which `pat` does not occur comes back unchanged. */
  lemma {:induction false} ReplaceFirstAbsent(s: string, pat: string, rep: string)
    requires pat != [] && forall i :: !Text.OccursAt(s, pat, i)
    ensures ReplaceFirst(s, pat, rep) == s
    decreases |s|
  {
    if |s| >= |pat| {
      assert !Text.OccursAt(s, pat, 0);
      forall j | 0 <= j
        ensures !Text.OccursAt(s[1..], pat, j)
      {
        OccursAtShift(s, pat, j + 1);
      }
      ReplaceFirstAbsent(s[1..], pat, rep);
      assert [s[0]] + s[1..] == s;
    }
  }

  /** A prefix without the first letter of `pat` is passed over unchanged. */
  lemma {:induction false} ReplaceFirstSkips(p: string, s: string, pat: string, rep: string)
    requires pat != [] && pat[0] !in p
    ensures ReplaceFirst(p + s, pat, rep) == p + ReplaceFirst(s, pat, rep)
    decreases |p|
  {
    if p == [] {
      assert p + s == s;
    } else {
      var ps := p + s;
      assert ps[0] == p[0] != pat[0];
      assert ps[1..] == p[1..] + s;
      ReplaceFirstSkips(p[1..], s, pat, rep);
      if |ps| < |pat| {
        assert |s| < |pat|;
      } else {
        assert ps[..|pat|][0] != pat[0];
        assert ReplaceFirst(ps, pat, rep) == [p[0]] + ReplaceFirst(ps[1..], pat, rep);
        assert [p[0]] + (p[1..] + ReplaceFirst(s, pat, rep)) == p + ReplaceFirst(s, pat, rep);
      }
    }
  }

  /**
   * DeleteBookmarks reuses its `id` clause for bookmark_tag and bookmark_content
   * by replacing the first "id": that renames the column and nothing else, and
   * leaves the all-rows clause alone.
   */
  lemma RenameIdColumn(n: nat, column: string)
    ensures ReplaceFirst(InClause("id", n), "id", column) == InClause(column, n)
  {
    assert 'i' !in " WHERE ";
    if n == 0 {
      assert 'i' !in ALL_ROWS;
      ReplaceFirstSkips(ALL_ROWS, "", "id", column);
      assert ALL_ROWS + "" == ALL_ROWS;
    } else {
      var tail := " IN (" + Placeholders(n) + ")";
      assert InClause("id", n) == " WHERE " + ("id" + tail);
      ReplaceFirstSkips(" WHERE ", "id" + tail, "id", column);
      assert ("id" + tail)[..2] == "id";
      assert ("id" + tail)[2..] == tail;
    }
  }

  const KEYWORD_FILTER_HEAD: string := " AND (url LIKE "
  const KEYWORD_FILTER_MIDDLE: string :=
    " OR id IN (SELECT docid" + " FROM bookmark_content WHERE" + " MATCH(title,content) AGAINST ("
  const KEYWORD_FILTER_CLOSE: string := ") ))"

  /** The keyword filter of SearchBookmarks: url substring or full-text match. */
  const KEYWORD_FILTER: string :=
    KEYWORD_FILTER_HEAD + "?" + KEYWORD_FILTER_MIDDLE + "?" + KEYWORD_FILTER_CLOSE

  /** Opening of the tag filter of SearchBookmarks, before the tag-name placeholders. */
  const TAG_FILTER_HEAD: string :=
    " AND id IN (SELECT bookmark_id" + " FROM bookmark_tag WHERE tag_id" + " IN (SELECT id FROM tag WHERE" + " name IN ("

  const TAG_FILTER_COUNT: string := ")) GROUP BY bookmark_id" + " HAVING COUNT(bookmark_id) >= "

  /** Close of the tag filter: the bookmark must carry at least `?` of the named tags. */
  const TAG_FILTER_TAIL: string := TAG_FILTER_COUNT + "?" + ")"

  /** The WHERE clause of SearchBookmarks for a (trimmed) keyword and `n` tag names. */
  function SearchClause(keyword: string, n: nat): string
  {
    "WHERE 1"
    + (if keyword != "" then KEYWORD_FILTER else "")
    + (if n > 0 then TAG_FILTER_HEAD + Placeholders(n) + TAG_FILTER_TAIL else "")
  }

  /** The bound arguments of SearchBookmarks, in placeholder order. */
  function SearchArgs(keyword: string, tags: seq<string>): seq<Arg>
  {
    (if keyword != "" then [StrArg("%" + keyword + "%"), StrArg(keyword)] else [])
    + (if |tags| > 0 then StrArgs(tags) + [IntArg(|tags|)] else [])
  }

  /** Each tag name as a string argument, in order. */
  function StrArgs(tags: seq<string>): (r: seq<Arg>)
    ensures |r| == |tags|
    ensures forall i :: 0 <= i < |tags| ==> r[i] == StrArg(tags[i])
  {
    if tags == [] then [] else StrArgs(tags[..|tags| - 1]) + [StrArg(tags[|tags| - 1])]
  }

  /** A fragment with one placeholder between two placeholder-free pieces. */
  lemma OneMark(a: string, b: string)
    requires '?' !in a && '?' !in b
    ensures Count(a + "?" + b, '?') == 1
  {
    CountAbsent(a, '?');
    CountAbsent(b, '?');
    CountAppend(a, "?", '?');
    CountAppend(a + "?", b, '?');
  }

  /** A fragment with two placeholders separated by placeholder-free pieces. */
  lemma TwoMarks(a: string, b: string, d: string)
    requires '?' !in a && '?' !in b && '?' !in d
    ensures Count(a + "?" + b + "?" + d, '?') == 2
  {
    OneMark(a, b);
    CountAbsent(d, '?');
    CountAppend(a + "?" + b, "?", '?');
    CountAppend(a + "?" + b + "?", d, '?');
  }

  /** No character of `s` is a placeholder. */
  predicate Unmarked(s: string)
  {
    forall i :: 0 <= i < |s| ==> s[i] != '?'
  }

  lemma KeywordFragmentsUnmarked()
    ensures Unmarked(KEYWORD_FILTER_HEAD) && Unmarked(KEYWORD_FILTER_MIDDLE) && Unmarked(KEYWORD_FILTER_CLOSE)
  {
  }

  lemma TagFilterHeadUnmarked()
    ensures Unmarked(TAG_FILTER_HEAD)
  {
  }

  lemma TagFilterCountUnmarked()
    ensures Unmarked(TAG_FILTER_COUNT)
  {
  }

  lemma KeywordFilterMarks()
    ensures Count(KEYWORD_FILTER, '?') == 2
  {
    KeywordFragmentsUnmarked();
    TwoMarks(KEYWORD_FILTER_HEAD, KEYWORD_FILTER_MIDDLE, KEYWORD_FILTER_CLOSE);
  }

  lemma TagFilterHeadMarks()
    ensures Count(TAG_FILTER_HEAD, '?') == 0
  {
    TagFilterHeadUnmarked();
    CountAbsent(TAG_FILTER_HEAD, '?');
  }

  lemma TagFilterTailMarks()
    ensures Count(TAG_FILTER_TAIL, '?') == 1
  {
    TagFilterCountUnmarked();
    OneMark(TAG_FILTER_COUNT, ")");
  }

  /** The tag filter for `n` names binds the `n` names and the count. */
  lemma TagFilterMarks(n: nat)
    requires n > 0
    ensures Count(TAG_FILTER_HEAD + Placeholders(n) + TAG_FILTER_TAIL, '?') == n + 1
  {
    PlaceholdersShape(n);
    TagFilterHeadMarks();
    TagFilterTailMarks();
    CountAppend(TAG_FILTER_HEAD, Placeholders(n), '?');
    CountAppend(TAG_FILTER_HEAD + Placeholders(n), TAG_FILTER_TAIL, '?');
  }

  /** Every placeholder of the search statement has exactly one argument. */
  lemma SearchPlaceholders(keyword: string, tags: seq<string>)
    ensures Count(SearchClause(keyword, |tags|), '?') == |SearchArgs(keyword, tags)|
  {
    var kw := if keyword != "" then KEYWORD_FILTER else "";
    var tf := if |tags| > 0 then TAG_FILTER_HEAD + Placeholders(|tags|) + TAG_FILTER_TAIL else "";
    CountAbsent("WHERE 1", '?');
    KeywordFilterMarks();
    assert Count(kw, '?') == if keyword != "" then 2 else 0;
    if |tags| > 0 {
      TagFilterMarks(|tags|);
    }
    assert Count(tf, '?') == if |tags| > 0 then |tags| + 1 else 0;
    CountAppend("WHERE 1", kw, '?');
    CountAppend("WHERE 1" + kw, tf, '?');
  }

  /** The WHERE-clause construction of SearchBookmarks, with its tag-placeholder loop. */
  method BuildSearchClause(keyword: string, tags: seq<string>) returns (clause: string, args: seq<Arg>)
    ensures clause == SearchClause(Text.TrimSpace(keyword), |tags|)
    ensures args == SearchArgs(Text.TrimSpace(keyword), tags)
    ensures Count(clause, '?') == |args|
  {
    var kw := Text.TrimSpace(keyword);
    clause := "WHERE 1";
    args := [];
    if kw != "" {
      clause := clause + KEYWORD_FILTER;
      args := args + [StrArg("%" + kw + "%"), StrArg(kw)];
    }
    if |tags| > 0 {
      var tagClause, tagArgs := AppendPlaceholders(TAG_FILTER_HEAD, tags);
      tagClause := tagClause + TAG_FILTER_TAIL;
      args := args + StrArgs(tagArgs) + [IntArg(|tags|)];
      clause := clause + tagClause;
    }
    SearchPlaceholders(kw, tags);
  }
}
