// Result orders the queries rely on: ascending or descending id (primary-key
// order, `ORDER BY id DESC`) and ascending name (`ORDER BY t.name`,
// `ORDER BY username`), the latter as code-point lexicographic order.

module Order {

  /** Lexicographic order on strings by code point. */
  predicate StrLe(a: string, b: string)
    decreases |a|
  {
    a == [] || (b != [] && (a[0] < b[0] || (a[0] == b[0] && StrLe(a[1..], b[1..]))))
  }

  lemma {:induction false} StrLeTotal(a: string, b: string)
    ensures StrLe(a, b) || StrLe(b, a)
    decreases |a|
  {
    if a != [] && b != [] && a[0] == b[0] {
      StrLeTotal(a[1..], b[1..]);
    }
  }

  lemma {:induction false} StrLeAntisymmetric(a: string, b: string)
    requires StrLe(a, b) && StrLe(b, a)
    ensures a == b
    decreases |a|
  {
    if a != [] {
      StrLeAntisymmetric(a[1..], b[1..]);
      assert a == [a[0]] + a[1..];
      assert b == [b[0]] + b[1..];
    }
  }

  lemma {:induction false} StrLeTransitive(a: string, b: string, c: string)
    requires StrLe(a, b) && StrLe(b, c)
    ensures StrLe(a, c)
    decreases |a|
  {
    if a != [] && a[0] == b[0] && b[0] == c[0] {
      StrLeTransitive(a[1..], b[1..], c[1..]);
    }
  }

  /** `s` strictly increases. */
  predicate Increasing(s: seq<int>)
  {
    forall i, j :: 0 <= i < j < |s| ==> s[i] < s[j]
  }

  /** `s` strictly decreases. */
  predicate Decreasing(s: seq<int>)
  {
    forall i, j :: 0 <= i < j < |s| ==> s[i] > s[j]
  }

  /** Some element of a non-empty set. */
  lemma Element<T>(s: set<T>) returns (y: T)
    requires s != {}
    ensures y in s
  {
    if forall z :: z !in s {
      assert false;
    }
    y :| y in s;
  }

  /** A position of `x` in `s`. */
  lemma IndexOf(s: seq<int>, x: int) returns (i: int)
    requires x in s
    ensures 0 <= i < |s| && s[i] == x
  {
    i :| 0 <= i < |s| && s[i] == x;
  }

  /** `m` is the least element of `s`. */
  predicate IsLeast(s: set<int>, m: int)
  {
    m in s && forall x :: x in s ==> m <= x
  }

  lemma {:induction false} Least(s: set<int>) returns (m: int)
    requires s != {}
    ensures IsLeast(s, m)
    decreases |s|
  {
    var y := Element(s);
    if s == {y} {
      m := y;
    } else {
      var rest := s - {y};
      var k := Least(rest);
      m := if y < k then y else k;
      forall x | x in s
        ensures m <= x
      {
        if x != y {
          assert x in rest;
        }
      }
    }
  }

  lemma LeastExists(s: set<int>)
    requires s != {}
    ensures exists m :: IsLeast(s, m)
  {
    var m := Least(s);
  }

  /** The elements of `s` in ascending order: the rows of a table in primary-key order. */
  function Ascending(s: set<int>): (r: seq<int>)
    ensures |r| == |s|
    ensures forall x :: x in r <==> x in s
    ensures Increasing(r)
    decreases |s|
  {
    if s == {} then []
    else
      LeastExists(s);
      var m :| IsLeast(s, m);
      var rest := Ascending(s - {m});
      var r := [m] + rest;
      assert Increasing(r) by {
        forall i, j | 0 <= i < j < |r|
          ensures r[i] < r[j]
        {
          assert r[j] == rest[j - 1] && r[j] in s - {m};
          if i > 0 {
            assert r[i] == rest[i - 1];
          }
        }
      }
      r
  }

  function Reverse<T>(s: seq<T>): (r: seq<T>)
    ensures |r| == |s|
    ensures forall i :: 0 <= i < |s| ==> r[i] == s[|s| - 1 - i]
  {
    seq(|s|, i requires 0 <= i < |s| => s[|s| - 1 - i])
  }

  /** The elements of `s` in descending order (`ORDER BY id DESC`). */
  function Descending(s: set<int>): (r: seq<int>)
    ensures |r| == |s|
    ensures forall x :: x in r <==> x in s
    ensures Decreasing(r)
  {
    var up := Ascending(s);
    var r := Reverse(up);
    assert forall x :: x in r ==> x in up;
    assert forall i :: 0 <= i < |up| ==> up[i] == r[|up| - 1 - i];
    r
  }

  /** `key` gives distinct values to the ids of `ids`. */
  predicate InjectiveOn(ids: set<int>, key: map<int, string>)
  {
    && ids <= key.Keys
    && forall a, b :: a in ids && b in ids && key[a] == key[b] ==> a == b
  }

  /** `m` has the least key among `ids`. */
  predicate IsLeastKey(ids: set<int>, key: map<int, string>, m: int)
    requires ids <= key.Keys
  {
    m in ids && forall x :: x in ids ==> StrLe(key[m], key[x])
  }

  lemma {:induction false} StrLeReflexive(a: string)
    ensures StrLe(a, a)
    decreases |a|
  {
    if a != [] {
      StrLeReflexive(a[1..]);
    }
  }

  lemma {:induction false} LeastKey(ids: set<int>, key: map<int, string>) returns (m: int)
    requires ids != {} && ids <= key.Keys
    ensures IsLeastKey(ids, key, m)
    decreases |ids|
  {
    var y := Element(ids);
    if ids == {y} {
      m := y;
      StrLeReflexive(key[y]);
    } else {
      var rest := ids - {y};
      var k := LeastKey(rest, key);
      StrLeTotal(key[y], key[k]);
      m := if StrLe(key[y], key[k]) then y else k;
      forall x | x in ids
        ensures StrLe(key[m], key[x])
      {
        if x == y {
          StrLeReflexive(key[y]);
        } else {
          assert x in rest;
          if m == y {
            StrLeTransitive(key[y], key[k], key[x]);
          }
        }
      }
    }
  }

  lemma LeastKeyExists(ids: set<int>, key: map<int, string>)
    requires ids != {} && ids <= key.Keys
    ensures exists m :: IsLeastKey(ids, key, m)
  {
    var m := LeastKey(ids, key);
  }

  /** The ids of `ids` ordered by ascending `key`: `ORDER BY name` over unique names. */
  function ByKey(ids: set<int>, key: map<int, string>): (r: seq<int>)
    requires InjectiveOn(ids, key)
    ensures |r| == |ids|
    ensures forall x :: x in r <==> x in ids
    ensures forall i, j :: 0 <= i < j < |r| ==> r[i] != r[j] && StrLe(key[r[i]], key[r[j]])
    decreases |ids|
  {
    if ids == {} then []
    else
      LeastKeyExists(ids, key);
      StrLeAntisymmetricAll();
      var m :| IsLeastKey(ids, key, m);
      [m] + ByKey(ids - {m}, key)
  }

  lemma StrLeAntisymmetricAll()
    ensures forall a, b :: StrLe(a, b) && StrLe(b, a) ==> a == b
  {
    forall a, b | StrLe(a, b) && StrLe(b, a)
      ensures a == b
    {
      StrLeAntisymmetric(a, b);
    }
  }
}
