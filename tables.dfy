/** Rows of SQLite tables with `INTEGER PRIMARY KEY AUTOINCREMENT` ids, and the
    generic operations the store's queries are made of: filtering, ordering
    newest first, `LIMIT`, lookup and replacement by id. */
module Tables {
  import opened Wrappers

  datatype Row<R> = Row(id: nat, data: R)

  /** Rows in rowid order, every id positive and at most the table's
      `sqlite_sequence` counter. */
  predicate Ascending<R>(rows: seq<Row<R>>, counter: nat) {
    && (forall i, j :: 0 <= i < j < |rows| ==> rows[i].id < rows[j].id)
    && (forall i :: 0 <= i < |rows| ==> 1 <= rows[i].id <= counter)
  }

  /** No row occurs twice. */
  ghost predicate Distinct<T>(s: seq<T>) {
    forall i, j :: 0 <= i < j < |s| ==> s[i] != s[j]
  }

  lemma AscendingDistinct<R>(rows: seq<Row<R>>, counter: nat)
    requires Ascending(rows, counter)
    ensures Distinct(rows)
  {
  }

  /** Rows are told apart by their ids. */
  lemma AscendingIdsUnique<R>(rows: seq<Row<R>>, counter: nat, a: Row<R>, b: Row<R>)
    requires Ascending(rows, counter) && a in rows && b in rows && a.id == b.id
    ensures a == b
  {
  }

  /** `INSERT`: the new row gets the next id and goes last. */
  function Append<R>(rows: seq<Row<R>>, counter: nat, data: R): seq<Row<R>> {
    rows + [Row(counter + 1, data)]
  }

  lemma AppendAscending<R>(rows: seq<Row<R>>, counter: nat, data: R)
    requires Ascending(rows, counter)
    ensures Ascending(Append(rows, counter, data), counter + 1)
    ensures forall r :: r in rows ==> r.id != counter + 1
  {
  }

  // ---------------------------------------------------------------- WHERE

  /** The rows satisfying `p`, in table order. */
  function Filter<R(!new)>(s: seq<Row<R>>, p: Row<R> -> bool): (r: seq<Row<R>>)
    ensures |r| <= |s|
    ensures forall x :: x in r <==> x in s && p(x)
    ensures forall i :: 0 <= i < |r| ==> p(r[i])
  {
    if s == [] then [] else (if p(s[0]) then [s[0]] else []) + Filter(s[1..], p)
  }

  /** A row below every row of an ascending table can lead it. */
  lemma AscendingCons<R>(x: Row<R>, rest: seq<Row<R>>, counter: nat)
    requires Ascending(rest, counter) && 1 <= x.id <= counter
    requires forall y :: y in rest ==> x.id < y.id
    ensures Ascending([x] + rest, counter)
  {
    var r := [x] + rest;
    forall i, j | 0 <= i < j < |r|
      ensures r[i].id < r[j].id
    {
      assert r[j] == rest[j - 1];
      if i > 0 {
        assert r[i] == rest[i - 1];
      }
    }
  }

  lemma {:induction false} FilterAscending<R(!new)>(s: seq<Row<R>>, p: Row<R> -> bool, counter: nat)
    requires Ascending(s, counter)
    ensures Ascending(Filter(s, p), counter)
  {
    if s != [] {
      var tail := s[1..];
      assert Ascending(tail, counter);
      FilterAscending(tail, p, counter);
      var rest := Filter(tail, p);
      if p(s[0]) {
        forall y | y in rest
          ensures s[0].id < y.id
        {
          var k :| 0 <= k < |tail| && tail[k] == y;
          assert s[k + 1] == y;
        }
        AscendingCons(s[0], rest, counter);
        assert Filter(s, p) == [s[0]] + rest;
      } else {
        assert Filter(s, p) == rest;
      }
    }
  }

  lemma {:induction false} FilterDistinct<R(!new)>(s: seq<Row<R>>, p: Row<R> -> bool)
    requires Distinct(s)
    ensures Distinct(Filter(s, p))
  {
    if s != [] {
      FilterDistinct(s[1..], p);
      assert s[0] !in s[1..];
    }
  }

  /** Conditions that agree on the rows give the same filter. */
  lemma {:induction false} FilterCongruent<R(!new)>(s: seq<Row<R>>, p: Row<R> -> bool, q: Row<R> -> bool)
    requires forall x :: x in s ==> p(x) == q(x)
    ensures Filter(s, p) == Filter(s, q)
  {
    if s != [] {
      FilterCongruent(s[1..], p, q);
    }
  }

  /** `WHERE` keeps table order: the rows selected from a table split in two
      are those selected from the first part, then those from the second. */
  lemma {:induction false} FilterAppend<R(!new)>(a: seq<Row<R>>, b: seq<Row<R>>, p: Row<R> -> bool)
    ensures Filter(a + b, p) == Filter(a, p) + Filter(b, p)
    decreases |a|
  {
    if a != [] {
      var head := if p(a[0]) then [a[0]] else [];
      assert (a + b)[0] == a[0] && (a + b)[1..] == a[1..] + b;
      calc {
        Filter(a + b, p);
        head + Filter(a[1..] + b, p);
        { FilterAppend(a[1..], b, p); }
        head + (Filter(a[1..], p) + Filter(b, p));
        (head + Filter(a[1..], p)) + Filter(b, p);
        Filter(a, p) + Filter(b, p);
      }
    } else {
      assert a + b == b;
    }
  }

  /** A condition every row meets keeps the table as it is. */
  lemma {:induction false} FilterAll<R(!new)>(s: seq<Row<R>>, p: Row<R> -> bool)
    requires forall x :: x in s ==> p(x)
    ensures Filter(s, p) == s
  {
    if s != [] {
      FilterAll(s[1..], p);
    }
  }

  /** A condition no row meets selects nothing. */
  lemma {:induction false} FilterNone<R(!new)>(s: seq<Row<R>>, p: Row<R> -> bool)
    requires forall x :: x in s ==> !p(x)
    ensures Filter(s, p) == []
  {
    if s != [] {
      FilterNone(s[1..], p);
    }
  }

  /** A sequence without repetitions is as long as the set of its elements. */
  lemma {:induction false} DistinctCard<T>(s: seq<T>)
    requires Distinct(s)
    ensures |set x | x in s| == |s|
  {
    if s != [] {
      DistinctCard(s[1..]);
      assert (set x | x in s) == (set x | x in s[1..]) + {s[0]};
      assert s[0] !in s[1..];
    }
  }

  /** Two repetition-free sequences with the same elements have the same length. */
  lemma SameElementsSameLength<T>(a: seq<T>, b: seq<T>)
    requires Distinct(a) && Distinct(b) && forall x :: x in a <==> x in b
    ensures |a| == |b|
  {
    DistinctCard(a);
    DistinctCard(b);
    assert (set x | x in a) == (set x | x in b);
  }

  /** A permutation of a repetition-free sequence has no repetitions either. */
  lemma PermutationDistinct<T>(a: seq<T>, b: seq<T>)
    requires Distinct(a) && multiset(a) == multiset(b)
    ensures Distinct(b)
  {
    forall i, j | 0 <= i < j < |b|
      ensures b[i] != b[j]
    {
      if b[i] == b[j] {
        var x := b[i];
        TwiceInMultiset(b, i, j);
        OnceInMultiset(a, x);
        assert false;
      }
    }
  }

  lemma {:induction false} TwiceInMultiset<T>(s: seq<T>, i: int, j: int)
    requires 0 <= i < j < |s| && s[i] == s[j]
    ensures multiset(s)[s[i]] >= 2
  {
    assert s == s[..j] + [s[j]] + s[j + 1..];
    assert s[i] in s[..j];
    assert multiset(s) == multiset(s[..j]) + multiset([s[j]]) + multiset(s[j + 1..]);
  }

  lemma {:induction false} OnceInMultiset<T>(s: seq<T>, x: T)
    requires Distinct(s)
    ensures multiset(s)[x] <= 1
  {
    if s != [] {
      OnceInMultiset(s[1..], x);
      assert s == [s[0]] + s[1..];
      assert s[0] !in s[1..];
      assert multiset(s) == multiset([s[0]]) + multiset(s[1..]);
    }
  }

  // ---------------------------------------------------------------- ORDER BY … DESC

  /** `ORDER BY key DESC`: rows with larger keys first (SQLite leaves the order
      of rows with equal keys open, and so does this predicate). */
  predicate SortedDesc<R>(s: seq<Row<R>>, key: R -> int) {
    forall i, j :: 0 <= i < j < |s| ==> key(s[i].data) >= key(s[j].data)
  }

  /** The head of a newest-first list has the largest key. */
  lemma SortedDescHeadMax<R>(s: seq<Row<R>>, key: R -> int)
    requires SortedDesc(s, key) && s != []
    ensures forall x :: x in s ==> key(x.data) <= key(s[0].data)
  {
    forall x | x in s
      ensures key(x.data) <= key(s[0].data)
    {
      var i :| 0 <= i < |s| && s[i] == x;
    }
  }

  function InsertDesc<R>(x: Row<R>, s: seq<Row<R>>, key: R -> int): (r: seq<Row<R>>)
    requires SortedDesc(s, key)
    ensures SortedDesc(r, key) && multiset(r) == multiset(s) + multiset{x}
  {
    if s == [] then [x]
    else if key(x.data) >= key(s[0].data) then [x] + s
    else
      var rest := InsertDesc(x, s[1..], key);
      assert s == [s[0]] + s[1..];
      InsertDescHead(x, s, key, rest);
      [s[0]] + rest
  }

  lemma InsertDescHead<R>(x: Row<R>, s: seq<Row<R>>, key: R -> int, rest: seq<Row<R>>)
    requires s != [] && SortedDesc(s, key) && key(x.data) < key(s[0].data)
    requires SortedDesc(rest, key) && multiset(rest) == multiset(s[1..]) + multiset{x}
    ensures SortedDesc([s[0]] + rest, key)
  {
    forall y | y in rest
      ensures key(y.data) <= key(s[0].data)
    {
      assert y in multiset(rest);
      if y != x {
        assert y in s[1..];
      }
    }
    var t := [s[0]] + rest;
    forall i, j | 0 <= i < j < |t|
      ensures key(t[i].data) >= key(t[j].data)
    {
      if i == 0 {
        assert t[j] in rest;
      } else {
        assert t[i] == rest[i - 1] && t[j] == rest[j - 1];
      }
    }
  }

  function SortDesc<R>(s: seq<Row<R>>, key: R -> int): (r: seq<Row<R>>)
    ensures SortedDesc(r, key) && multiset(r) == multiset(s) && |r| == |s|
  {
    if s == [] then []
    else
      assert s == [s[0]] + s[1..];
      InsertDesc(s[0], SortDesc(s[1..], key), key)
  }

  /** `LIMIT n`: a negative limit means none. */
  function Limit<T>(s: seq<T>, n: int): (r: seq<T>)
    ensures |r| == if 0 <= n < |s| then n else |s|
    ensures r == s[..|r|]
  {
    if 0 <= n < |s| then s[..n] else s
  }

  // ---------------------------------------------------------------- by id

  /** The row with id `id`. */
  function FindId<R>(s: seq<Row<R>>, id: nat): (r: Option<Row<R>>)
    ensures r.Some? ==> r.value in s && r.value.id == id
    ensures r.None? ==> forall x :: x in s ==> x.id != id
  {
    if s == [] then None else if s[0].id == id then Some(s[0]) else FindId(s[1..], id)
  }

  /** `UPDATE … WHERE id = ?`: the rows with that id get the new data. */
  function ReplaceId<R>(s: seq<Row<R>>, id: nat, data: R): (r: seq<Row<R>>)
    ensures |r| == |s|
    ensures forall i :: 0 <= i < |s| ==> r[i] == if s[i].id == id then Row(id, data) else s[i]
  {
    if s == [] then [] else [if s[0].id == id then Row(id, data) else s[0]] + ReplaceId(s[1..], id, data)
  }

  lemma ReplaceIdAscending<R>(s: seq<Row<R>>, counter: nat, id: nat, data: R)
    requires Ascending(s, counter)
    ensures Ascending(ReplaceId(s, id, data), counter)
  {
  }

  /** The condition `id != x` as a value. */
  function IdIsNot<R>(id: nat): Row<R> -> bool {
    (r: Row<R>) => r.id != id
  }

  /** `DELETE … WHERE id = ?`. */
  function RemoveId<R(!new)>(s: seq<Row<R>>, id: nat): (r: seq<Row<R>>)
    ensures forall x :: x in r <==> x in s && x.id != id
  {
    Filter(s, IdIsNot(id))
  }
}
