/** Keyset paging: rows in key order, a page of rows after a cursor, and the query that gets a page from two
    separately limited parts. Keys are of any type with a strict total order. */
module Keyset {
  ghost predicate StrictOrder<K(!new)>(less: (K, K) -> bool) {
    && (forall a :: !less(a, a))
    && (forall a, b, c :: less(a, b) && less(b, c) ==> less(a, c))
    && (forall a, b :: a != b ==> less(a, b) || less(b, a))
  }

  predicate IsFirst<K(==)>(less: (K, K) -> bool, s: set<K>, m: K) {
    m in s && forall y :: y in s && y != m ==> less(m, y)
  }

  lemma {:induction false} HasFirst<K(!new)>(less: (K, K) -> bool, s: set<K>)
    requires StrictOrder(less) && s != {}
    ensures exists m :: IsFirst(less, s, m)
    decreases |s|
  {
    var x :| x in s;
    if s == {x} {
      assert IsFirst(less, s, x);
    } else {
      HasFirst(less, s - {x});
      var m :| IsFirst(less, s - {x}, m);
      if less(x, m) {
        forall y | y in s && y != x ensures less(x, y) {
          assert y in s - {x};
        }
        assert IsFirst(less, s, x);
      } else {
        assert IsFirst(less, s, m);
      }
    }
  }

  /** The rows of a table in key order (ORDER BY). */
  function OrderBy<K(!new, ==)>(less: (K, K) -> bool, s: set<K>): seq<K>
    requires StrictOrder(less)
    decreases |s|
  {
    if s == {} then []
    else
      HasFirst(less, s);
      var m :| IsFirst(less, s, m);
      [m] + OrderBy(less, s - {m})
  }

  ghost predicate Ascending<K>(less: (K, K) -> bool, q: seq<K>) {
    forall i, j :: 0 <= i < j < |q| ==> less(q[i], q[j])
  }

  function Rows<K(==)>(q: seq<K>): set<K> {
    set x | x in q
  }

  lemma {:induction false} Prepend<K(!new)>(less: (K, K) -> bool, s: set<K>, m: K, r: seq<K>)
    requires IsFirst(less, s, m) && Ascending(less, r) && Rows(r) == s - {m}
    ensures Ascending(less, [m] + r) && Rows([m] + r) == s
  {
    var q := [m] + r;
    forall i, j | 0 <= i < j < |q| ensures less(q[i], q[j]) {
      assert q[j] == r[j - 1] && r[j - 1] in Rows(r);
    }
    forall x ensures x in Rows(q) <==> x in s {
      assert x in q <==> x == m || x in r;
      assert x in r <==> x in Rows(r);
    }
  }

  lemma {:induction false} NoRows<K>(q: seq<K>)
    ensures q == [] <==> Rows(q) == {}
  {
    if q != [] {
      assert q[0] in Rows(q);
    }
  }

  /** ORDER BY lists every row once, in ascending order. */
  lemma {:induction false} OrderByIsSorted<K(!new)>(less: (K, K) -> bool, s: set<K>)
    requires StrictOrder(less)
    ensures Ascending(less, OrderBy(less, s)) && Rows(OrderBy(less, s)) == s && |OrderBy(less, s)| == |s|
    decreases |s|
  {
    if s != {} {
      var q := OrderBy(less, s);
      assert IsFirst(less, s, q[0]) && q[1..] == OrderBy(less, s - {q[0]});
      var m, r := q[0], q[1..];
      OrderByIsSorted(less, s - {m});
      Prepend(less, s, m, r);
      assert q == [m] + r;
    }
  }

  lemma {:induction false} TailRows<K(!new)>(less: (K, K) -> bool, q: seq<K>)
    requires StrictOrder(less) && Ascending(less, q) && q != []
    ensures Rows(q[1..]) == Rows(q) - {q[0]} && Ascending(less, q[1..])
  {
    forall x ensures x in Rows(q[1..]) <==> x in Rows(q) - {q[0]} {
      if x in Rows(q[1..]) {
        var i :| 0 <= i < |q[1..]| && q[1..][i] == x;
        assert q[i + 1] == x && less(q[0], q[i + 1]);
      }
      if x in Rows(q) - {q[0]} {
        var i :| 0 <= i < |q| && q[i] == x;
        assert q[1..][i - 1] == x;
      }
    }
  }

  /** There is only one ascending list of the same rows. */
  lemma {:induction false} SortedIsUnique<K(!new)>(less: (K, K) -> bool, p: seq<K>, q: seq<K>)
    requires StrictOrder(less) && Ascending(less, p) && Ascending(less, q) && Rows(p) == Rows(q)
    ensures p == q
    decreases |p|
  {
    NoRows(p);
    NoRows(q);
    if p != [] {
      assert p[0] in Rows(q) && q[0] in Rows(p);
      assert p[0] == q[0];
      TailRows(less, p);
      TailRows(less, q);
      SortedIsUnique(less, p[1..], q[1..]);
      assert p == [p[0]] + p[1..] && q == [q[0]] + q[1..];
    }
  }

  /** LIMIT n. */
  function Limit<K>(q: seq<K>, n: nat): seq<K> {
    if |q| <= n then q else q[..n]
  }

  /** All rows of `a` come before all rows of `b`. */
  ghost predicate Before<K>(less: (K, K) -> bool, a: set<K>, b: set<K>) {
    forall x, y :: x in a && y in b ==> less(x, y)
  }

  lemma {:induction false} RowsConcat<K>(p: seq<K>, q: seq<K>)
    ensures Rows(p + q) == Rows(p) + Rows(q)
  {
  }

  /** UNION ALL of two parts that follow each other. */
  lemma {:induction false} OrderByUnion<K(!new)>(less: (K, K) -> bool, a: set<K>, b: set<K>)
    requires StrictOrder(less) && Before(less, a, b)
    ensures OrderBy(less, a + b) == OrderBy(less, a) + OrderBy(less, b)
  {
    hide StrictOrder, OrderBy;
    var p, q := OrderBy(less, a), OrderBy(less, b);
    OrderByIsSorted(less, a);
    OrderByIsSorted(less, b);
    OrderByIsSorted(less, a + b);
    forall i, j | 0 <= i < j < |p + q| ensures less((p + q)[i], (p + q)[j]) {
      assert i < |p| ==> p[i] in Rows(p);
      assert j >= |p| ==> q[j - |p|] in Rows(q);
    }
    RowsConcat(p, q);
    SortedIsUnique(less, OrderBy(less, a + b), p + q);
  }

  lemma {:induction false} OrderByLimit<K(!new)>(less: (K, K) -> bool, s: set<K>, n: nat)
    requires StrictOrder(less)
    ensures OrderBy(less, Rows(Limit(OrderBy(less, s), n))) == Limit(OrderBy(less, s), n)
    ensures Rows(Limit(OrderBy(less, s), n)) <= s
  {
    var p := Limit(OrderBy(less, s), n);
    OrderByIsSorted(less, s);
    OrderByIsSorted(less, Rows(p));
    SortedIsUnique(less, OrderBy(less, Rows(p)), p);
    assert forall x :: x in p ==> x in OrderBy(less, s);
  }

  /** The query of the examples: each part ordered and limited on its own, the union ordered and limited again. */
  function TwoPartQuery<K(!new, ==)>(less: (K, K) -> bool, a: set<K>, b: set<K>, n: nat): seq<K>
    requires StrictOrder(less)
  {
    var part1, part2 := Rows(Limit(OrderBy(less, a), n)), Rows(Limit(OrderBy(less, b), n));
    Limit(OrderBy(less, part1 + part2), n)
  }

  lemma {:induction false} LimitConcat<K>(p: seq<K>, q: seq<K>, n: nat)
    ensures Limit(Limit(p, n) + Limit(q, n), n) == Limit(p + q, n)
  {
  }

  /** Limiting the parts first loses nothing: the query gives the first n rows of both parts together. */
  lemma {:induction false} TwoPartQueryIsPage<K(!new)>(less: (K, K) -> bool, a: set<K>, b: set<K>, n: nat)
    requires StrictOrder(less) && Before(less, a, b)
    ensures TwoPartQuery(less, a, b, n) == Limit(OrderBy(less, a + b), n)
  {
    hide StrictOrder, OrderBy, Rows, Limit;
    var p, q := OrderBy(less, a), OrderBy(less, b);
    var part1, part2 := Rows(Limit(p, n)), Rows(Limit(q, n));
    OrderByLimit(less, a, n);
    OrderByLimit(less, b, n);
    assert Before(less, part1, part2);
    OrderByUnion(less, part1, part2);
    OrderByUnion(less, a, b);
    LimitConcat(p, q, n);
  }

  function After<K(==)>(less: (K, K) -> bool, s: set<K>, cursor: K): set<K> {
    set x | x in s && less(cursor, x)
  }

  lemma {:induction false} Follows<K(!new)>(less: (K, K) -> bool, a: K, b: K, c: K)
    requires StrictOrder(less) && less(a, b) && less(b, c)
    ensures less(a, c) && a != c
  {
  }

  /** Moving the cursor to a row of the page leaves the rows that follow it. */
  lemma {:induction false} AfterRow<K(!new)>(less: (K, K) -> bool, s: set<K>, cursor: K, i: nat)
    requires StrictOrder(less) && i < |OrderBy(less, After(less, s, cursor))|
    ensures OrderBy(less, After(less, s, OrderBy(less, After(less, s, cursor))[i]))
         == OrderBy(less, After(less, s, cursor))[i + 1..]
  {
    hide StrictOrder, OrderBy;
    var q := OrderBy(less, After(less, s, cursor));
    var rest := q[i + 1..];
    OrderByIsSorted(less, After(less, s, cursor));
    OrderByIsSorted(less, After(less, s, q[i]));
    assert q[i] in Rows(q);
    forall x ensures x in Rows(rest) <==> x in After(less, s, q[i]) {
      if x in Rows(rest) {
        var j :| 0 <= j < |rest| && rest[j] == x;
        assert q[j + i + 1] == x && x in Rows(q);
      }
      if x in After(less, s, q[i]) {
        Follows(less, cursor, q[i], x);
        assert x in Rows(q);
        var j :| 0 <= j < |q| && q[j] == x;
        if j < i {
          Follows(less, x, q[i], x);
        } else if j == i {
          Follows(less, x, x, x);
        }
        assert rest[j - i - 1] == x;
      }
    }
    assert Ascending(less, rest);
    SortedIsUnique(less, OrderBy(less, After(less, s, q[i])), rest);
  }
}
