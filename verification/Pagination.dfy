/** The paging example: schools keyed by (city, number), read page by page after the last key seen. */
module Pagination {
  import opened Keyset

  /** The primary key of table `schools`. */
  datatype Key = Key(city: string, number: nat)

  /** Order of Utf8 values: code point by code point, a proper prefix first. */
  predicate CityLess(a: string, b: string) {
    if b == [] then false
    else if a == [] then true
    else a[0] < b[0] || (a[0] == b[0] && CityLess(a[1..], b[1..]))
  }

  predicate KeyLess(a: Key, b: Key) {
    CityLess(a.city, b.city) || (a.city == b.city && a.number < b.number)
  }

  /** Up to `i` the two are the same; there the first one ends or has the smaller character. */
  ghost predicate FirstDifference(a: string, b: string, i: nat) {
    i <= |a| && i < |b| && a[..i] == b[..i] && (i == |a| || a[i] < b[i])
  }

  lemma {:induction false} LessAtDifference(a: string, b: string, i: nat)
    requires FirstDifference(a, b, i)
    ensures CityLess(a, b)
    decreases i
  {
    if i > 0 {
      assert a[0] == a[..i][0] && b[0] == b[..i][0];
      assert a[1..][..i - 1] == a[..i][1..] && b[1..][..i - 1] == b[..i][1..];
      LessAtDifference(a[1..], b[1..], i - 1);
    }
  }

  lemma {:induction false} DifferenceOfLess(a: string, b: string) returns (i: nat)
    requires CityLess(a, b)
    ensures FirstDifference(a, b, i)
  {
    if a == [] || a[0] < b[0] {
      i := 0;
    } else {
      var j := DifferenceOfLess(a[1..], b[1..]);
      i := j + 1;
      assert a[..i] == [a[0]] + a[1..][..j] && b[..i] == [b[0]] + b[1..][..j];
    }
  }

  /** The order of cities without recursion: a proper prefix, or a smaller character at the first difference. */
  lemma {:induction false} CityOrder(a: string, b: string)
    ensures CityLess(a, b) <==> exists i: nat :: FirstDifference(a, b, i)
  {
    if CityLess(a, b) {
      var i := DifferenceOfLess(a, b);
    }
    forall i: nat | FirstDifference(a, b, i) ensures CityLess(a, b) {
      LessAtDifference(a, b, i);
    }
  }

  lemma {:induction false} CityIrreflexive(a: string)
    ensures !CityLess(a, a)
  {
    if a != [] {
      CityIrreflexive(a[1..]);
    }
  }

  lemma {:induction false} CityTransitive(a: string, b: string, c: string)
    requires CityLess(a, b) && CityLess(b, c)
    ensures CityLess(a, c)
  {
    if a != [] && a[0] == b[0] == c[0] {
      CityTransitive(a[1..], b[1..], c[1..]);
    }
  }

  lemma {:induction false} CityTotal(a: string, b: string)
    requires a != b
    ensures CityLess(a, b) || CityLess(b, a)
  {
    if a != [] && b != [] && a[0] == b[0] {
      assert a == [a[0]] + a[1..] && b == [b[0]] + b[1..];
      CityTotal(a[1..], b[1..]);
    }
  }

  lemma {:induction false} KeyOrder()
    ensures StrictOrder(KeyLess)
  {
    forall a ensures !KeyLess(a, a) {
      CityIrreflexive(a.city);
    }
    forall a, b, c | KeyLess(a, b) && KeyLess(b, c) ensures KeyLess(a, c) {
      if CityLess(a.city, b.city) && CityLess(b.city, c.city) {
        CityTransitive(a.city, b.city, c.city);
      }
    }
    forall a, b | a != b ensures KeyLess(a, b) || KeyLess(b, a) {
      if a.city != b.city {
        CityTotal(a.city, b.city);
      }
    }
  }

  /** `$part1`: the rest of the last city. */
  function SameCity(schools: set<Key>, last: Key): set<Key> {
    set k | k in schools && k.city == last.city && k.number > last.number
  }

  /** `$part2`: the later cities. */
  function LaterCities(schools: set<Key>, last: Key): set<Key> {
    set k | k in schools && CityLess(last.city, k.city)
  }

  /** The two parts together are the rows after the cursor, one part after the other. */
  lemma {:induction false} PartsAreAfter(schools: set<Key>, last: Key)
    ensures SameCity(schools, last) + LaterCities(schools, last) == After(KeyLess, schools, last)
    ensures Before(KeyLess, SameCity(schools, last), LaterCities(schools, last))
  {
  }

  /** `SelectPagingTransaction`: exactly the next `limit` rows after the cursor in (city, number) order. */
  method SelectPage(schools: set<Key>, limit: nat, last: Key) returns (rows: seq<Key>)
    ensures StrictOrder(KeyLess)
    ensures rows == Limit(OrderBy(KeyLess, After(KeyLess, schools, last)), limit)
  {
    KeyOrder();
    rows := TwoPartQuery(KeyLess, SameCity(schools, last), LaterCities(schools, last), limit);
    PartsAreAfter(schools, last);
    TwoPartQueryIsPage(KeyLess, SameCity(schools, last), LaterCities(schools, last), limit);
  }

  /** `SelectPaging`: prints a page and moves the cursor; answers whether there was one. */
  method SelectPaging(schools: set<Key>, limit: nat, last: Key) returns (notEmpty: bool, last': Key, printed: seq<Key>)
    ensures StrictOrder(KeyLess)
    ensures var todo := OrderBy(KeyLess, After(KeyLess, schools, last));
            && printed == Limit(todo, limit)
            && (notEmpty <==> printed != [])
            && OrderBy(KeyLess, After(KeyLess, schools, last')) == todo[|printed|..]
  {
    KeyOrder();
    var page := SelectPage(schools, limit, last);
    ghost var todo := OrderBy(KeyLess, After(KeyLess, schools, last));
    notEmpty, last', printed := false, last, [];
    if page == [] {
      return;
    }
    notEmpty := true;
    for i := 0 to |page|
      invariant printed == page[..i]
      invariant i > 0 ==> last' == page[i - 1]
    {
      last' := Key(page[i].city, page[i].number);
      printed := printed + [last'];
    }
    AfterRow(KeyLess, schools, last, |page| - 1);
  }

  const MAX_PAGES := 10
  const FIRST := Key("", 0)

  /** Everything but the row with the empty city and number 0 comes after the first cursor. */
  lemma {:induction false} AfterFirst(schools: set<Key>)
    ensures After(KeyLess, schools, FIRST) == schools - {FIRST}
  {
    CityIrreflexive("");
  }

  /** The number of rows on that many full pages. */
  function OnPages(limit: nat, pages: nat): nat {
    limit * pages
  }

  lemma {:induction false} NoPage(all: seq<Key>, limit: nat)
    ensures Limit(all, OnPages(limit, 0)) == [] && all[0..] == all
  {
  }

  lemma {:induction false} OnePageMore(limit: nat, pages: nat)
    ensures OnPages(limit, pages + 1) == OnPages(limit, pages) + limit
    ensures limit == 0 ==> OnPages(limit, pages) == 0
  {
  }

  lemma {:induction false} NextPage(all: seq<Key>, printed: seq<Key>, limit: nat, page: nat)
    requires printed == Limit(all, OnPages(limit, page))
    ensures printed + Limit(all[|printed|..], limit) == Limit(all, OnPages(limit, page + 1))
    ensures |all[|printed|..]| == |all| - |printed|
    ensures var next := printed + Limit(all[|printed|..], limit);
            && |next| <= |all| && all[|next|..] == all[|printed|..][|Limit(all[|printed|..], limit)|..]
            && (Limit(all[|printed|..], limit) == [] ==> limit == 0 || next == all)
  {
    hide OnPages;
    OnePageMore(limit, page);
    var n, rest := OnPages(limit, page), all[|printed|..];
    if |all| <= n {
      assert rest == [];
    } else if |all| <= n + limit {
      assert printed + rest == all;
    } else {
      assert printed + rest[..limit] == all[..n + limit];
    }
  }

  lemma {:induction false} FewerPages(limit: nat, pages: nat, more: nat)
    requires pages <= more
    ensures OnPages(limit, pages) <= OnPages(limit, more) && (limit == 0 ==> OnPages(limit, more) == 0)
  {
  }

  lemma {:induction false} AllPages(all: seq<Key>, printed: seq<Key>, limit: nat, page: nat)
    requires printed == Limit(all, OnPages(limit, page)) && page <= MAX_PAGES + 1 && Ascending(KeyLess, all)
    requires page == MAX_PAGES + 1 || limit == 0 || printed == all
    ensures printed == Limit(all, OnPages(limit, MAX_PAGES + 1)) && Ascending(KeyLess, printed) && Rows(printed) <= Rows(all)
    ensures |printed| <= OnPages(limit, MAX_PAGES) <==> limit == 0 || |all| <= OnPages(limit, MAX_PAGES)
  {
    hide KeyLess, OnPages;
    FewerPages(limit, page, MAX_PAGES + 1);
    OnePageMore(limit, MAX_PAGES);
    OnePageMore(limit, page);
    assert forall x :: x in printed ==> x in all;
  }

  /** The page loop of `Run`, with its page limit: it prints a sorted list without gaps or repetitions, namely the first
      MAX_PAGES + 1 pages of rows of the table without the row ("", 0). That is one page more than MAX_PAGES, and it
      prints no more than MAX_PAGES pages exactly when there are no more rows than that. */
  method Run(schools: set<Key>, limit: nat) returns (printed: seq<Key>)
    ensures StrictOrder(KeyLess)
    ensures printed == Limit(OrderBy(KeyLess, schools - {FIRST}), OnPages(limit, MAX_PAGES + 1))
    ensures Ascending(KeyLess, printed) && Rows(printed) <= schools
    ensures |printed| <= OnPages(limit, MAX_PAGES) <==> limit == 0 || |schools - {FIRST}| <= OnPages(limit, MAX_PAGES)
  {
    hide StrictOrder, KeyLess, OrderBy, After, Limit, Ascending, OnPages;
    KeyOrder();
    AfterFirst(schools);
    ghost var all := OrderBy(KeyLess, schools - {FIRST});
    OrderByIsSorted(KeyLess, schools - {FIRST});
    var last, page, pageNotEmpty := FIRST, 0, true;
    printed := [];
    NoPage(all, limit);
    while pageNotEmpty && page <= MAX_PAGES
      invariant 0 <= page <= MAX_PAGES + 1
      invariant printed == Limit(all, OnPages(limit, page)) && |printed| <= |all|
      invariant OrderBy(KeyLess, After(KeyLess, schools, last)) == all[|printed|..]
      invariant !pageNotEmpty ==> limit == 0 || printed == all
    {
      page := page + 1;
      var rows;
      ghost var before := printed;
      pageNotEmpty, last, rows := SelectPaging(schools, limit, last);
      printed := printed + rows;
      NextPage(all, before, limit, page - 1);
    }
    AllPages(all, printed, limit, page);
  }

  /** The schools with the numbers below `n` of one city. */
  function Numbered(n: nat): set<Key> {
    if n == 0 then {} else Numbered(n - 1) + {Key("a", n - 1)}
  }

  lemma {:induction false} NumberedSize(n: nat)
    ensures |Numbered(n)| == n
    ensures forall k :: k in Numbered(n) ==> k.city == "a" && k.number < n
  {
    if n > 0 {
      NumberedSize(n - 1);
    }
  }

  /** For every page size there is a table of which eleven full pages are printed. */
  method ElevenPages(limit: nat) returns (schools: set<Key>, printed: seq<Key>)
    requires limit > 0
    ensures schools == Numbered(OnPages(limit, 11)) && Rows(printed) == schools
    ensures |printed| == OnPages(limit, 11) > OnPages(limit, MAX_PAGES)
  {
    hide OnPages;
    schools := Numbered(OnPages(limit, 11));
    NumberedSize(OnPages(limit, 11));
    OnePageMore(limit, MAX_PAGES);
    printed := Run(schools, limit);
    assert schools - {FIRST} == schools;
    OrderByIsSorted(KeyLess, schools);
  }
}
