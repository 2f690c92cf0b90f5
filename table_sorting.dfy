/**
 * The sorting half of the data table: the sort configuration, the transition a
 * header click causes, the comparator, and the sorted view of the rows.
 *
 * Rows are opaque values of a type `T`; the table reads one attribute of a row
 * through `attr(row, dataIndex)`, whose values are integers (a totally ordered
 * type standing for the attribute's natural order).
 */
module TableSorting {
  import opened Wrappers

  datatype Direction = Asc | Desc

  /** A column descriptor: `key` and `title` are for display, `dataIndex` names the attribute read. */
  datatype Column = Column(key: string, title: string, dataIndex: string, sortable: bool)

  /** The active sort attribute, if any, and the direction. */
  datatype SortConfig = SortConfig(key: Option<string>, direction: Direction)

  /** The state on mount: no sort key, ascending. */
  const InitialSort: SortConfig := SortConfig(None, Asc)

  /**
   * The sort configuration after a click on `column`'s header: a non-sortable
   * column changes nothing; a sortable one becomes the key, descending only when
   * it already was the key in ascending order.
   */
  function NextSortConfig(cfg: SortConfig, column: Column): (r: SortConfig)
    ensures !column.sortable ==> r == cfg
    ensures column.sortable ==> r.key == Some(column.dataIndex)
    ensures column.sortable ==>
              (r.direction == Desc <==> cfg.key == Some(column.dataIndex) && cfg.direction == Asc)
  {
    if !column.sortable then cfg
    else
      var direction := if cfg.key == Some(column.dataIndex) && cfg.direction == Asc then Desc else Asc;
      SortConfig(Some(column.dataIndex), direction)
  }

  /** The configuration after `n` successive clicks on the same header. */
  function Clicks(cfg: SortConfig, column: Column, n: nat): SortConfig
  {
    if n == 0 then cfg else NextSortConfig(Clicks(cfg, column, n - 1), column)
  }

  function Flip(d: Direction): Direction
  {
    if d == Asc then Desc else Asc
  }

  /** After the first click, every further click on the same sortable header reverses the direction. */
  lemma {:induction false} ClicksAlternate(cfg: SortConfig, column: Column, n: nat)
    requires column.sortable && n >= 1
    ensures Clicks(cfg, column, n).key == Some(column.dataIndex)
    ensures Clicks(cfg, column, n + 1).direction == Flip(Clicks(cfg, column, n).direction)
  {
    if n > 1 {
      ClicksAlternate(cfg, column, n - 1);
    }
  }

  /**
   * Clicking a header that is not the active key gives asc, desc, asc, ...:
   * odd click counts sort ascending, even ones descending.
   */
  lemma {:induction false} ClicksFromOtherKey(cfg: SortConfig, column: Column, n: nat)
    requires column.sortable && n >= 1
    requires cfg.key != Some(column.dataIndex)
    ensures Clicks(cfg, column, n).key == Some(column.dataIndex)
    ensures Clicks(cfg, column, n).direction == if n % 2 == 1 then Asc else Desc
  {
    if n > 1 {
      ClicksFromOtherKey(cfg, column, n - 1);
      ClicksAlternate(cfg, column, n - 1);
    }
  }

  /** The source treats a falsy key as "no sort": an absent key or the empty attribute name. */
  predicate Active(cfg: SortConfig)
  {
    cfg.key.Some? && cfg.key.value != ""
  }

  /** The comparator handed to the sort: negative when `a` belongs before `b`. */
  function Compare(d: Direction, a: int, b: int): (c: int)
    ensures c == -1 || c == 0 || c == 1
    ensures c == 0 <==> a == b
    ensures d == Asc ==> (c < 0 <==> a < b)
    ensures d == Desc ==> (c < 0 <==> a > b)
  {
    if a < b then (if d == Asc then -1 else 1)
    else if a > b then (if d == Asc then 1 else -1)
    else 0
  }

  /** The comparator is antisymmetric, as a sort comparator must be. */
  lemma CompareAntisymmetric(d: Direction, a: int, b: int)
    ensures Compare(d, a, b) == -Compare(d, b, a)
  {
  }

  /** `a` may stand before `b` in a sequence ordered in direction `d`. */
  predicate InOrder(d: Direction, a: int, b: int)
  {
    if d == Asc then a <= b else a >= b
  }

  ghost predicate Ordered<T>(s: seq<T>, key: T -> int, d: Direction)
  {
    forall i, j :: 0 <= i < j < |s| ==> InOrder(d, key(s[i]), key(s[j]))
  }

  /** The rows of `s` whose key is `v`, in their order in `s`. */
  function WithKey<T>(s: seq<T>, key: T -> int, v: int): seq<T>
  {
    if s == [] then []
    else (if key(s[0]) == v then [s[0]] else []) + WithKey(s[1..], key, v)
  }

  /**
   * Inserts `x` into `s` in front of the first element that does not compare
   * strictly before `x`.
   */
  function Insert<T>(x: T, s: seq<T>, key: T -> int, d: Direction): (r: seq<T>)
    ensures multiset(r) == multiset(s) + multiset{x}
  {
    if s == [] then [x]
    else
      assert s == [s[0]] + s[1..];
      if Compare(d, key(s[0]), key(x)) < 0 then [s[0]] + Insert(x, s[1..], key, d)
      else [x] + s
  }

  /** A stable sort of `s` under `Compare` (insertion sort). */
  function Sort<T>(s: seq<T>, key: T -> int, d: Direction): (r: seq<T>)
    ensures multiset(r) == multiset(s)
  {
    if s == [] then []
    else
      assert s == [s[0]] + s[1..];
      Insert(s[0], Sort(s[1..], key, d), key, d)
  }

  lemma {:induction false} InsertOrdered<T>(x: T, s: seq<T>, key: T -> int, d: Direction)
    requires Ordered(s, key, d)
    ensures Ordered(Insert(x, s, key, d), key, d)
  {
    if s != [] {
      var r := Insert(x, s, key, d);
      if Compare(d, key(s[0]), key(x)) < 0 {
        var tail := Insert(x, s[1..], key, d);
        assert Ordered(s[1..], key, d) by {
          forall i, j | 0 <= i < j < |s[1..]|
            ensures InOrder(d, key(s[1..][i]), key(s[1..][j]))
          {
            assert s[1..][i] == s[i + 1] && s[1..][j] == s[j + 1];
          }
        }
        InsertOrdered(x, s[1..], key, d);
        assert r == [s[0]] + tail;
        forall j | 0 <= j < |tail| ensures InOrder(d, key(s[0]), key(tail[j])) {
          assert tail[j] in multiset(tail);
          assert tail[j] == x || tail[j] in multiset(s[1..]);
          if tail[j] != x {
            var k :| 0 <= k < |s[1..]| && s[1..][k] == tail[j];
            assert s[k + 1] == tail[j];
          }
        }
        forall i, j | 0 <= i < j < |r| ensures InOrder(d, key(r[i]), key(r[j])) {
          if i == 0 {
            assert r[j] == tail[j - 1];
          } else {
            assert r[i] == tail[i - 1] && r[j] == tail[j - 1];
          }
        }
      } else {
        assert r == [x] + s;
        forall i, j | 0 <= i < j < |r| ensures InOrder(d, key(r[i]), key(r[j])) {
          if i == 0 {
            assert r[j] == s[j - 1];
            if j > 1 {
              assert InOrder(d, key(s[0]), key(s[j - 1]));
            }
          } else {
            assert r[i] == s[i - 1] && r[j] == s[j - 1];
          }
        }
      }
    }
  }

  /** With direction `d` the sorted rows are in order of their keys. */
  lemma {:induction false} SortOrdered<T>(s: seq<T>, key: T -> int, d: Direction)
    ensures Ordered(Sort(s, key, d), key, d)
  {
    if s != [] {
      SortOrdered(s[1..], key, d);
      InsertOrdered(s[0], Sort(s[1..], key, d), key, d);
    }
  }

  lemma {:induction false} WithKeyCons<T>(x: T, t: seq<T>, key: T -> int, v: int)
    ensures WithKey([x] + t, key, v) == (if key(x) == v then [x] else []) + WithKey(t, key, v)
  {
    assert ([x] + t)[0] == x && ([x] + t)[1..] == t;
  }

  lemma {:induction false} InsertStable<T>(x: T, s: seq<T>, key: T -> int, d: Direction, v: int)
    ensures WithKey(Insert(x, s, key, d), key, v) == (if key(x) == v then [x] else []) + WithKey(s, key, v)
  {
    if s == [] {
      WithKeyCons(x, [], key, v);
    } else if Compare(d, key(s[0]), key(x)) < 0 {
      InsertStable(x, s[1..], key, d, v);
      assert Insert(x, s, key, d) == [s[0]] + Insert(x, s[1..], key, d);
      WithKeySwapHead(x, s[0], Insert(x, s[1..], key, d), s[1..], key, v);
      assert s == [s[0]] + s[1..];
    } else {
      assert Insert(x, s, key, d) == [x] + s;
      WithKeyCons(x, s, key, v);
    }
  }

  /** Moving `x` behind a head `y` of a different key does not change any key's rows. */
  lemma {:induction false} WithKeySwapHead<T>(x: T, y: T, t: seq<T>, u: seq<T>, key: T -> int, v: int)
    requires key(y) != key(x)
    requires WithKey(t, key, v) == (if key(x) == v then [x] else []) + WithKey(u, key, v)
    ensures WithKey([y] + t, key, v) == (if key(x) == v then [x] else []) + WithKey([y] + u, key, v)
  {
    WithKeyCons(y, t, key, v);
    WithKeyCons(y, u, key, v);
    var sx: seq<T> := if key(x) == v then [x] else [];
    var sy: seq<T> := if key(y) == v then [y] else [];
    var w := WithKey(u, key, v);
    if key(x) == v {
      assert sy == [];
      assert sy + (sx + w) == sx + w == sx + (sy + w);
    } else {
      assert sx == [];
      assert sy + (sx + w) == sy + w == sx + (sy + w);
    }
  }

  lemma {:induction false} WithKeyMembers<T>(s: seq<T>, key: T -> int, v: int, x: T)
    requires x in WithKey(s, key, v)
    ensures x in s && key(x) == v
  {
    if s != [] {
      WithKeyCons(s[0], s[1..], key, v);
      assert s == [s[0]] + s[1..];
      if x != s[0] || key(s[0]) != v {
        WithKeyMembers(s[1..], key, v, x);
      }
    }
  }

  /**
   * Stability: the rows sharing any one key value appear in the sorted view in
   * the order they have in the input, in both directions.
   */
  lemma {:induction false} SortStable<T>(s: seq<T>, key: T -> int, d: Direction, v: int)
    ensures WithKey(Sort(s, key, d), key, v) == WithKey(s, key, v)
  {
    if s != [] {
      SortStable(s[1..], key, d, v);
      InsertStable(s[0], Sort(s[1..], key, d), key, d, v);
    }
  }

  lemma {:induction false} InWithKey<T>(s: seq<T>, key: T -> int, x: T)
    requires x in s
    ensures x in WithKey(s, key, key(x))
  {
    if s[0] != x {
      InWithKey(s[1..], key, x);
    }
  }

  lemma InOrderAntisymmetric(d: Direction, a: int, b: int)
    requires InOrder(d, a, b) && InOrder(d, b, a)
    ensures a == b
  {
  }

  /**
   * Two sequences ordered in the same direction, with the same rows per key
   * value in the same order, are equal.
   */
  lemma {:induction false} OrderedStableUnique<T>(a: seq<T>, b: seq<T>, key: T -> int, d: Direction)
    requires Ordered(a, key, d) && Ordered(b, key, d)
    requires forall v :: WithKey(a, key, v) == WithKey(b, key, v)
    ensures a == b
    decreases |a|
  {
    if a != [] {
      WithKeyCons(a[0], a[1..], key, key(a[0]));
      assert a == [a[0]] + a[1..];
      assert WithKey(b, key, key(a[0])) != [];
    }
    if b != [] {
      WithKeyCons(b[0], b[1..], key, key(b[0]));
      assert b == [b[0]] + b[1..];
      assert WithKey(a, key, key(b[0])) != [];
    }
    if a != [] && b != [] {
      InWithKey(a, key, a[0]);
      InWithKey(b, key, b[0]);
      assert WithKey(a, key, key(a[0])) == WithKey(b, key, key(a[0]));
      assert WithKey(a, key, key(b[0])) == WithKey(b, key, key(b[0]));
      WithKeyMembers(b, key, key(a[0]), a[0]);
      WithKeyMembers(a, key, key(b[0]), b[0]);
      var i :| 0 <= i < |b| && b[i] == a[0];
      var j :| 0 <= j < |a| && a[j] == b[0];
      assert InOrder(d, key(b[0]), key(a[0])) by {
        if i > 0 { assert InOrder(d, key(b[0]), key(b[i])); }
      }
      assert InOrder(d, key(a[0]), key(b[0])) by {
        if j > 0 { assert InOrder(d, key(a[0]), key(a[j])); }
      }
      InOrderAntisymmetric(d, key(a[0]), key(b[0]));
      var v := key(a[0]);
      assert a == [a[0]] + a[1..] && b == [b[0]] + b[1..];
      WithKeyCons(a[0], a[1..], key, v);
      WithKeyCons(b[0], b[1..], key, v);
      assert a[0] == WithKey(a, key, v)[0] == WithKey(b, key, v)[0] == b[0];
      forall w ensures WithKey(a[1..], key, w) == WithKey(b[1..], key, w) {
        var h: seq<T> := if v == w then [a[0]] else [];
        WithKeyCons(a[0], a[1..], key, w);
        WithKeyCons(b[0], b[1..], key, w);
        assert WithKey(a, key, w) == h + WithKey(a[1..], key, w);
        assert WithKey(b, key, w) == h + WithKey(b[1..], key, w);
        assert WithKey(a[1..], key, w) == WithKey(a, key, w)[|h|..];
        assert WithKey(b[1..], key, w) == WithKey(b, key, w)[|h|..];
      }
      assert Ordered(a[1..], key, d) by {
        forall p, q | 0 <= p < q < |a[1..]| ensures InOrder(d, key(a[1..][p]), key(a[1..][q])) {
          assert a[1..][p] == a[p + 1] && a[1..][q] == a[q + 1];
        }
      }
      assert Ordered(b[1..], key, d) by {
        forall p, q | 0 <= p < q < |b[1..]| ensures InOrder(d, key(b[1..][p]), key(b[1..][q])) {
          assert b[1..][p] == b[p + 1] && b[1..][q] == b[q + 1];
        }
      }
      OrderedStableUnique(a[1..], b[1..], key, d);
    }
  }

  /**
   * Any stable sort under `Compare` produces exactly `Sort`'s result: the
   * model does not depend on which stable algorithm the platform uses.
   */
  lemma SortIsTheStableSort<T>(s: seq<T>, r: seq<T>, key: T -> int, d: Direction)
    requires Ordered(r, key, d)
    requires forall v :: WithKey(r, key, v) == WithKey(s, key, v)
    ensures r == Sort(s, key, d)
  {
    SortOrdered(s, key, d);
    forall v ensures WithKey(r, key, v) == WithKey(Sort(s, key, d), key, v) {
      SortStable(s, key, d, v);
    }
    OrderedStableUnique(r, Sort(s, key, d), key, d);
  }

  /** Reads the attribute `field` of a row. */
  function ByAttr<T>(attr: (T, string) -> int, field: string): T -> int
  {
    (row: T) => attr(row, field)
  }

  /**
   * The rows as displayed: `data` itself with no active key, otherwise a
   * sorted copy (the input sequence is a value and is never changed).
   */
  function SortedData<T>(data: seq<T>, cfg: SortConfig, attr: (T, string) -> int): (r: seq<T>)
    ensures !Active(cfg) ==> r == data
    ensures multiset(r) == multiset(data)
  {
    if !Active(cfg) then data else Sort(data, ByAttr(attr, cfg.key.value), cfg.direction)
  }

  /** Ascending sorts are non-decreasing, descending ones non-increasing, in the key attribute. */
  lemma SortedDataOrdered<T>(data: seq<T>, cfg: SortConfig, attr: (T, string) -> int)
    requires Active(cfg)
    ensures var r := SortedData(data, cfg, attr);
      cfg.direction == Asc ==>
        forall i, j :: 0 <= i < j < |r| ==> attr(r[i], cfg.key.value) <= attr(r[j], cfg.key.value)
    ensures var r := SortedData(data, cfg, attr);
      cfg.direction == Desc ==>
        forall i, j :: 0 <= i < j < |r| ==> attr(r[i], cfg.key.value) >= attr(r[j], cfg.key.value)
  {
    SortOrdered(data, ByAttr(attr, cfg.key.value), cfg.direction);
  }

  /** Rows with equal key values keep their relative order, whatever the direction. */
  lemma SortedDataStable<T>(data: seq<T>, cfg: SortConfig, attr: (T, string) -> int, v: int)
    requires Active(cfg)
    ensures WithKey(SortedData(data, cfg, attr), ByAttr(attr, cfg.key.value), v)
         == WithKey(data, ByAttr(attr, cfg.key.value), v)
  {
    SortStable(data, ByAttr(attr, cfg.key.value), cfg.direction, v);
  }
}
