/**
 * prom::http_requests_total, the request counter table of src/prometheus.cpp:
 * a std::map from path to a std::map from (method, status code) to a uint64_t count.
 * A std::map is an ordered container, so the table is an association list kept sorted by key,
 * and iterating it visits the keys in ascending order.
 */
module Counters {
  import opened Http

  /** The counts are uint64_t: incrementing wraps around modulo 2^64. */
  const COUNT_MODULUS: nat := 0x1_0000_0000_0000_0000

  /** Arduino String's operator<: strcmp order, where a proper prefix sorts first. */
  predicate StrLess(a: string, b: string) {
    LessFrom(a, b, 0)
  }

  /** `a` sorts before `b` when compared from index `i` on. */
  predicate LessFrom(a: string, b: string, i: nat)
    decreases |a| - i
  {
    if i >= |b| then false
    else if i >= |a| then true
    else a[i] < b[i] || (a[i] == b[i] && LessFrom(a, b, i + 1))
  }

  lemma {:induction false} LessFromIrreflexive(a: string, i: nat)
    ensures !LessFrom(a, a, i)
    decreases |a| - i
  {
    if i < |a| {
      LessFromIrreflexive(a, i + 1);
    }
  }

  lemma {:induction false} LessFromTransitive(a: string, b: string, c: string, i: nat)
    requires LessFrom(a, b, i) && LessFrom(b, c, i)
    ensures LessFrom(a, c, i)
    decreases |a| - i
  {
    if i < |a| && i < |b| && i < |c| && a[i] == b[i] && b[i] == c[i] {
      LessFromTransitive(a, b, c, i + 1);
    }
  }

  lemma {:induction false} LessFromTotal(a: string, b: string, i: nat)
    requires i <= |a| && i <= |b| && a[..i] == b[..i]
    ensures LessFrom(a, b, i) || LessFrom(b, a, i) || a == b
    decreases |a| - i
  {
    if i < |a| && i < |b| && a[i] == b[i] {
      assert a[..i + 1] == a[..i] + [a[i]] && b[..i + 1] == b[..i] + [b[i]];
      LessFromTotal(a, b, i + 1);
    } else if i == |a| && i == |b| {
      assert a == a[..i] && b == b[..i];
    }
  }

  /** StrLess is a strict total order, so a sorted table holds each path once. */
  lemma StrLessOrder(a: string, b: string, c: string)
    ensures !StrLess(a, a)
    ensures StrLess(a, b) && StrLess(b, c) ==> StrLess(a, c)
    ensures a == b || StrLess(a, b) || StrLess(b, a)
  {
    LessFromIrreflexive(a, 0);
    if StrLess(a, b) && StrLess(b, c) {
      LessFromTransitive(a, b, c, 0);
    }
    LessFromTotal(a, b, 0);
  }

  /** The inner map's key: std::pair<WebRequestMethod, uint16_t>. */
  datatype Key = Key(requestMethod: Mask, status: nat)

  /** std::pair's operator<: by method, then by status code. */
  predicate KeyLess(x: Key, y: Key) {
    x.requestMethod < y.requestMethod || (x.requestMethod == y.requestMethod && x.status < y.status)
  }

  datatype Cell = Cell(key: Key, count: nat)

  datatype PathStats = PathStats(path: string, cells: seq<Cell>)

  type Table = seq<PathStats>

  /** The cells of one path: keys ascending, counts within uint64_t. */
  predicate CellsSorted(cells: seq<Cell>) {
    (forall i :: 0 < i < |cells| ==> KeyLess(cells[i - 1].key, cells[i].key))
    && forall i :: 0 <= i < |cells| ==> cells[i].count < COUNT_MODULUS
  }

  /**
   * The shape the table always has: paths ascending, every path holding at least one cell
   * (operator[] creates the inner map only to increment a cell of it).
   */
  predicate Sorted(t: Table) {
    (forall i :: 0 < i < |t| ==> StrLess(t[i - 1].path, t[i].path))
    && forall i :: 0 <= i < |t| ==> |t[i].cells| > 0 && CellsSorted(t[i].cells)
  }

  /** The count stored for `key`, 0 when the cell does not exist. */
  function CellCount(cells: seq<Cell>, key: Key): nat {
    if cells == [] then 0
    else if cells[0].key == key then cells[0].count
    else CellCount(cells[1..], key)
  }

  /** The cell of `key` exists. */
  predicate HasCell(cells: seq<Cell>, key: Key) {
    cells != [] && (cells[0].key == key || HasCell(cells[1..], key))
  }

  /** The cells of `path`, empty when the path was never requested. */
  function PathCells(t: Table, path: string): seq<Cell> {
    if t == [] then []
    else if t[0].path == path then t[0].cells
    else PathCells(t[1..], path)
  }

  /** http_requests_total[path][key], reading 0 for a missing entry. */
  function Count(t: Table, path: string, key: Key): nat {
    CellCount(PathCells(t, path), key)
  }

  /** `cells[key]++`: a missing cell is created with count 1, an existing one wraps at 2^64. */
  function BumpCells(cells: seq<Cell>, key: Key): seq<Cell> {
    if cells == [] then [Cell(key, 1)]
    else if cells[0].key == key then [Cell(key, (cells[0].count + 1) % COUNT_MODULUS)] + cells[1..]
    else if KeyLess(key, cells[0].key) then [Cell(key, 1)] + cells
    else [cells[0]] + BumpCells(cells[1..], key)
  }

  /** `http_requests_total[path][key]++`. */
  function Bump(t: Table, path: string, key: Key): Table {
    if t == [] then [PathStats(path, [Cell(key, 1)])]
    else if t[0].path == path then [PathStats(path, BumpCells(t[0].cells, key))] + t[1..]
    else if StrLess(path, t[0].path) then [PathStats(path, [Cell(key, 1)])] + t
    else [t[0]] + Bump(t[1..], path, key)
  }

  /** The number of (method, status) entries over all paths. */
  function Entries(t: Table): nat {
    if t == [] then 0 else |t[0].cells| + Entries(t[1..])
  }

  /** One request line's data: path, method, status code and count. */
  datatype Row = Row(path: string, key: Key, count: nat)

  function CellRows(path: string, cells: seq<Cell>): (r: seq<Row>)
    ensures |r| == |cells|
    ensures forall i :: 0 <= i < |r| ==> r[i] == Row(path, cells[i].key, cells[i].count)
  {
    if cells == [] then [] else [Row(path, cells[0].key, cells[0].count)] + CellRows(path, cells[1..])
  }

  /** The entries in the order the nested map iteration visits them. */
  function Rows(t: Table): seq<Row> {
    if t == [] then [] else CellRows(t[0].path, t[0].cells) + Rows(t[1..])
  }

  predicate RowLess(x: Row, y: Row) {
    StrLess(x.path, y.path) || (x.path == y.path && KeyLess(x.key, y.key))
  }

  // ---------------------------------------------------------------- lemmas about BumpCells

  /** In sorted cells, a key below the first key is absent. */
  lemma {:induction false} BelowFirstCell(cells: seq<Cell>, key: Key)
    requires CellsSorted(cells) && cells != [] && KeyLess(key, cells[0].key)
    ensures CellCount(cells, key) == 0 && !HasCell(cells, key)
    decreases |cells|
  {
    if |cells| > 1 {
      assert CellsSorted(cells[1..]);
      BelowFirstCell(cells[1..], key);
    }
  }

  /** The increment keeps the cells sorted and bounded; its first key is the old first key or the new one. */
  lemma {:induction false} BumpCellsSorted(cells: seq<Cell>, key: Key)
    requires CellsSorted(cells)
    ensures var r := BumpCells(cells, key);
      CellsSorted(r) && r != [] && (r[0].key == key || (cells != [] && r[0].key == cells[0].key))
    decreases |cells|
  {
    if cells != [] && cells[0].key != key && !KeyLess(key, cells[0].key) {
      assert CellsSorted(cells[1..]);
      BumpCellsSorted(cells[1..], key);
    }
  }

  /** The increment adds a cell exactly when the key was missing. */
  lemma {:induction false} BumpCellsLength(cells: seq<Cell>, key: Key)
    requires CellsSorted(cells)
    ensures |BumpCells(cells, key)| == |cells| + (if HasCell(cells, key) then 0 else 1)
    decreases |cells|
  {
    if cells != [] && cells[0].key != key {
      if KeyLess(key, cells[0].key) {
        BelowFirstCell(cells, key);
      } else {
        assert CellsSorted(cells[1..]);
        BumpCellsLength(cells[1..], key);
      }
    }
  }

  /** The increment adds one (modulo 2^64) to the cell of `key` and leaves every other cell as it was. */
  lemma {:induction false} BumpCellsCount(cells: seq<Cell>, key: Key, other: Key)
    requires CellsSorted(cells)
    ensures CellCount(BumpCells(cells, key), other)
         == if other == key then (CellCount(cells, key) + 1) % COUNT_MODULUS else CellCount(cells, other)
    decreases |cells|
  {
    if cells != [] && cells[0].key != key {
      if KeyLess(key, cells[0].key) {
        BelowFirstCell(cells, key);
      } else {
        assert CellsSorted(cells[1..]);
        BumpCellsCount(cells[1..], key, other);
      }
    }
  }

  // ---------------------------------------------------------------- lemmas about Bump

  lemma {:induction false} BelowFirstPath(t: Table, path: string)
    requires Sorted(t) && t != [] && StrLess(path, t[0].path)
    ensures PathCells(t, path) == []
    decreases |t|
  {
    StrLessOrder(path, path, path);
    if |t| > 1 {
      StrLessOrder(path, t[0].path, t[1].path);
      assert Sorted(t[1..]);
      BelowFirstPath(t[1..], path);
    }
  }

  /** The table stays sorted; its first path is the old first path or the new one. */
  lemma {:induction false} BumpSorted(t: Table, path: string, key: Key)
    requires Sorted(t)
    ensures var r := Bump(t, path, key);
      Sorted(r) && r != [] && (r[0].path == path || (t != [] && r[0].path == t[0].path))
    decreases |t|
  {
    if t == [] {
    } else if t[0].path == path {
      BumpCellsSorted(t[0].cells, key);
    } else if StrLess(path, t[0].path) {
    } else {
      StrLessOrder(path, t[0].path, t[0].path);
      assert Sorted(t[1..]);
      BumpSorted(t[1..], path, key);
    }
  }

  /** The increment touches exactly the cell [path][key]. */
  lemma {:induction false} BumpCount(t: Table, path: string, key: Key, p: string, k: Key)
    requires Sorted(t)
    ensures Count(Bump(t, path, key), p, k)
         == if p == path && k == key then (Count(t, path, key) + 1) % COUNT_MODULUS else Count(t, p, k)
    decreases |t|
  {
    if t == [] {
      var created := [Cell(key, 1)];
      assert created[1..] == [];
      assert Bump(t, path, key)[1..] == [];
    } else if t[0].path == path {
      if p == path {
        BumpCellsCount(t[0].cells, key, k);
      }
    } else if StrLess(path, t[0].path) {
      BelowFirstPath(t, path);
      var created := [Cell(key, 1)];
      assert created[1..] == [];
      assert Bump(t, path, key) == [PathStats(path, created)] + t;
      assert Bump(t, path, key)[1..] == t;
    } else {
      assert Sorted(t[1..]);
      BumpCount(t[1..], path, key, p, k);
    }
  }

  /** The increment adds an entry exactly when the cell did not exist. */
  lemma {:induction false} BumpEntries(t: Table, path: string, key: Key)
    requires Sorted(t)
    ensures Entries(Bump(t, path, key)) == Entries(t) + (if HasCell(PathCells(t, path), key) then 0 else 1)
    decreases |t|
  {
    if t == [] {
    } else if t[0].path == path {
      BumpCellsLength(t[0].cells, key);
      assert Bump(t, path, key)[1..] == t[1..];
    } else if StrLess(path, t[0].path) {
      BelowFirstPath(t, path);
      assert Bump(t, path, key)[1..] == t;
    } else {
      assert Sorted(t[1..]);
      BumpEntries(t[1..], path, key);
      assert Bump(t, path, key)[1..] == Bump(t[1..], path, key);
    }
  }

  // ---------------------------------------------------------------- lemmas about Rows

  /** The iteration yields one row per entry, in strictly ascending (path, method, status) order. */
  lemma {:induction false} RowsOrdered(t: Table)
    requires Sorted(t)
    ensures |Rows(t)| == Entries(t)
    ensures forall i :: 0 < i < |Rows(t)| ==> RowLess(Rows(t)[i - 1], Rows(t)[i])
    ensures t != [] ==> Rows(t) != [] && Rows(t)[0].path == t[0].path
    decreases |t|
  {
    if t != [] {
      var head := CellRows(t[0].path, t[0].cells);
      assert Sorted(t[1..]);
      RowsOrdered(t[1..]);
      var rest := Rows(t[1..]);
      assert Rows(t) == head + rest;
      forall i | 0 < i < |head + rest|
        ensures RowLess((head + rest)[i - 1], (head + rest)[i])
      {
        if i < |head| {
          assert (head + rest)[i - 1] == head[i - 1] && (head + rest)[i] == head[i];
        } else if i == |head| {
          assert (head + rest)[i - 1] == head[|head| - 1];
          assert (head + rest)[i] == rest[0];
        } else {
          assert (head + rest)[i - 1] == rest[i - 1 - |head|] && (head + rest)[i] == rest[i - |head|];
        }
      }
    }
  }

  /**
   * prom::http_requests_total itself. handleRequest is the one place that increments it and
   * getMetrics/getRequestCounts read it.
   */
  class RequestCounters {
    var table: Table

    ghost predicate Valid()
      reads this
    {
      Sorted(table)
    }

    constructor ()
      ensures Valid() && table == []
    {
      table := [];
    }

    /** `http_requests_total[path][{method, status}]++`. */
    method Increment(path: string, key: Key)
      requires Valid()
      modifies this
      ensures Valid()
      ensures table == Bump(old(table), path, key)
      ensures forall p, k ::
        Count(table, p, k) == if p == path && k == key then (Count(old(table), path, key) + 1) % COUNT_MODULUS
                              else Count(old(table), p, k)
    {
      BumpSorted(table, path, key);
      forall p, k
        ensures Count(Bump(table, path, key), p, k)
          == (if p == path && k == key then (Count(table, path, key) + 1) % COUNT_MODULUS
              else Count(table, p, k))
      {
        BumpCount(table, path, key, p, k);
      }
      table := Bump(table, path, key);
    }
  }
}
