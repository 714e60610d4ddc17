/** The table component of `Board.js`: the order of its rows under the
    sort comparator, the column-header click that picks the next sort, and
    which pagination buttons are enabled. */
module Board {
  import opened Optional
  import opened JsString

  /** A cell value as the comparator sees it: `null` or `undefined`, a
      number, or a string. */
  datatype Cell = Missing | Num(n: int) | Str(s: string)

  /** A row: its cells by column key. */
  datatype Row = Row(cells: map<string, Cell>)

  /** `row[key]`: an absent key reads as `undefined`. */
  function Value(row: Row, key: string): (v: Cell)
    ensures key !in row.cells ==> v.Missing?
  {
    if key in row.cells then row.cells[key] else Missing
  }

  /** The number a string converts to in a comparison with a number. */
  function Numeric(v: Cell): JsNumber {
    match v
    case Num(n) => Int(n)
    case Str(s) => ToNumber(s)
    case Missing => NaN
  }

  /** JavaScript's `v1 > v2` on two present values: strings compare as
      strings, anything else as numbers, and NaN makes it false. */
  predicate Greater(v1: Cell, v2: Cell) {
    if v1.Str? && v2.Str? then StrLt(v2.s, v1.s)
    else match (Numeric(v1), Numeric(v2))
      case (Int(a), Int(b)) => a > b
      case _ => false
  }

  /** The comparator handed to `sort`: a missing left value goes after,
      then a missing right value goes after, equal values tie, and
      otherwise `asc` orders by `>` and any other order by `<`. */
  function Compare(sortOrder: string, v1: Cell, v2: Cell): (r: int)
    ensures r == -1 || r == 0 || r == 1
    ensures v1.Missing? ==> r == 1
    ensures !v1.Missing? && v2.Missing? ==> r == -1
  {
    if v1.Missing? then 1
    else if v2.Missing? then -1
    else if v1 == v2 then 0
    else if sortOrder == "asc" then (if Greater(v1, v2) then 1 else -1)
    else (if Greater(v2, v1) then 1 else -1)
  }

  /** `v1` may stand before `v2` in a sorted column. Two missing values may
      stand either way round. */
  predicate Le(sortOrder: string, v1: Cell, v2: Cell) {
    (v1.Missing? && v2.Missing?) || Compare(sortOrder, v1, v2) <= 0
  }

  /** Numbers and strings are not mixed; missing values mix with both. */
  predicate SameKind(a: Cell, b: Cell) {
    !(a.Num? && b.Str?) && !(a.Str? && b.Num?)
  }

  /** A column holding numbers only, or strings only, besides missing
      values. */
  predicate Uniform(rows: seq<Row>, key: string) {
    forall i, j :: 0 <= i < |rows| && 0 <= j < |rows| ==> SameKind(Value(rows[i], key), Value(rows[j], key))
  }

  /** What the comparator means on such a column: ascending or descending
      numbers and strings, with missing values last. */
  lemma LeMeaning(sortOrder: string, a: Cell, b: Cell)
    ensures a.Num? && b.Num? ==> (Le(sortOrder, a, b) <==> if sortOrder == "asc" then a.n <= b.n else a.n >= b.n)
    ensures a.Str? && b.Str? ==>
      (Le(sortOrder, a, b) <==> if sortOrder == "asc" then !StrLt(b.s, a.s) else !StrLt(a.s, b.s))
    ensures b.Missing? ==> Le(sortOrder, a, b)
    ensures a.Missing? ==> (Le(sortOrder, a, b) <==> b.Missing?)
  {
    if a.Str? && b.Str? && a == b {
      StrLtIrreflexive(a.s);
    }
  }

  lemma LeTotal(sortOrder: string, a: Cell, b: Cell)
    requires SameKind(a, b)
    ensures Le(sortOrder, a, b) || Le(sortOrder, b, a)
  {
    if a.Str? && b.Str? {
      StrLtTrichotomy(a.s, b.s);
    }
  }

  lemma LeTransitive(sortOrder: string, a: Cell, b: Cell, c: Cell)
    requires SameKind(a, b) && SameKind(b, c) && SameKind(a, c)
    requires Le(sortOrder, a, b) && Le(sortOrder, b, c)
    ensures Le(sortOrder, a, c)
  {
    if a.Str? && b.Str? && c.Str? {
      StrLtTrichotomy(a.s, b.s);
      StrLtTrichotomy(b.s, c.s);
      StrLtTrichotomy(a.s, c.s);
      if sortOrder == "asc" {
        if StrLt(c.s, a.s) {
          if StrLt(b.s, a.s) {
          } else if a.s == b.s {
          } else {
            StrLtTransitive(c.s, a.s, b.s);
          }
        }
      } else {
        if StrLt(a.s, c.s) {
          if StrLt(a.s, b.s) {
          } else if a.s == b.s {
          } else {
            StrLtTransitive(b.s, a.s, c.s);
          }
        }
      }
    }
  }

  /** Inserts `x` before the first row it compares at most equal to. */
  function Insert(sortOrder: string, key: string, x: Row, rows: seq<Row>): (r: seq<Row>)
    ensures multiset(r) == multiset(rows) + multiset{x}
  {
    if rows == [] then [x]
    else if Compare(sortOrder, Value(x, key), Value(rows[0], key)) <= 0 then [x] + rows
    else
      assert rows == [rows[0]] + rows[1..];
      [rows[0]] + Insert(sortOrder, key, x, rows[1..])
  }

  /** A stable sort by the comparator (an insertion sort). */
  function Sort(sortOrder: string, key: string, rows: seq<Row>): (r: seq<Row>)
    ensures multiset(r) == multiset(rows)
  {
    if rows == [] then []
    else
      assert rows == [rows[0]] + rows[1..];
      Insert(sortOrder, key, rows[0], Sort(sortOrder, key, rows[1..]))
  }

  /** `sortedData`: the rows unchanged without a sort key, otherwise a
      sorted copy. */
  function SortedData(data: seq<Row>, sortKey: string, sortOrder: string): (r: seq<Row>)
    ensures sortKey == "" ==> r == data
    ensures multiset(r) == multiset(data)
  {
    if sortKey == "" then data else Sort(sortOrder, sortKey, data)
  }

  /** Every row may stand before every later one. */
  predicate Ordered(sortOrder: string, key: string, rows: seq<Row>) {
    forall i, j :: 0 <= i < j < |rows| ==> Le(sortOrder, Value(rows[i], key), Value(rows[j], key))
  }

  /** Every cell of `rows` has the same kind as `c`. */
  predicate KindOf(rows: seq<Row>, key: string, c: Cell) {
    forall i :: 0 <= i < |rows| ==> SameKind(c, Value(rows[i], key))
  }

  lemma {:induction false} InsertOrdered(sortOrder: string, key: string, x: Row, rows: seq<Row>)
    requires Ordered(sortOrder, key, rows) && Uniform(rows, key) && KindOf(rows, key, Value(x, key))
    ensures Ordered(sortOrder, key, Insert(sortOrder, key, x, rows))
    decreases |rows|
  {
    var vx := Value(x, key);
    if rows == [] {
    } else if Compare(sortOrder, vx, Value(rows[0], key)) <= 0 {
      PrependOrdered(sortOrder, key, x, rows);
    } else {
      var h, t := rows[0], rows[1..];
      var vh := Value(h, key);
      assert rows == [h] + t;
      LeTotal(sortOrder, vx, vh);
      TailKinds(rows, key, vx);
      InsertOrdered(sortOrder, key, x, t);
      forall k | 0 <= k < |t| ensures Le(sortOrder, vh, Value(t[k], key)) {
        assert t[k] == rows[k + 1];
      }
      LowerBoundKept(sortOrder, key, vh, x, t);
    }
  }

  /** A row that may stand before the first of an ordered list may stand
      before all of it. */
  lemma PrependOrdered(sortOrder: string, key: string, x: Row, rows: seq<Row>)
    requires rows != [] && Ordered(sortOrder, key, rows) && KindOf(rows, key, Value(x, key))
    requires Compare(sortOrder, Value(x, key), Value(rows[0], key)) <= 0
    ensures Ordered(sortOrder, key, [x] + rows)
  {
    var vx := Value(x, key);
    var r := [x] + rows;
    forall j | 1 <= j < |r| ensures Le(sortOrder, vx, Value(r[j], key)) {
      if j > 1 {
        LeTransitive(sortOrder, vx, Value(rows[0], key), Value(rows[j - 1], key));
      }
    }
  }

  /** The tail of a uniform column is uniform and of the same kind. */
  lemma TailKinds(rows: seq<Row>, key: string, c: Cell)
    requires rows != [] && Uniform(rows, key) && KindOf(rows, key, c)
    ensures Uniform(rows[1..], key) && KindOf(rows[1..], key, c)
  {
    var t := rows[1..];
    forall i | 0 <= i < |t| ensures t[i] == rows[i + 1] {}
  }

  /** A value every row and `x` may follow stays below the inserted
      list. */
  lemma LowerBoundKept(sortOrder: string, key: string, v: Cell, x: Row, t: seq<Row>)
    requires Le(sortOrder, v, Value(x, key))
    requires forall k :: 0 <= k < |t| ==> Le(sortOrder, v, Value(t[k], key))
    ensures forall j :: 0 <= j < |Insert(sortOrder, key, x, t)| ==> Le(sortOrder, v, Value(Insert(sortOrder, key, x, t)[j], key))
  {
    var tail := Insert(sortOrder, key, x, t);
    forall j | 0 <= j < |tail| ensures Le(sortOrder, v, Value(tail[j], key)) {
      assert tail[j] in multiset(t) + multiset{x};
      if tail[j] != x {
        var k :| 0 <= k < |t| && t[k] == tail[j];
      }
    }
  }

  lemma {:induction false} SortOrdered(sortOrder: string, key: string, rows: seq<Row>)
    requires Uniform(rows, key)
    ensures Ordered(sortOrder, key, Sort(sortOrder, key, rows))
    decreases |rows|
  {
    if rows != [] {
      var t := rows[1..];
      assert Uniform(t, key) && KindOf(t, key, Value(rows[0], key)) by {
        forall i | 0 <= i < |t| ensures t[i] == rows[i + 1] {}
      }
      SortOrdered(sortOrder, key, t);
      var s := Sort(sortOrder, key, t);
      KindsKept(t, s, key, Value(rows[0], key));
      InsertOrdered(sortOrder, key, rows[0], s);
    }
  }

  /** A reordering of a uniform column is uniform and of the same kind. */
  lemma KindsKept(a: seq<Row>, b: seq<Row>, key: string, c: Cell)
    requires multiset(a) == multiset(b)
    requires Uniform(a, key) && KindOf(a, key, c)
    ensures Uniform(b, key) && KindOf(b, key, c)
  {
    forall i | 0 <= i < |b| ensures exists k :: 0 <= k < |a| && a[k] == b[i] {
      assert b[i] in multiset(a);
    }
  }

  /** On a column of numbers only or of strings only, `sortedData` is a
      reordering of the rows in which every row may stand before every
      later one, and no present value follows a missing one. */
  lemma SortedDataOrdered(data: seq<Row>, sortKey: string, sortOrder: string)
    requires sortKey != "" && Uniform(data, sortKey)
    ensures var r := SortedData(data, sortKey, sortOrder);
      multiset(r) == multiset(data)
      && Ordered(sortOrder, sortKey, r)
      && forall i, j :: 0 <= i < j < |r| && Value(r[i], sortKey).Missing? ==> Value(r[j], sortKey).Missing?
  {
    SortOrdered(sortOrder, sortKey, data);
    var r := SortedData(data, sortKey, sortOrder);
    forall i, j | 0 <= i < j < |r| && Value(r[i], sortKey).Missing? ensures Value(r[j], sortKey).Missing? {
      LeMeaning(sortOrder, Value(r[i], sortKey), Value(r[j], sortKey));
    }
  }

  /** The comparator is not a consistent order once numbers and strings
      mix: a number and a non-numeric string each claim to come first. */
  lemma MixedColumnInconsistent()
    ensures Compare("asc", Num(1), Str("x")) == -1 && Compare("asc", Str("x"), Num(1)) == -1
  {
    LetterIsNaN('x');
    assert "x" == ['x'];
  }

  /** `handleSort(key)`: nothing for an empty key; the current key while
      ascending turns descending, every other click sorts ascending. */
  function HandleSort(sortKey: string, sortOrder: string, key: string): (r: Option<(string, string)>)
    ensures key == "" <==> r.None?
    ensures r.Some? ==> r.value.0 == key
    ensures r.Some? ==> (r.value.1 == "desc" <==> sortKey == key && sortOrder == "asc")
    ensures r.Some? ==> (r.value.1 == "asc" <==> !(sortKey == key && sortOrder == "asc"))
  {
    if key == "" then None
    else Some((key, if sortKey == key && sortOrder == "asc" then "desc" else "asc"))
  }

  /** Clicking one header repeatedly alternates between ascending and
      descending, starting ascending from any other column. */
  lemma HandleSortAlternates(sortKey: string, sortOrder: string, key: string)
    requires key != "" && sortKey != key
    ensures var first := HandleSort(sortKey, sortOrder, key).value;
      var second := HandleSort(first.0, first.1, key).value;
      var third := HandleSort(second.0, second.1, key).value;
      first.1 == "asc" && second.1 == "desc" && third.1 == "asc"
  {
  }

  /** A page button: its number and whether it is disabled. */
  datatype PageButton = PageButton(number: int, disabled: bool)

  /** What `renderPagination` draws: nothing, or the previous button, the
      numbered buttons and the next button with their disabled flags. */
  datatype Pagination =
    | Hidden
    | Shown(prevDisabled: bool, buttons: seq<PageButton>, nextDisabled: bool)

  function RenderPagination(page: int, totalPages: int): (r: Pagination)
    ensures r.Hidden? <==> totalPages <= 1
    ensures r.Shown? ==> |r.buttons| == totalPages
    ensures r.Shown? ==> forall i :: 0 <= i < |r.buttons| ==> r.buttons[i].number == i + 1
    ensures r.Shown? ==> forall i :: 0 <= i < |r.buttons| ==> (r.buttons[i].disabled <==> page == i + 1)
    ensures r.Shown? ==> (r.prevDisabled <==> page <= 1) && (r.nextDisabled <==> page >= totalPages)
  {
    if totalPages <= 1 then Hidden
    else Shown(page <= 1, seq(totalPages, i => PageButton(i + 1, page == i + 1)), page >= totalPages)
  }

  /** Every enabled button leads to a page in 1..totalPages other than the
      current one, when the current page is itself in range; exactly one
      numbered button is disabled. */
  lemma PaginationStaysInRange(page: int, totalPages: int)
    requires 1 <= page <= totalPages && totalPages > 1
    ensures var r := RenderPagination(page, totalPages);
      (!r.prevDisabled ==> 1 <= page - 1 <= totalPages)
      && (!r.nextDisabled ==> 1 <= page + 1 <= totalPages)
      && (forall i :: 0 <= i < |r.buttons| && !r.buttons[i].disabled ==> r.buttons[i].number != page)
      && r.buttons[page - 1].disabled
      && (forall i :: 0 <= i < |r.buttons| && i != page - 1 ==> !r.buttons[i].disabled)
  {
  }
}
