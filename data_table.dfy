/**
 * The data table component: its two pieces of local state in a class whose
 * methods are the click handlers, and what a render shows for given props.
 */
module DataTableComponent {
  import opened Wrappers
  import opened TableSorting
  import opened TableSelection

  /** The three mutually exclusive things the table body can show. */
  datatype Display<T> = LoadingMessage | EmptyMessage | RowsTable(rows: seq<T>)

  /**
   * What a render shows: the loading message while `loading`, else the
   * empty-data message for no rows, else the rows in sorted order.
   */
  function Render<T>(loading: bool, data: seq<T>, cfg: SortConfig, attr: (T, string) -> int): (d: Display<T>)
    ensures d.LoadingMessage? <==> loading
    ensures d.EmptyMessage? <==> !loading && |data| == 0
    ensures d.RowsTable? <==> !loading && |data| > 0
    ensures d.RowsTable? ==> multiset(d.rows) == multiset(data)
    ensures d.RowsTable? && !Active(cfg) ==> d.rows == data
  {
    if loading then LoadingMessage
    else if |data| == 0 then EmptyMessage
    else RowsTable(SortedData(data, cfg, attr))
  }

  /** Loading wins over an empty data set. */
  lemma LoadingScenario<T>(cfg: SortConfig, attr: (T, string) -> int)
    ensures Render(true, [], cfg, attr) == LoadingMessage
  {
  }

  /** The marker beside a header: none for a non-sortable column. */
  datatype Indicator = NoIndicator | Ascending | Descending | Unsorted

  function HeaderIndicator(cfg: SortConfig, column: Column): Indicator
  {
    if !column.sortable then NoIndicator
    else if cfg.key == Some(column.dataIndex) then
      (if cfg.direction == Asc then Ascending else Descending)
    else Unsorted
  }

  /**
   * After a click on a sortable header, that header shows the new direction
   * and every sortable header on another attribute shows the unsorted marker.
   */
  lemma ClickedHeaderShowsDirection(cfg: SortConfig, column: Column, other: Column)
    requires column.sortable
    ensures var r := NextSortConfig(cfg, column);
      HeaderIndicator(r, column) == (if r.direction == Asc then Ascending else Descending)
    ensures other.sortable && other.dataIndex != column.dataIndex ==>
      HeaderIndicator(NextSortConfig(cfg, column), other) == Unsorted
    ensures !other.sortable ==> HeaderIndicator(NextSortConfig(cfg, column), other) == NoIndicator
  {
  }

  /** The local state of one mounted table. */
  class DataTable<T(==)> {
    var selectedRows: seq<T>
    var sortConfig: SortConfig

    /** The selection never holds a row twice. */
    ghost predicate Valid()
      reads this
    {
      NoDuplicates(selectedRows)
    }

    /** On mount: nothing selected, no sort key. */
    constructor ()
      ensures Valid()
      ensures selectedRows == [] && sortConfig == InitialSort
    {
      selectedRows := [];
      sortConfig := InitialSort;
    }

    /** A click on `column`'s header. */
    method HandleSort(column: Column)
      modifies this
      ensures sortConfig == NextSortConfig(old(sortConfig), column)
      ensures selectedRows == old(selectedRows)
    {
      if !column.sortable {
        return;
      }
      var direction := Asc;
      if sortConfig.key == Some(column.dataIndex) && sortConfig.direction == Asc {
        direction := Desc;
      }
      sortConfig := SortConfig(Some(column.dataIndex), direction);
    }

    /**
     * A tick on `row`'s checkbox. The result is what the `onRowSelect`
     * callback receives, `None` when no callback was supplied.
     */
    method HandleRowSelect(row: T, selectable: Selectable, hasOnRowSelect: bool) returns (notified: Option<seq<T>>)
      requires Valid()
      modifies this
      ensures Valid()
      ensures selectedRows == Toggle(old(selectedRows), row, selectable)
      ensures sortConfig == old(sortConfig)
      ensures notified == if hasOnRowSelect then Some(selectedRows) else None
      ensures selectable == Single && |old(selectedRows)| <= 1 ==> |selectedRows| <= 1
    {
      var updatedSelection: seq<T>;
      if row in selectedRows {
        updatedSelection := Without(selectedRows, row);
      } else {
        updatedSelection := if selectable == Single then [row] else selectedRows + [row];
      }
      ToggleNoDuplicates(selectedRows, row, selectable);
      selectedRows := updatedSelection;
      notified := if hasOnRowSelect then Some(updatedSelection) else None;
    }

    /** The table body for the current state. */
    function View(loading: bool, data: seq<T>, attr: (T, string) -> int): Display<T>
      reads this
    {
      Render(loading, data, sortConfig, attr)
    }
  }

  /** A record of the demonstration data (names left out: only `id` and `age` are read). */
  datatype Person = Person(id: int, age: int)

  function PersonAttr(p: Person, field: string): int
  {
    if field == "age" then p.age else p.id
  }

  const Bruce := Person(1, 24)
  const Steve := Person(2, 22)
  const Tony := Person(3, 32)

  lemma TeamAgeKeys()
    ensures ByAttr(PersonAttr, "age")(Bruce) == 24
    ensures ByAttr(PersonAttr, "age")(Steve) == 22
    ensures ByAttr(PersonAttr, "age")(Tony) == 32
  {
    var key := ByAttr(PersonAttr, "age");
    assert key(Bruce) == PersonAttr(Bruce, "age");
    assert key(Steve) == PersonAttr(Steve, "age");
    assert key(Tony) == PersonAttr(Tony, "age");
  }

  lemma TeamSortedAscending()
    ensures Sort([Bruce, Steve, Tony], ByAttr(PersonAttr, "age"), Asc) == [Steve, Bruce, Tony]
  {
    var key := ByAttr(PersonAttr, "age");
    TeamAgeKeys();
    assert [Bruce, Steve, Tony][1..] == [Steve, Tony] && [Steve, Tony][1..] == [Tony] && [Tony][1..] == [];
    assert Sort([Tony], key, Asc) == [Tony];
    assert Sort([Steve, Tony], key, Asc) == Insert(Steve, [Tony], key, Asc) == [Steve, Tony];
    assert Insert(Bruce, [Tony], key, Asc) == [Bruce, Tony];
    assert Insert(Bruce, [Steve, Tony], key, Asc) == [Steve] + Insert(Bruce, [Tony], key, Asc);
  }

  lemma TeamSortedDescending()
    ensures Sort([Bruce, Steve, Tony], ByAttr(PersonAttr, "age"), Desc) == [Tony, Bruce, Steve]
  {
    var key := ByAttr(PersonAttr, "age");
    TeamAgeKeys();
    assert [Bruce, Steve, Tony][1..] == [Steve, Tony] && [Steve, Tony][1..] == [Tony] && [Tony][1..] == [];
    assert [Tony, Steve][1..] == [Steve];
    assert Sort([Tony], key, Desc) == [Tony];
    assert Insert(Steve, [], key, Desc) == [Steve];
    assert Sort([Steve, Tony], key, Desc) == Insert(Steve, [Tony], key, Desc) == [Tony] + Insert(Steve, [], key, Desc);
    assert Insert(Bruce, [Steve], key, Desc) == [Bruce, Steve];
    assert Insert(Bruce, [Tony, Steve], key, Desc) == [Tony] + Insert(Bruce, [Steve], key, Desc);
  }

  /** One click on the sortable "age" header sorts ascending, a second click descending. */
  lemma AgeClickScenario()
    ensures var age := Column("age", "Age", "age", true);
      var once := NextSortConfig(InitialSort, age);
      SortedData([Bruce, Steve, Tony], once, PersonAttr) == [Steve, Bruce, Tony] &&
      SortedData([Bruce, Steve, Tony], NextSortConfig(once, age), PersonAttr) == [Tony, Bruce, Steve]
  {
    var age := Column("age", "Age", "age", true);
    var once := NextSortConfig(InitialSort, age);
    assert once == SortConfig(Some("age"), Asc);
    assert |"age"| == 3 && Active(once) && once.key.value == "age";
    TeamSortedAscending();
    var twice := NextSortConfig(once, age);
    assert twice == SortConfig(Some("age"), Desc);
    assert Active(twice) && twice.key.value == "age";
    TeamSortedDescending();
  }
}
