/**
 * The selection half of the data table. Rows are compared by equality of
 * values, which stands for the reference identity that `includes` and `!==`
 * test: two rows are the same entry exactly when they are the same value here.
 */
module TableSelection {

  /** The `selectable` prop: `false`, `true` (several rows) or `"single"`. */
  datatype Selectable = NotSelectable | Multiple | Single

  /** Checkboxes (and their header cell) are rendered only for a truthy `selectable`. */
  predicate ShowsCheckboxes(mode: Selectable)
  {
    mode != NotSelectable
  }

  /** A row is highlighted and its box checked exactly when it is in the selection. */
  predicate IsSelected<T(==)>(selection: seq<T>, row: T)
  {
    row in selection
  }

  /** No row occurs twice. */
  ghost predicate NoDuplicates<T>(s: seq<T>)
  {
    forall x :: x in s ==> multiset(s)[x] <= 1
  }

  /** `a` is `b` with some elements left out, the rest in their order. */
  ghost predicate IsSubsequence<T>(a: seq<T>, b: seq<T>)
    decreases |b|
  {
    if a == [] then true
    else if b == [] then false
    else (a[0] == b[0] && IsSubsequence(a[1..], b[1..])) || IsSubsequence(a, b[1..])
  }

  /** The selection with every occurrence of `row` filtered out. */
  function Without<T(==)>(selection: seq<T>, row: T): (r: seq<T>)
    ensures multiset(r) == multiset(selection)[row := 0]
    ensures row !in r && |r| == |selection| - multiset(selection)[row]
  {
    if selection == [] then []
    else
      assert selection == [selection[0]] + selection[1..];
      (if selection[0] == row then [] else [selection[0]]) + Without(selection[1..], row)
  }

  lemma {:induction false} SubsequenceOfTail<T>(a: seq<T>, b: seq<T>)
    requires b != [] && IsSubsequence(a, b[1..])
    ensures IsSubsequence(a, b)
  {
  }

  /** The rows that stay keep their order. */
  lemma {:induction false} WithoutKeepsOrder<T>(selection: seq<T>, row: T)
    ensures IsSubsequence(Without(selection, row), selection)
  {
    if selection != [] {
      WithoutKeepsOrder(selection[1..], row);
      var r := Without(selection, row);
      if selection[0] == row {
        assert r == Without(selection[1..], row);
      } else {
        assert r == [selection[0]] + Without(selection[1..], row);
        assert r[0] == selection[0] && r[1..] == Without(selection[1..], row);
      }
    }
  }

  lemma NoDuplicatesTail<T>(s: seq<T>)
    requires NoDuplicates(s) && s != []
    ensures NoDuplicates(s[1..]) && s[0] !in s[1..]
  {
    assert s == [s[0]] + s[1..];
    assert multiset(s) == multiset{s[0]} + multiset(s[1..]);
    forall x | x in s[1..] ensures multiset(s[1..])[x] <= 1 {
      assert x in s;
    }
    assert s[0] in s;
    assert multiset(s)[s[0]] == 1 + multiset(s[1..])[s[0]];
  }

  /** For a duplicate-free selection, removing `row` cuts out exactly its one position. */
  lemma {:induction false} WithoutAt<T>(selection: seq<T>, row: T, i: nat)
    requires NoDuplicates(selection)
    requires i < |selection| && selection[i] == row
    ensures Without(selection, row) == selection[..i] + selection[i + 1..]
  {
    var tail := selection[1..];
    NoDuplicatesTail(selection);
    if i == 0 {
      WithoutAbsent(tail, row);
      assert Without(selection, row) == Without(tail, row);
    } else {
      assert tail[i - 1] == row;
      assert selection[0] != row;
      WithoutAt(tail, row, i - 1);
      assert Without(selection, row) == [selection[0]] + Without(tail, row);
      assert tail[..i - 1] == selection[1..i];
      assert tail[i..] == selection[i + 1..];
      assert selection[..i] == [selection[0]] + selection[1..i];
    }
  }

  lemma {:induction false} WithoutAbsent<T>(selection: seq<T>, row: T)
    requires row !in selection
    ensures Without(selection, row) == selection
  {
    if selection != [] {
      WithoutAbsent(selection[1..], row);
      assert selection == [selection[0]] + selection[1..];
    }
  }

  /**
   * The selection after ticking `row`'s box: a selected row is removed,
   * otherwise it replaces the selection in single mode and is appended
   * in every other mode.
   */
  function Toggle<T(==)>(selection: seq<T>, row: T, mode: Selectable): seq<T>
  {
    if row in selection then Without(selection, row)
    else if mode == Single then [row]
    else selection + [row]
  }

  /**
   * Membership after a toggle: `row` flips; any other row stays as it was,
   * except that in single mode adding `row` drops all the others.
   */
  lemma ToggleMembership<T>(selection: seq<T>, row: T, mode: Selectable, x: T)
    ensures IsSelected(Toggle(selection, row, mode), row) == !IsSelected(selection, row)
    ensures x != row ==>
      (IsSelected(Toggle(selection, row, mode), x) <==>
       IsSelected(selection, x) && (row in selection || mode != Single))
  {
    var r := Toggle(selection, row, mode);
    if x != row && row in selection {
      assert multiset(r)[x] == multiset(selection)[x];
    }
  }

  /** Removing keeps the others in order; adding puts `row` at the end (or alone, in single mode). */
  lemma ToggleShape<T>(selection: seq<T>, row: T, mode: Selectable)
    ensures row in selection ==>
      IsSubsequence(Toggle(selection, row, mode), selection) &&
      |Toggle(selection, row, mode)| == |selection| - multiset(selection)[row]
    ensures row !in selection && mode != Single ==>
      Toggle(selection, row, mode)[..|selection|] == selection &&
      Toggle(selection, row, mode)[|selection|] == row
    ensures row !in selection && mode == Single ==> Toggle(selection, row, mode) == [row]
  {
    WithoutKeepsOrder(selection, row);
  }

  /** A duplicate-free selection stays duplicate-free, in every mode. */
  lemma ToggleNoDuplicates<T>(selection: seq<T>, row: T, mode: Selectable)
    requires NoDuplicates(selection)
    ensures NoDuplicates(Toggle(selection, row, mode))
  {
    var r := Toggle(selection, row, mode);
    if row !in selection && mode != Single {
      forall x | x in r ensures multiset(r)[x] <= 1 {
        assert multiset(r) == multiset(selection) + multiset{row};
      }
    }
  }

  /** In single mode a selection of at most one row stays so. */
  lemma SingleToggleBound<T>(selection: seq<T>, row: T)
    requires |selection| <= 1
    ensures |Toggle(selection, row, Single)| <= 1
  {
  }

  /** The selection after ticking the boxes of `rows`, in order. */
  function ToggleAll<T(==)>(selection: seq<T>, rows: seq<T>, mode: Selectable): seq<T>
    decreases |rows|
  {
    if rows == [] then selection
    else ToggleAll(Toggle(selection, rows[0], mode), rows[1..], mode)
  }

  /** Starting from the empty selection, single mode never holds more than one row. */
  lemma {:induction false} SingleModeAtMostOne<T>(selection: seq<T>, rows: seq<T>)
    requires |selection| <= 1
    ensures |ToggleAll(selection, rows, Single)| <= 1
    decreases |rows|
  {
    if rows != [] {
      SingleToggleBound(selection, rows[0]);
      SingleModeAtMostOne(Toggle(selection, rows[0], Single), rows[1..]);
    }
  }

  /** Starting from the empty selection, no row is ever selected twice. */
  lemma {:induction false} NeverDuplicated<T>(selection: seq<T>, rows: seq<T>, mode: Selectable)
    requires NoDuplicates(selection)
    ensures NoDuplicates(ToggleAll(selection, rows, mode))
    decreases |rows|
  {
    if rows != [] {
      ToggleNoDuplicates(selection, rows[0], mode);
      NeverDuplicated(Toggle(selection, rows[0], mode), rows[1..], mode);
    }
  }

  /** Ticking the same box twice in several-rows mode restores a duplicate-free selection's members. */
  lemma ToggleTwiceMembers<T>(selection: seq<T>, row: T, x: T)
    requires row !in selection
    ensures IsSelected(Toggle(Toggle(selection, row, Multiple), row, Multiple), x) == IsSelected(selection, x)
  {
    var once := Toggle(selection, row, Multiple);
    assert row in once;
    var twice := Without(once, row);
    if x != row {
      assert multiset(twice)[x] == multiset(once)[x];
      assert multiset(once) == multiset(selection) + multiset{row};
    }
  }

  /** Single select of A then B (three distinct rows offered) leaves just B. */
  lemma SingleSelectScenario()
    ensures ToggleAll([], [1, 2], Single) == [2]
  {
    assert Toggle([], 1, Single) == [1];
    assert 2 !in [1];
    assert Toggle([1], 2, Single) == [2];
    assert ToggleAll([1], [2], Single) == ToggleAll([2], [], Single);
  }
}
