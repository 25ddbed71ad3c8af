/** The sort configuration and the header-click state machine that cycles a
    column through ascending, descending and unsorted. */
module SortState {
  import opened JsValues

  datatype Direction = Asc | Desc

  /** `{ key, direction }`; `None` is JavaScript `null`. */
  datatype SortConfig = SortConfig(key: Option<string>, direction: Option<Direction>)

  /** The initial, unsorted configuration. */
  const Unsorted := SortConfig(None, None)

  /** The key is null exactly when the direction is. */
  predicate WellFormed(c: SortConfig)
  {
    c.key.None? <==> c.direction.None?
  }

  /** The transition `handleSort` hands to `setSortConfig`: the same column
      advances asc, desc, unsorted; any other column starts at asc. */
  function HandleSort(prev: SortConfig, column: string): (next: SortConfig)
    ensures WellFormed(next)
    ensures next.key.Some? ==> next.key.value == column
    ensures prev.key != Some(column) ==> next == SortConfig(Some(column), Some(Asc))
  {
    var direction :=
      if prev.key == Some(column) then
        if prev.direction == Some(Asc) then Some(Desc)
        else if prev.direction == Some(Desc) then None
        else Some(Asc)
      else Some(Asc);
    SortConfig(if direction.Some? then Some(column) else None, direction)
  }

  /** A click on a column header. A disabled column has no click handler in
      DataTable.tsx, and in DataTable.jsx `handleSort` returns before touching
      the state; either way the configuration is left as it was. */
  function ClickHeader(prev: SortConfig, column: string, disabled: seq<string>): (next: SortConfig)
    ensures column in disabled ==> next == prev
    ensures column !in disabled ==> WellFormed(next)
    ensures WellFormed(prev) ==> WellFormed(next)
  {
    if column in disabled then prev else HandleSort(prev, column)
  }

  /** The configuration after a series of header clicks. */
  function ClickAll(c: SortConfig, clicks: seq<string>, disabled: seq<string>): SortConfig
    decreases |clicks|
  {
    if |clicks| == 0 then c
    else ClickAll(ClickHeader(c, clicks[0], disabled), clicks[1..], disabled)
  }

  /** The full transition table on the same column. */
  lemma SameColumnCycle(column: string)
    ensures HandleSort(Unsorted, column) == SortConfig(Some(column), Some(Asc))
    ensures HandleSort(SortConfig(Some(column), Some(Asc)), column) == SortConfig(Some(column), Some(Desc))
    ensures HandleSort(SortConfig(Some(column), Some(Desc)), column) == Unsorted
  {
  }

  /** Three clicks on an enabled column, from the unsorted state, return to
      it. */
  lemma ThreeClicksRestore(column: string, disabled: seq<string>)
    requires column !in disabled
    ensures ClickAll(Unsorted, [column, column, column], disabled) == Unsorted
  {
    var asc := SortConfig(Some(column), Some(Asc));
    var desc := SortConfig(Some(column), Some(Desc));
    assert [column, column, column][1..] == [column, column];
    assert [column, column][1..] == [column];
    assert ClickAll(desc, [column], disabled) == ClickAll(Unsorted, [], disabled);
    assert ClickAll(asc, [column, column], disabled) == ClickAll(desc, [column], disabled);
  }

  /** After the first click on a column, clicking it keeps cycling with
      period three: a fourth click repeats the first, whatever the state
      before. */
  lemma ClickCycleHasPeriodThree(prev: SortConfig, column: string)
    ensures var once := HandleSort(prev, column);
            HandleSort(HandleSort(HandleSort(once, column), column), column) == once
  {
  }

  /** Clicking a disabled column never changes the configuration, for any
      series of such clicks. */
  lemma {:induction false} DisabledClicksAreNoOps(c: SortConfig, clicks: seq<string>, disabled: seq<string>)
    requires forall k | k in clicks :: k in disabled
    ensures ClickAll(c, clicks, disabled) == c
    decreases |clicks|
  {
    if |clicks| > 0 {
      assert clicks[0] in clicks;
      assert forall k | k in clicks[1..] :: k in clicks;
      DisabledClicksAreNoOps(c, clicks[1..], disabled);
    }
  }

  /** Starting from a well-formed state whose key is not disabled, no series
      of clicks makes a disabled column the sort key, and the state stays
      well-formed. */
  lemma {:induction false} DisabledNeverBecomesKey(c: SortConfig, clicks: seq<string>, disabled: seq<string>)
    requires WellFormed(c)
    requires c.key.Some? ==> c.key.value !in disabled
    ensures WellFormed(ClickAll(c, clicks, disabled))
    ensures ClickAll(c, clicks, disabled).key.Some? ==> ClickAll(c, clicks, disabled).key.value !in disabled
    decreases |clicks|
  {
    if |clicks| > 0 {
      DisabledNeverBecomesKey(ClickHeader(c, clicks[0], disabled), clicks[1..], disabled);
    }
  }
}
