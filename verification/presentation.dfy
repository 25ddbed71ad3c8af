/** What the table renders from its state: cell text, the sort-arrow classes
    of each sortable header, and the row classes that stripe the body. */
module Presentation {
  import opened JsValues
  import opened SortState

  /** The placeholder shown for a null cell: two em dashes. */
  const Placeholder: string := "——"

  /** `displayValue`: null shows the placeholder, anything else `String(v)`. */
  function DisplayValue(v: Value): string
  {
    if v == Null then Placeholder else ToStr(v)
  }

  /** The text of the cell for `column` in `row`: an absent field reads as
      `undefined`, not null, so it shows "undefined" rather than the
      placeholder. */
  function CellText(row: Row, column: string): (text: string)
    ensures column !in row ==> text == "undefined"
    ensures column in row && row[column] == Null ==> text == Placeholder
  {
    DisplayValue(Field(row, column))
  }

  /** Only a null value and the placeholder text itself display as the
      placeholder. */
  lemma PlaceholderMeansNull(v: Value)
    ensures DisplayValue(v) == Placeholder <==> v == Null || v == Str(Placeholder)
  {
    if v.Num? {
      var t := ShowInt(v.n);
      assert t[0] == '-' || IsDigit(t[0]);
      assert Placeholder[0] == '—';
    }
    if v == Missing {
      assert "undefined"[0] != Placeholder[0];
    }
  }

  /** A displayed number reads back, through `Number`, as the number itself. */
  lemma DisplayedNumberReadsBack(n: int)
    ensures ParseNumber(DisplayValue(Num(n))) == Int(n)
  {
  }

  // ---------------------------------------------------------------------------
  // Sort arrows

  datatype ArrowClass = Active | Hidden | Neutral

  /** The up arrow: active when sorted ascending by this column, hidden when
      sorted descending by it, neutral otherwise. */
  function UpArrow(config: SortConfig, column: string): ArrowClass
  {
    if config.key == Some(column) && config.direction == Some(Asc) then Active
    else if config.key == Some(column) && config.direction == Some(Desc) then Hidden
    else Neutral
  }

  /** The down arrow: the mirror image of the up arrow. */
  function DownArrow(config: SortConfig, column: string): ArrowClass
  {
    if config.key == Some(column) && config.direction == Some(Desc) then Active
    else if config.key == Some(column) && config.direction == Some(Asc) then Hidden
    else Neutral
  }

  /** The arrow pair of a header; a disabled column renders no arrows. */
  function HeaderArrows(config: SortConfig, column: string, disabled: seq<string>)
    : (arrows: Option<(ArrowClass, ArrowClass)>)
    ensures arrows.None? <==> column in disabled
  {
    if column in disabled then None else Some((UpArrow(config, column), DownArrow(config, column)))
  }

  /** At most one arrow of a header is active, an arrow is hidden exactly
      when the other one is active, and a column that is not the sort key
      shows both arrows neutral. */
  lemma ArrowsAgree(config: SortConfig, column: string)
    ensures !(UpArrow(config, column) == Active && DownArrow(config, column) == Active)
    ensures UpArrow(config, column) == Hidden <==> DownArrow(config, column) == Active
    ensures DownArrow(config, column) == Hidden <==> UpArrow(config, column) == Active
    ensures config.key != Some(column) ==>
              UpArrow(config, column) == Neutral && DownArrow(config, column) == Neutral
  {
  }

  /** The arrows show the sort state exactly: the up arrow is active iff the
      table is sorted ascending by the column, the down arrow iff descending. */
  lemma ArrowsShowSortState(config: SortConfig, column: string)
    ensures UpArrow(config, column) == Active <==> config == SortConfig(Some(column), Some(Asc))
    ensures DownArrow(config, column) == Active <==> config == SortConfig(Some(column), Some(Desc))
  {
  }

  /** One click on a neutral header of an enabled column makes its up arrow
      active; a second makes its down arrow active; a third makes both
      neutral again. */
  lemma ArrowsFollowClicks(config: SortConfig, column: string)
    requires config.key != Some(column)
    ensures var one := HandleSort(config, column);
            var two := HandleSort(one, column);
            var three := HandleSort(two, column);
            && UpArrow(one, column) == Active && DownArrow(one, column) == Hidden
            && UpArrow(two, column) == Hidden && DownArrow(two, column) == Active
            && UpArrow(three, column) == Neutral && DownArrow(three, column) == Neutral
  {
  }

  // ---------------------------------------------------------------------------
  // Row striping

  /** The stripe of the row at `index`: the first row is odd. */
  function Stripe(index: nat): string
  {
    if (index + 1) % 2 == 0 then "even" else "odd"
  }

  /** The class of the row at `index` among `count` rows: every row but the
      last carries the `data-row` divider, then its stripe. */
  function RowClass(index: nat, count: nat): string
  {
    (if index == count - 1 then "" else "data-row") + " " + Stripe(index)
  }

  /** Neighbouring rows get different stripes, the first row is odd, and the
      divider is missing from the last row only. */
  lemma {:induction false} RowClassesAlternate(index: nat, count: nat)
    requires index < count
    ensures Stripe(index) != Stripe(index + 1)
    ensures Stripe(index) == "odd" <==> index % 2 == 0
    ensures StartsWith(RowClass(index, count), "data-row") <==> index != count - 1
  {
    var c := RowClass(index, count);
    if index == count - 1 {
      assert c[0] == ' ';
    } else {
      assert c[..8] == "data-row";
    }
  }
}
