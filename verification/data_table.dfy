/** The table's data path: `filteredData` keeps the rows matching the search
    text, `sortData` orders them by the current sort configuration, and the
    rendered body is the composition of the two. */
module DataTable {
  import opened JsValues
  import opened SortState
  import opened RowOrder
  import opened StableSort

  // ---------------------------------------------------------------------------
  // Sorting

  /** `!config.key || !config.direction` fails: there is a non-empty key and a
      direction. */
  predicate SortsRows(config: SortConfig)
  {
    config.key.Some? && config.key.value != "" && config.direction.Some?
  }

  /** Every row whose value at `key` is null comes after every row whose
      value is not. */
  ghost predicate NullsLast(rows: seq<Row>, key: string)
  {
    forall i, j | 0 <= i < j < |rows| :: Field(rows[i], key) == Null ==> Field(rows[j], key) == Null
  }

  /** `sortData`: the input itself when there is nothing to sort by, otherwise
      a sorted copy. */
  function SortData(rows: seq<Row>, config: SortConfig): (r: seq<Row>)
    ensures multiset(r) == multiset(rows)
    ensures !SortsRows(config) ==> r == rows
    ensures SortsRows(config) ==> NullsLast(r, config.key.value)
  {
    if !SortsRows(config) then rows
    else
      var key, dir := config.key.value, config.direction.value;
      SortKeepsNullsLast(rows, key, dir);
      InsertionSort(rows, RowCmp(key, dir))
  }

  lemma NullsLastTail(t: seq<Row>, key: string)
    requires NullsLast(t, key) && |t| > 0
    ensures NullsLast(t[1..], key)
  {
    forall i, j | 0 <= i < j < |t[1..]| && Field(t[1..][i], key) == Null
      ensures Field(t[1..][j], key) == Null
    {
      assert t[1..][i] == t[i + 1] && t[1..][j] == t[j + 1];
    }
  }

  /** Rows drawn from `t[1..]`, plus `x`, whose values at `key` are all null. */
  lemma AllNullAfterNullHead(x: Row, t: seq<Row>, u: seq<Row>, key: string)
    requires NullsLast(t, key) && |t| > 0 && Field(t[0], key) == Null && Field(x, key) == Null
    requires multiset(u) == multiset(t[1..]) + multiset{x}
    ensures forall e | e in u :: Field(e, key) == Null
  {
    forall e | e in u ensures Field(e, key) == Null {
      assert e in multiset(u);
      if e != x {
        assert e in multiset(t[1..]);
        var k :| 0 <= k < |t[1..]| && t[1..][k] == e;
        assert e == t[k + 1];
      }
    }
  }

  lemma NullsLastCons(h: Row, u: seq<Row>, key: string)
    requires NullsLast(u, key)
    requires Field(h, key) == Null ==> forall e | e in u :: Field(e, key) == Null
    ensures NullsLast([h] + u, key)
  {
    var r := [h] + u;
    forall i, j | 0 <= i < j < |r| && Field(r[i], key) == Null ensures Field(r[j], key) == Null {
      assert r[j] == u[j - 1] && u[j - 1] in u;
      if i > 0 {
        assert r[i] == u[i - 1];
      }
    }
  }

  /** Inserting a row into a sequence with its nulls last keeps them last,
      whatever the values: the null rule alone decides where a null goes. */
  lemma {:induction false} InsertKeepsNullsLast(x: Row, t: seq<Row>, key: string, dir: Direction)
    requires NullsLast(t, key)
    ensures NullsLast(Insert(x, t, RowCmp(key, dir)), key)
  {
    var cmp := RowCmp(key, dir);
    if |t| == 0 {
    } else if cmp(x, t[0]) < 0 {
      assert Field(x, key) != Null;
      NullsLastCons(x, t, key);
    } else {
      NullsLastTail(t, key);
      InsertKeepsNullsLast(x, t[1..], key, dir);
      var u := Insert(x, t[1..], cmp);
      if Field(t[0], key) == Null {
        assert Field(x, key) == Null;
        AllNullAfterNullHead(x, t, u, key);
      }
      NullsLastCons(t[0], u, key);
    }
  }

  /** Sorting puts every null row after every non-null row, in both
      directions and for any mix of values. */
  lemma {:induction false} SortKeepsNullsLast(rows: seq<Row>, key: string, dir: Direction)
    ensures NullsLast(InsertionSort(rows, RowCmp(key, dir)), key)
  {
    if |rows| > 0 {
      SortKeepsNullsLast(rows[..|rows| - 1], key, dir);
      InsertKeepsNullsLast(rows[|rows| - 1], InsertionSort(rows[..|rows| - 1], RowCmp(key, dir)), key, dir);
    }
  }

  /** On a column whose values share one kind, `sortData` orders the rows by
      the comparator and keeps rows the comparator ties in their input
      order. */
  lemma SortDataOrderedAndStable(rows: seq<Row>, config: SortConfig, kind: ColumnKind)
    requires SortsRows(config)
    requires ColumnOfKind(Elements(rows), config.key.value, kind)
    ensures Sorted(SortData(rows, config), RowCmp(config.key.value, config.direction.value))
    ensures Stable(rows, SortData(rows, config), RowCmp(config.key.value, config.direction.value))
  {
    var key, dir := config.key.value, config.direction.value;
    ColumnOrderIsTotalPreorder(Elements(rows), key, dir, kind);
    InsertionSortSorted(rows, RowCmp(key, dir), Elements(rows));
    InsertionSortStable(rows, RowCmp(key, dir));
  }

  // ---------------------------------------------------------------------------
  // Filtering

  /** Some field of the row — any field, displayed or not — is truthy and its
      lower-cased text contains the lower-cased query. */
  predicate RowMatches(row: Row, query: string)
  {
    exists v | v in row.Values :: Truthy(v) && Includes(Lower(ToStr(v)), Lower(query))
  }

  function KeepMatching(rows: seq<Row>, query: string): (r: seq<Row>)
    ensures |r| <= |rows|
    ensures forall row | row in r :: row in rows && RowMatches(row, query)
  {
    if |rows| == 0 then []
    else (if RowMatches(rows[0], query) then [rows[0]] else []) + KeepMatching(rows[1..], query)
  }

  /** `filteredData`: the input itself for an empty query, otherwise the
      matching rows. */
  function FilterRows(rows: seq<Row>, query: string): (r: seq<Row>)
    ensures query == "" ==> r == rows
    ensures query != "" ==> forall row | row in r :: RowMatches(row, query)
    ensures forall row | row in r :: row in rows
  {
    if query == "" then rows else KeepMatching(rows, query)
  }

  /** `idx` picks positions of `rows` in strictly increasing order. */
  ghost predicate PicksInOrder(idx: seq<int>, rows: seq<Row>)
  {
    (forall k | 0 <= k < |idx| :: 0 <= idx[k] < |rows|)
    && (forall k, l | 0 <= k < l < |idx| :: idx[k] < idx[l])
  }

  /** A non-empty query keeps exactly the matching rows, in their input order:
      the result lists `rows` at an increasing series of positions, and a
      position is listed exactly when its row matches. */
  lemma {:induction false} FilterKeepsExactlyMatches(rows: seq<Row>, query: string) returns (idx: seq<int>)
    requires query != ""
    ensures PicksInOrder(idx, rows)
    ensures |idx| == |FilterRows(rows, query)|
    ensures forall k | 0 <= k < |idx| :: FilterRows(rows, query)[k] == rows[idx[k]]
    ensures forall i | 0 <= i < |rows| :: i in idx <==> RowMatches(rows[i], query)
  {
    idx := KeepMatchingIndices(rows, query);
    assert FilterRows(rows, query) == KeepMatching(rows, query);
  }

  /** The positions `idx` of `rows` list exactly the rows of `kept`, and
      exactly those satisfying `keep`. */
  ghost predicate ListsExactly(idx: seq<int>, rows: seq<Row>, kept: seq<Row>, keep: seq<bool>)
    requires |keep| == |rows|
  {
    && PicksInOrder(idx, rows)
    && |idx| == |kept|
    && (forall k | 0 <= k < |idx| :: kept[k] == rows[idx[k]])
    && (forall i | 0 <= i < |rows| :: i in idx <==> keep[i])
  }

  function Matching(rows: seq<Row>, query: string): (keep: seq<bool>)
    ensures |keep| == |rows|
    ensures forall i | 0 <= i < |rows| :: keep[i] == RowMatches(rows[i], query)
  {
    seq(|rows|, i requires 0 <= i < |rows| => RowMatches(rows[i], query))
  }

  /** Positions into `rows[1..]`, moved one along, are positions into
      `rows` that skip the head. */
  lemma ShiftIndices(rest: seq<int>, rows: seq<Row>, tail: seq<Row>, keep: seq<bool>)
    returns (shifted: seq<int>)
    requires |rows| > 0 && |keep| == |rows|
    requires ListsExactly(rest, rows[1..], tail, keep[1..])
    ensures PicksInOrder(shifted, rows) && 0 !in shifted
    ensures |shifted| == |tail|
    ensures forall k | 0 <= k < |shifted| :: tail[k] == rows[shifted[k]]
    ensures forall i | 1 <= i < |rows| :: i in shifted <==> keep[i]
  {
    shifted := seq(|rest|, k requires 0 <= k < |rest| => rest[k] + 1);
    forall i | 1 <= i < |rows| ensures i in shifted <==> keep[i] {
      if i - 1 in rest {
        var k :| 0 <= k < |rest| && rest[k] == i - 1;
        assert shifted[k] == i;
      }
      assert keep[1..][i - 1] == keep[i];
    }
    forall k | 0 <= k < |shifted| ensures tail[k] == rows[shifted[k]] {
      assert rows[1..][rest[k]] == rows[rest[k] + 1];
    }
  }

  /** Keeping or dropping the head row extends an order-preserving selection
      of the tail to one of the whole input. */
  lemma ListsExactlyCons(rest: seq<int>, rows: seq<Row>, tail: seq<Row>, keep: seq<bool>)
    returns (idx: seq<int>)
    requires |rows| > 0 && |keep| == |rows|
    requires ListsExactly(rest, rows[1..], tail, keep[1..])
    ensures ListsExactly(idx, rows, (if keep[0] then [rows[0]] else []) + tail, keep)
  {
    var shifted := ShiftIndices(rest, rows, tail, keep);
    if keep[0] {
      idx := KeepHead(shifted, rows, tail, keep);
    } else {
      idx := shifted;
      assert [] + tail == tail;
    }
  }

  /** The kept head goes in front of the shifted selection of the tail. */
  lemma KeepHead(shifted: seq<int>, rows: seq<Row>, tail: seq<Row>, keep: seq<bool>)
    returns (idx: seq<int>)
    requires |rows| > 0 && |keep| == |rows| && keep[0]
    requires PicksInOrder(shifted, rows) && 0 !in shifted
    requires |shifted| == |tail|
    requires forall k | 0 <= k < |shifted| :: tail[k] == rows[shifted[k]]
    requires forall i | 1 <= i < |rows| :: i in shifted <==> keep[i]
    ensures ListsExactly(idx, rows, [rows[0]] + tail, keep)
  {
    idx := [0] + shifted;
    var kept := [rows[0]] + tail;
    assert forall k | 0 <= k < |shifted| :: 1 <= shifted[k];
    forall k | 0 <= k < |idx| ensures kept[k] == rows[idx[k]] {
      if k > 0 {
        assert kept[k] == tail[k - 1] && idx[k] == shifted[k - 1];
      }
    }
    forall k, l | 0 <= k < l < |idx| ensures idx[k] < idx[l] {
      assert idx[l] == shifted[l - 1];
      if k > 0 {
        assert idx[k] == shifted[k - 1];
      }
    }
    forall i | 0 <= i < |rows| ensures i in idx <==> keep[i] {
      assert i in idx <==> i == 0 || i in shifted;
    }
    assert PicksInOrder(idx, rows);
  }

  lemma {:induction false} KeepMatchingIndices(rows: seq<Row>, query: string) returns (idx: seq<int>)
    ensures ListsExactly(idx, rows, KeepMatching(rows, query), Matching(rows, query))
  {
    if |rows| == 0 {
      idx := [];
    } else {
      var rest := KeepMatchingIndices(rows[1..], query);
      assert Matching(rows, query)[1..] == Matching(rows[1..], query);
      idx := ListsExactlyCons(rest, rows, KeepMatching(rows[1..], query), Matching(rows, query));
    }
  }

  /** A row whose fields are all falsy (`null`, `undefined`, `0`, `""`)
      matches no query, even one its text contains. */
  lemma FalsyFieldsNeverMatch(row: Row, query: string)
    requires forall v | v in row.Values :: !Truthy(v)
    ensures !RowMatches(row, query)
  {
  }

  /** A row matches when one of its truthy fields contains the query, in any
      letter case. */
  lemma FieldContainingQueryMatches(row: Row, key: string, query: string, at: int)
    requires key in row && Truthy(row[key])
    requires OccursAt(Lower(ToStr(row[key])), Lower(query), at)
    ensures RowMatches(row, query)
  {
    assert row[key] in row.Values;
  }

  // ---------------------------------------------------------------------------
  // The rendered body

  /** `sortedData`: the filtered rows, sorted. */
  function VisibleRows(data: seq<Row>, query: string, config: SortConfig): (r: seq<Row>)
    ensures multiset(r) == multiset(FilterRows(data, query))
    ensures |r| <= |data|
    ensures forall row | row in r :: row in data && (query == "" || RowMatches(row, query))
    ensures SortsRows(config) ==> NullsLast(r, config.key.value)
    ensures !SortsRows(config) ==> r == FilterRows(data, query)
  {
    var filtered := FilterRows(data, query);
    var r := SortData(filtered, config);
    assert |r| == |multiset(r)| == |multiset(filtered)| == |filtered|;
    assert query != "" ==> |filtered| <= |data|;
    forall row | row in r ensures row in filtered {
      assert row in multiset(r);
    }
    r
  }

  /** The rendered body shows every input row that matches the query (every
      row, when the query is empty), under any sort configuration, and
      nothing else. */
  lemma MatchingRowsAreVisible(data: seq<Row>, query: string, config: SortConfig, row: Row)
    ensures row in VisibleRows(data, query, config)
            <==> row in data && (query == "" || RowMatches(row, query))
  {
    var filtered := FilterRows(data, query);
    if query != "" && row in data && RowMatches(row, query) {
      var idx := FilterKeepsExactlyMatches(data, query);
      var i :| 0 <= i < |data| && data[i] == row;
      var k :| 0 <= k < |idx| && idx[k] == i;
      assert filtered[k] == row;
    }
    assert row in filtered <==> row in multiset(filtered);
  }

  // ---------------------------------------------------------------------------
  // Scenarios

  /** Rows with ages 30, null and 25, in that order: ascending by age gives
      the 25, the 30, then the null row, and descending gives the 30, the
      25, then the null row — the null row last both times. */
  lemma AgeScenario(r1: Row, r2: Row, r3: Row)
    requires Field(r1, "age") == Num(30) && Field(r2, "age") == Null && Field(r3, "age") == Num(25)
    ensures SortData([r1, r2, r3], SortConfig(Some("age"), Some(Asc))) == [r3, r1, r2]
    ensures SortData([r1, r2, r3], SortConfig(Some("age"), Some(Desc))) == [r1, r3, r2]
  {
    SortDataByKey([r1, r2, r3], "age", Asc);
    SortDataByKey([r1, r2, r3], "age", Desc);
    AgeScenarioAsc(r1, r2, r3);
    AgeScenarioDesc(r1, r2, r3);
  }

  /** With a non-empty key and a direction, `sortData` is the comparator's
      sort. */
  lemma SortDataByKey(rows: seq<Row>, key: string, dir: Direction)
    requires key != ""
    ensures SortData(rows, SortConfig(Some(key), Some(dir))) == InsertionSort(rows, RowCmp(key, dir))
  {
  }

  lemma AgeScenarioAsc(r1: Row, r2: Row, r3: Row)
    requires Field(r1, "age") == Num(30) && Field(r2, "age") == Null && Field(r3, "age") == Num(25)
    ensures InsertionSort([r1, r2, r3], RowCmp("age", Asc)) == [r3, r1, r2]
  {
    NullComparesAfter("age", Asc, r2, r1);
    NumbersCompare("age", Asc, r3, r1, 25, 30);
    SortThreeLastFirst(r1, r2, r3, RowCmp("age", Asc));
  }

  lemma AgeScenarioDesc(r1: Row, r2: Row, r3: Row)
    requires Field(r1, "age") == Num(30) && Field(r2, "age") == Null && Field(r3, "age") == Num(25)
    ensures InsertionSort([r1, r2, r3], RowCmp("age", Desc)) == [r1, r3, r2]
  {
    NullComparesAfter("age", Desc, r2, r1);
    NumbersCompare("age", Desc, r3, r1, 25, 30);
    NullComparesAfter("age", Desc, r2, r3);
    SortThreeLastMiddle(r1, r2, r3, RowCmp("age", Desc));
  }

  /** Sorting `[a, b, c]` when `b` goes after `a` and `c` before `a`. */
  lemma SortThreeLastFirst<T>(a: T, b: T, c: T, cmp: (T, T) -> int)
    requires cmp(b, a) > 0 && cmp(c, a) < 0
    ensures InsertionSort([a, b, c], cmp) == [c, a, b]
  {
    SortOfThree(a, b, c, cmp);
    InsertAfterOnly(b, a, cmp);
    InsertAtFront(c, [a, b], cmp);
  }

  /** Sorting `[a, b, c]` when `b` goes after `a`, and `c` after `a` but
      before `b`. */
  lemma SortThreeLastMiddle<T>(a: T, b: T, c: T, cmp: (T, T) -> int)
    requires cmp(b, a) > 0 && cmp(c, a) > 0 && cmp(c, b) < 0
    ensures InsertionSort([a, b, c], cmp) == [a, c, b]
  {
    SortOfThree(a, b, c, cmp);
    InsertAfterOnly(b, a, cmp);
    InsertBetween(c, a, b, cmp);
  }

  /** Rows holding numbers at the key compare by their difference, in the
      sort direction. */
  lemma NumbersCompare(key: string, dir: Direction, a: Row, b: Row, m: int, n: int)
    requires Field(a, key) == Num(m) && Field(b, key) == Num(n)
    ensures RowCmp(key, dir)(a, b) == (if dir == Asc then m - n else n - m)
  {
  }

  /** A row holding null at the key goes after one that does not, both ways
      round. */
  lemma NullComparesAfter(key: string, dir: Direction, a: Row, b: Row)
    requires Field(a, key) == Null && Field(b, key) != Null
    ensures RowCmp(key, dir)(a, b) > 0 && RowCmp(key, dir)(b, a) < 0
  {
  }

  lemma SortOfTwo<T>(a: T, b: T, cmp: (T, T) -> int)
    ensures InsertionSort([a, b], cmp) == Insert(b, [a], cmp)
  {
    assert [a, b][..1] == [a];
    assert [a][..0] == [];
  }

  lemma SortOfThree<T>(a: T, b: T, c: T, cmp: (T, T) -> int)
    ensures InsertionSort([a, b, c], cmp) == Insert(c, Insert(b, [a], cmp), cmp)
  {
    assert [a, b, c][..2] == [a, b];
    SortOfTwo(a, b, cmp);
  }

  lemma InsertAtFront<T>(x: T, t: seq<T>, cmp: (T, T) -> int)
    requires |t| > 0 && cmp(x, t[0]) < 0
    ensures Insert(x, t, cmp) == [x] + t
  {
  }

  lemma InsertAfterOnly<T>(x: T, y: T, cmp: (T, T) -> int)
    requires cmp(x, y) >= 0
    ensures Insert(x, [y], cmp) == [y, x]
  {
    assert [y][1..] == [];
  }

  lemma InsertBetween<T>(x: T, y: T, z: T, cmp: (T, T) -> int)
    requires cmp(x, y) >= 0 && cmp(x, z) < 0
    ensures Insert(x, [y, z], cmp) == [y, x, z]
  {
    assert [y, z][1..] == [z];
    InsertAtFront(x, [z], cmp);
  }

  function MoneyRow(amount: string): (r: Row)
    ensures Field(r, "money") == Str(amount)
  {
    map["money" := Str(amount)]
  }

  /** Money values "$50" and "$10" sort ascending as "$10", "$50". */
  lemma MoneyScenario()
    ensures SortData([MoneyRow("$50"), MoneyRow("$10")], SortConfig(Some("money"), Some(Asc)))
            == [MoneyRow("$10"), MoneyRow("$50")]
  {
    var a, b := MoneyRow("$50"), MoneyRow("$10");
    TenRowBeforeFifty(b, a);
    SortDataByKey([a, b], "money", Asc);
    SortTwoSwapped(a, b, RowCmp("money", Asc));
  }

  lemma TenRowBeforeFifty(a: Row, b: Row)
    requires Field(a, "money") == Str("$10") && Field(b, "money") == Str("$50")
    ensures RowCmp("money", Asc)(a, b) < 0
  {
    TenBeforeFifty();
  }

  /** Sorting `[a, b]` when `b` goes before `a`. */
  lemma SortTwoSwapped<T>(a: T, b: T, cmp: (T, T) -> int)
    requires cmp(b, a) < 0
    ensures InsertionSort([a, b], cmp) == [b, a]
  {
    SortOfTwo(a, b, cmp);
    InsertAtFront(b, [a], cmp);
  }

  lemma TenBeforeFifty()
    ensures CompareValues("money", Asc, Str("$10"), Str("$50")) == Int(-40)
  {
    MoneyComparesAmounts("10", "50");
    assert "$" + "10" == "$10" && "$" + "50" == "$50";
    DigitsOf2('1', '0');
    DigitsOf2('5', '0');
    assert "10" == ['1', '0'] && "50" == ['5', '0'];
    assert AllDigits("10") && AllDigits("50");
  }

  /** The query "gith" finds a row through its `github_username` field,
      whatever the letter case there. */
  lemma SearchScenario()
    ensures RowMatches(map["id" := Num(7), "github_username" := Str("GitHubAnn")], "gith")
  {
    var row := map["id" := Num(7), "github_username" := Str("GitHubAnn")];
    assert Lower("GitHubAnn")[0..4] == "gith" == Lower("gith");
    FieldContainingQueryMatches(row, "github_username", "gith", 0);
  }

  /** A field holding the number 0 is falsy, so the query "0" does not find
      its row even though its text is "0". */
  lemma ZeroScenario()
    ensures ToStr(Num(0)) == "0"
    ensures !RowMatches(map["age" := Num(0)], "0")
  {
    var row := map["age" := Num(0)];
    forall v | v in row.Values ensures !Truthy(v) {
      var k :| k in row && row[k] == v;
    }
    FalsyFieldsNeverMatch(row, "0");
  }
}
