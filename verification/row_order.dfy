/** The comparator `sortData` hands to `Array.prototype.sort`: a ranked
    policy over the two rows' values at the sort key, first match wins —
    nulls last, numeric, `start_date`, `$`-prefixed `money`, lower-cased
    string order — with `desc` negating every rule but the null rule. */
module RowOrder {
  import opened JsValues
  import opened SortState
  import StableSort

  /** `typeof v === "number" || !isNaN(Number(v))`. */
  predicate IsNumeric(v: Value)
  {
    v.Num? || ToNumber(v).Int?
  }

  /** `x - y` for ascending, `y - x` for descending. */
  function Directed(dir: Direction, x: JsNumber, y: JsNumber): JsNumber
  {
    if dir == Asc then Minus(x, y) else Minus(y, x)
  }

  /** The comparator's raw result for values `a` and `b` read at `key`. */
  function CompareValues(key: string, dir: Direction, a: Value, b: Value): JsNumber
  {
    if a == Null && b == Null then Int(0)
    else if a == Null then Int(1)
    else if b == Null then Int(-1)
    else if IsNumeric(a) then Directed(dir, ToNumber(a), ToNumber(b))
    else if key == "start_date" then Directed(dir, TimeValue(a), TimeValue(b))
    else if key == "money" && StartsWith(ToStr(a), "$") then
      Directed(dir, ParseNumber(RemoveFirst(ToStr(a), '$')), ParseNumber(RemoveFirst(ToStr(b), '$')))
    else
      var sa := Lower(ToStr(a));
      var sb := Lower(ToStr(b));
      Int(if dir == Asc then Collate(sa, sb) else Collate(sb, sa))
  }

  /** How `Array.prototype.sort` reads a comparator result (the SortCompare
      operation of ECMA-262): NaN counts as 0, "keep the input order". */
  function SortCompare(x: JsNumber): int
  {
    if x.Int? then x.i else 0
  }

  /** The comparator on rows. */
  function RowCompare(key: string, dir: Direction, a: Row, b: Row): int
  {
    SortCompare(CompareValues(key, dir, Field(a, key), Field(b, key)))
  }

  function RowCmp(key: string, dir: Direction): (Row, Row) -> int
  {
    (a: Row, b: Row) => RowCompare(key, dir, a, b)
  }

  // ---------------------------------------------------------------------------
  // The rules

  /** Two nulls tie, and a null goes after every other value, in both
      directions. */
  lemma NullPlacementIgnoresDirection(key: string, dir: Direction, a: Value, b: Value)
    requires a == Null || b == Null
    ensures CompareValues(key, dir, a, b) == CompareValues(key, Asc, a, b)
    ensures a == Null && b != Null ==> SortCompare(CompareValues(key, dir, a, b)) > 0
    ensures a != Null && b == Null ==> SortCompare(CompareValues(key, dir, a, b)) < 0
    ensures a == b ==> SortCompare(CompareValues(key, dir, a, b)) == 0
  {
  }

  /** For two non-null values, `desc` is exactly the negation of `asc`, in
      every rule. */
  lemma DescNegatesAsc(key: string, a: Value, b: Value)
    requires a != Null && b != Null
    ensures CompareValues(key, Desc, a, b) == Negate(CompareValues(key, Asc, a, b))
  {
    if IsNumeric(a) {
      DirectedNegates(ToNumber(a), ToNumber(b));
    } else if key == "start_date" {
      DirectedNegates(TimeValue(a), TimeValue(b));
    } else if key == "money" && StartsWith(ToStr(a), "$") {
      DirectedNegates(ParseNumber(RemoveFirst(ToStr(a), '$')), ParseNumber(RemoveFirst(ToStr(b), '$')));
    } else {
      var sa, sb := Lower(ToStr(a)), Lower(ToStr(b));
      CollateAntisymmetric(sa, sb);
      assert CompareValues(key, Asc, a, b) == Int(Collate(sa, sb));
      assert CompareValues(key, Desc, a, b) == Int(Collate(sb, sa));
    }
  }

  lemma DirectedNegates(x: JsNumber, y: JsNumber)
    ensures Directed(Desc, x, y) == Negate(Directed(Asc, x, y))
  {
  }

  /** Whether the numeric rule applies depends on the first value alone; the
      second is then converted with `Number` whatever it is, whatever the
      key. */
  lemma NumericRuleDecidedByFirst(key: string, dir: Direction, a: Value, b: Value)
    requires a != Null && b != Null && IsNumeric(a)
    ensures CompareValues(key, dir, a, b) == Directed(dir, ToNumber(a), ToNumber(b))
    ensures !IsNumeric(b) ==> SortCompare(CompareValues(key, dir, a, b)) == 0
  {
  }

  /** Under key `money`, `$`-prefixed values compare by the amounts after
      the `$`: "$10" goes before "$50" ascending. */
  lemma MoneyComparesAmounts(ta: string, tb: string)
    ensures CompareValues("money", Asc, Str("$" + ta), Str("$" + tb)) == Minus(ParseNumber(ta), ParseNumber(tb))
    ensures CompareValues("money", Desc, Str("$" + ta), Str("$" + tb)) == Minus(ParseNumber(tb), ParseNumber(ta))
  {
    DollarAmount(ta);
    DollarAmount(tb);
    MoneyRule(Asc, "$" + ta, "$" + tb);
    MoneyRule(Desc, "$" + ta, "$" + tb);
  }

  /** The money rule applies once the first value is a non-numeric string
      starting with `$`. */
  lemma MoneyRule(dir: Direction, sa: string, sb: string)
    requires StartsWith(sa, "$") && !IsNumeric(Str(sa))
    ensures CompareValues("money", dir, Str(sa), Str(sb))
            == Directed(dir, ParseNumber(RemoveFirst(sa, '$')), ParseNumber(RemoveFirst(sb, '$')))
  {
  }

  /** A `$`-prefixed text is not numeric, passes the `startsWith("$")` test,
      and loses exactly its leading `$` to `replace`. */
  lemma DollarAmount(t: string)
    ensures !IsNumeric(Str("$" + t))
    ensures StartsWith("$" + t, "$")
    ensures RemoveFirst("$" + t, '$') == t
  {
    var s := "$" + t;
    assert s[0] == '$' && !IsDigit(s[0]) && s[1..] == t;
    assert '$' in s && FirstIndex(s, '$') == 0;
  }

  /** The date rule compares a date string with a number on one scale, the
      time value in milliseconds: 2023-01-15 goes after the time value
      100000000 (early on 1970-01-02). */
  lemma DateAgainstNumber()
    ensures CompareValues("start_date", Asc, Str("2023-01-15"), Num(100000000))
            == Int(1673740800000 - 100000000)
  {
    MidJanuary2023();
    var t := "2023-01-15";
    assert t[4] == '-' && !IsDigit(t[4]);
    assert !AllDigits(t) && !AllDigits(t[1..]) by {
      assert t[1..][3] == '-';
    }
    assert !IsNumeric(Str(t));
  }

  /** Where the first value is a number and the second a non-numeric string,
      the comparator is not antisymmetric: it says "tie" one way round and
      "after" the other, so the order such a column gets is not determined
      by the comparator. */
  lemma MixedColumnIsInconsistent()
    ensures var a := map["age" := Num(30)];
            var b := map["age" := Str("n/a")];
            RowCompare("age", Asc, a, b) == 0 && RowCompare("age", Asc, b, a) > 0
  {
    var a := map["age" := Num(30)];
    var b := map["age" := Str("n/a")];
    assert Field(b, "age") == Str("n/a");
    assert "n/a"[0] == 'n' && !IsDigit('n');
    assert ToStr(Num(30)) == "30" by {
      assert ShowNat(30) == ShowNat(3) + ['0'];
    }
    assert Lower("n/a") == "n/a";
    assert Lower("30") == "30";
  }

  // ---------------------------------------------------------------------------
  // Columns on which the comparator is a total preorder

  /** The four shapes of column the comparator orders consistently. */
  datatype ColumnKind = Numeric | Text | Currency | Calendar

  /** A value fits a column kind under `key`; null fits every kind. */
  predicate Fits(key: string, kind: ColumnKind, v: Value)
  {
    v == Null ||
    match kind
    case Numeric => IsNumeric(v)
    case Text =>
      !IsNumeric(v) && key != "start_date" && !(key == "money" && StartsWith(ToStr(v), "$"))
    case Currency =>
      key == "money" && v.Str? && StartsWith(v.s, "$") && !IsNumeric(v)
      && ParseNumber(RemoveFirst(v.s, '$')).Int?
    case Calendar =>
      key == "start_date" && v.Str? && !IsNumeric(v) && ParseDate(v.s).Int?
  }

  /** The integer a non-null value of a numeric, currency or date column is
      compared by. */
  function Rank(kind: ColumnKind, v: Value): int
    requires kind != Text
  {
    match kind
    case Numeric => SortCompare(ToNumber(v))
    case Currency => SortCompare(ParseNumber(RemoveFirst(ToStr(v), '$')))
    case Calendar => SortCompare(TimeValue(v))
  }

  /** On two non-null values of the same column kind, the comparator is a
      difference of ranks, or a collation of lower-cased text. */
  lemma CompareWithinKind(key: string, dir: Direction, kind: ColumnKind, a: Value, b: Value)
    requires Fits(key, kind, a) && Fits(key, kind, b) && a != Null && b != Null
    ensures kind != Text ==>
              SortCompare(CompareValues(key, dir, a, b))
              == (if dir == Asc then Rank(kind, a) - Rank(kind, b) else Rank(kind, b) - Rank(kind, a))
    ensures kind == Text ==>
              SortCompare(CompareValues(key, dir, a, b))
              == (if dir == Asc then Collate(Lower(ToStr(a)), Lower(ToStr(b)))
                  else Collate(Lower(ToStr(b)), Lower(ToStr(a))))
  {
  }

  /** The value-level comparator on one column kind: antisymmetric. */
  lemma KindAntisymmetric(key: string, dir: Direction, kind: ColumnKind, a: Value, b: Value)
    requires Fits(key, kind, a) && Fits(key, kind, b)
    ensures SortCompare(CompareValues(key, dir, a, b)) < 0 <==> SortCompare(CompareValues(key, dir, b, a)) > 0
  {
    if a != Null && b != Null {
      CompareWithinKind(key, dir, kind, a, b);
      CompareWithinKind(key, dir, kind, b, a);
      CollateAntisymmetric(Lower(ToStr(a)), Lower(ToStr(b)));
    }
  }

  /** The value-level comparator on one column kind: "goes no later than" is
      transitive. */
  lemma KindTransitive(key: string, dir: Direction, kind: ColumnKind, a: Value, b: Value, c: Value)
    requires Fits(key, kind, a) && Fits(key, kind, b) && Fits(key, kind, c)
    requires SortCompare(CompareValues(key, dir, a, b)) <= 0
    requires SortCompare(CompareValues(key, dir, b, c)) <= 0
    ensures SortCompare(CompareValues(key, dir, a, c)) <= 0
  {
    if a != Null && b != Null && c != Null {
      CompareWithinKind(key, dir, kind, a, b);
      CompareWithinKind(key, dir, kind, b, c);
      CompareWithinKind(key, dir, kind, a, c);
      var sa, sb, sc := Lower(ToStr(a)), Lower(ToStr(b)), Lower(ToStr(c));
      if kind == Text {
        if dir == Asc {
          CollateTransitive(sa, sb, sc);
        } else {
          CollateTransitive(sc, sb, sa);
        }
      }
    }
  }

  /** Every row of the set holds a value of the given kind at `key`. */
  ghost predicate ColumnOfKind(S: set<Row>, key: string, kind: ColumnKind)
  {
    forall r | r in S :: Fits(key, kind, Field(r, key))
  }

  /** On a column whose values all have one kind, the row comparator is a
      total preorder, in both directions. */
  lemma ColumnOrderIsTotalPreorder(S: set<Row>, key: string, dir: Direction, kind: ColumnKind)
    requires ColumnOfKind(S, key, kind)
    ensures StableSort.TotalPreorderOn(RowCmp(key, dir), S)
  {
    var cmp := RowCmp(key, dir);
    forall a, b | a in S && b in S ensures cmp(a, b) < 0 <==> cmp(b, a) > 0 {
      KindAntisymmetric(key, dir, kind, Field(a, key), Field(b, key));
    }
    forall a, b, c | a in S && b in S && c in S && cmp(a, b) <= 0 && cmp(b, c) <= 0
      ensures cmp(a, c) <= 0
    {
      KindTransitive(key, dir, kind, Field(a, key), Field(b, key), Field(c, key));
    }
  }
}
