/** The cell values a table row can hold, and the JavaScript built-ins the
    table applies to them: `Number(...)`, `String(...)`, truthiness,
    `toLowerCase`, `includes`, `startsWith`, `replace` and `localeCompare`.

    Numbers are integers. `Number(...)` on strings, date parsing, lower-casing
    and `localeCompare` are simple, explicitly defined stand-ins (see the
    README); everything downstream depends only on the properties proved here. */
module JsValues {

  datatype Option<+T> = None | Some(value: T)

  /** A field value. `Missing` is what reading an absent key yields
      (`undefined`); it is not `Null`. */
  datatype Value = Null | Missing | Num(n: int) | Str(s: string)

  /** A row: field name to value. */
  type Row = map<string, Value>

  /** A JavaScript number restricted to integers, plus NaN. */
  datatype JsNumber = NaN | Int(i: int)

  /** `row[key]`: an absent key reads as `undefined`. */
  function Field(row: Row, key: string): Value
  {
    if key in row then row[key] else Missing
  }

  /** `x - y` with NaN propagation. */
  function Minus(x: JsNumber, y: JsNumber): JsNumber
  {
    if x.Int? && y.Int? then Int(x.i - y.i) else NaN
  }

  /** Unary minus with NaN propagation. */
  function Negate(x: JsNumber): JsNumber
  {
    if x.Int? then Int(-x.i) else NaN
  }

  // ---------------------------------------------------------------------------
  // Decimal digits

  predicate IsDigit(c: char)
  {
    '0' <= c <= '9'
  }

  predicate AllDigits(s: string)
  {
    forall i | 0 <= i < |s| :: IsDigit(s[i])
  }

  function DigitChar(d: nat): char
    requires d < 10
  {
    ('0' as int + d) as char
  }

  /** The value of a string of decimal digits, most significant first. */
  function DigitsValue(s: string): nat
    requires AllDigits(s)
  {
    if |s| == 0 then 0
    else DigitsValue(s[..|s| - 1]) * 10 + (s[|s| - 1] as int - '0' as int)
  }

  /** The decimal representation of a natural number. */
  function ShowNat(n: nat): (r: string)
    ensures |r| > 0 && AllDigits(r)
    ensures DigitsValue(r) == n
    ensures r[0] == '0' ==> r == "0"
  {
    if n < 10 then [DigitChar(n)]
    else
      var p := ShowNat(n / 10);
      var r := p + [DigitChar(n % 10)];
      assert r[..|r| - 1] == p;
      r
  }

  /** `Number(s)` for a string: the empty string is 0, an optional sign
      followed by decimal digits is that integer, anything else is NaN. */
  function ParseNumber(s: string): JsNumber
  {
    if s == "" then Int(0)
    else if s[0] == '-' && |s| > 1 && AllDigits(s[1..]) then Int(-(DigitsValue(s[1..]) as int))
    else if s[0] == '+' && |s| > 1 && AllDigits(s[1..]) then Int(DigitsValue(s[1..]))
    else if AllDigits(s) then Int(DigitsValue(s))
    else NaN
  }

  /** `String(n)` for an integer: the canonical decimal, with a minus sign
      exactly for negative numbers and no leading zero; `Number` reads it
      back as `n`. */
  function ShowInt(n: int): (r: string)
    ensures |r| > 0
    ensures r[0] == '-' || IsDigit(r[0])
    ensures r[0] == '-' <==> n < 0
    ensures r[0] == '-' ==> |r| > 1 && AllDigits(r[1..]) && r[1] != '0'
    ensures r[0] != '-' ==> AllDigits(r)
    ensures r[0] == '0' ==> r == "0"
    ensures ParseNumber(r) == Int(n)
  {
    if n < 0 then
      var r := "-" + ShowNat(-n);
      assert r[1..] == ShowNat(-n);
      r
    else ShowNat(n)
  }

  // ---------------------------------------------------------------------------
  // Conversions

  /** `Number(v)`. */
  function ToNumber(v: Value): JsNumber
  {
    match v
    case Null => Int(0)
    case Missing => NaN
    case Num(n) => Int(n)
    case Str(s) => ParseNumber(s)
  }

  /** `String(v)`. */
  function ToStr(v: Value): string
  {
    match v
    case Null => "null"
    case Missing => "undefined"
    case Num(n) => ShowInt(n)
    case Str(s) => s
  }

  /** JavaScript truthiness: `null`, `undefined`, `0` and `""` are falsy. */
  predicate Truthy(v: Value)
  {
    match v
    case Null => false
    case Missing => false
    case Num(n) => n != 0
    case Str(s) => s != ""
  }

  // ---------------------------------------------------------------------------
  // String built-ins

  function LowerChar(c: char): char
  {
    if 'A' <= c <= 'Z' then (c as int + 32) as char else c
  }

  /** `s.toLowerCase()`, on ASCII letters. */
  function Lower(s: string): (r: string)
    ensures |r| == |s|
  {
    seq(|s|, i requires 0 <= i < |s| => LowerChar(s[i]))
  }

  /** `s.startsWith(p)`. */
  predicate StartsWith(s: string, p: string)
  {
    |p| <= |s| && s[..|p|] == p
  }

  /** `sub` occurs in `s` starting at position `i`. */
  predicate OccursAt(s: string, sub: string, i: int)
  {
    0 <= i && i + |sub| <= |s| && s[i..i + |sub|] == sub
  }

  /** `s.includes(sub)`: `sub` occurs in `s` at some position. */
  function Includes(s: string, sub: string): (r: bool)
    ensures r <==> exists i :: OccursAt(s, sub, i)
  {
    if StartsWith(s, sub) then
      assert OccursAt(s, sub, 0);
      true
    else if |s| == 0 then
      assert forall i :: !OccursAt(s, sub, i);
      false
    else
      var r := Includes(s[1..], sub);
      assert forall i :: OccursAt(s[1..], sub, i) <==> OccursAt(s, sub, i + 1) by {
        forall i ensures OccursAt(s[1..], sub, i) <==> OccursAt(s, sub, i + 1) {
          if 0 <= i && i + |sub| <= |s[1..]| {
            assert s[1..][i..i + |sub|] == s[i + 1..i + 1 + |sub|];
          }
        }
      }
      assert !OccursAt(s, sub, 0);
      assert (exists i :: OccursAt(s, sub, i)) ==> exists i :: OccursAt(s[1..], sub, i) by {
        if exists i :: OccursAt(s, sub, i) {
          var i :| OccursAt(s, sub, i);
          assert OccursAt(s[1..], sub, i - 1);
        }
      }
      r
  }

  /** The position of the first `c` in `s`. */
  function FirstIndex(s: string, c: char): (i: nat)
    requires c in s
    ensures i < |s| && s[i] == c && c !in s[..i]
  {
    if s[0] == c then 0
    else
      assert c in s[1..] by {
        var k :| 0 <= k < |s| && s[k] == c;
        assert s[1..][k - 1] == c;
      }
      var j := FirstIndex(s[1..], c);
      assert s[..j + 1] == [s[0]] + s[1..][..j];
      j + 1
  }

  /** `s.replace(c, "")` for a one-character pattern: only the first
      occurrence of `c` is removed. */
  function RemoveFirst(s: string, c: char): (r: string)
    ensures c !in s ==> r == s
    ensures c in s ==> r == s[..FirstIndex(s, c)] + s[FirstIndex(s, c) + 1..]
  {
    if |s| == 0 then s
    else if s[0] == c then s[1..]
    else
      var t := RemoveFirst(s[1..], c);
      RemoveFirstBehindHead(s, c, t);
      [s[0]] + t
  }

  /** One step of `RemoveFirst`: a head other than `c` stays in front of the
      tail with its first `c` removed. */
  lemma RemoveFirstBehindHead(s: string, c: char, t: string)
    requires |s| > 0 && s[0] != c
    requires c !in s[1..] ==> t == s[1..]
    requires c in s[1..] ==> t == s[1..][..FirstIndex(s[1..], c)] + s[1..][FirstIndex(s[1..], c) + 1..]
    ensures c !in s ==> [s[0]] + t == s
    ensures c in s ==> [s[0]] + t == s[..FirstIndex(s, c)] + s[FirstIndex(s, c) + 1..]
  {
    if c in s {
      FirstIndexBehindHead(s, c);
      SpliceBehindHead(s, FirstIndex(s[1..], c));
    } else {
      assert c !in s[1..];
      assert [s[0]] + s[1..] == s;
    }
  }

  lemma FirstIndexBehindHead(s: string, c: char)
    requires c in s && s[0] != c
    ensures c in s[1..] && FirstIndex(s, c) == FirstIndex(s[1..], c) + 1
  {
    var k :| 0 <= k < |s| && s[k] == c;
    assert s[1..][k - 1] == c;
  }

  /** Removing position `j` of the tail, behind the head, removes position
      `j + 1` of the whole. */
  lemma SpliceBehindHead(s: string, j: nat)
    requires j + 1 < |s|
    ensures [s[0]] + (s[1..][..j] + s[1..][j + 1..]) == s[..j + 1] + s[j + 2..]
  {
    assert s[..j + 1] == [s[0]] + s[1..][..j];
    assert s[j + 2..] == s[1..][j + 1..];
  }

  /** `a.localeCompare(b)`, as code-point lexicographic order: -1, 0 or 1. */
  function Collate(a: string, b: string): int
  {
    if |a| == 0 && |b| == 0 then 0
    else if |a| == 0 then -1
    else if |b| == 0 then 1
    else if a[0] < b[0] then -1
    else if a[0] > b[0] then 1
    else Collate(a[1..], b[1..])
  }

  /** Swapping the operands of `Collate` negates it. */
  lemma {:induction false} CollateAntisymmetric(a: string, b: string)
    ensures Collate(b, a) == -Collate(a, b)
  {
    if |a| > 0 && |b| > 0 && a[0] == b[0] {
      CollateAntisymmetric(a[1..], b[1..]);
    }
  }

  /** `Collate` says "equal" exactly for equal strings. */
  lemma {:induction false} CollateZeroIffEqual(a: string, b: string)
    ensures Collate(a, b) == 0 <==> a == b
  {
    if |a| > 0 && |b| > 0 && a[0] == b[0] {
      CollateZeroIffEqual(a[1..], b[1..]);
      assert a == [a[0]] + a[1..] && b == [b[0]] + b[1..];
    }
  }

  /** `Collate(a, b) <= 0` is transitive. */
  lemma {:induction false} CollateTransitive(a: string, b: string, c: string)
    requires Collate(a, b) <= 0 && Collate(b, c) <= 0
    ensures Collate(a, c) <= 0
  {
    if |a| > 0 && |b| > 0 && |c| > 0 && a[0] == b[0] && b[0] == c[0] {
      CollateTransitive(a[1..], b[1..], c[1..]);
    }
  }

  // ---------------------------------------------------------------------------
  // Dates

  /** Milliseconds in a day. */
  const MsPerDay: int := 86400000

  predicate InLeapYear(y: int)
  {
    y % 4 == 0 && (y % 100 != 0 || y % 400 == 0)
  }

  function DaysInYear(y: int): int
  {
    if InLeapYear(y) then 366 else 365
  }

  /** ECMA-262 `DayFromYear`: the day number of the first day of year `y`,
      counted from 1970-01-01 (`/` on a positive divisor is the floor). */
  function DayFromYear(y: int): int
  {
    365 * (y - 1970) + (y - 1969) / 4 - (y - 1901) / 100 + (y - 1601) / 400
  }

  function DaysInMonth(y: int, m: int): int
    requires 1 <= m <= 12
  {
    if m == 2 then (if InLeapYear(y) then 29 else 28)
    else if m == 4 || m == 6 || m == 9 || m == 11 then 30
    else 31
  }

  /** Days of year `y` before the first of month `m` (1 to 12). */
  function MonthStart(y: int, m: int): int
    requires 1 <= m <= 12
  {
    (if m == 1 then 0 else if m == 2 then 31 else if m == 3 then 59
     else if m == 4 then 90 else if m == 5 then 120 else if m == 6 then 151
     else if m == 7 then 181 else if m == 8 then 212 else if m == 9 then 243
     else if m == 10 then 273 else if m == 11 then 304 else 334)
    + (if m > 2 && InLeapYear(y) then 1 else 0)
  }

  /** ECMA-262 `MakeDay(y, m - 1, d)`: the day number of day `d` of month
      `m`. A day past the end of its month runs on into the next one. */
  function MakeDay(y: int, m: int, d: int): int
    requires 1 <= m <= 12
  {
    DayFromYear(y) + MonthStart(y, m) + d - 1
  }

  /** `YYYY-MM-DD`: four, two and two decimal digits separated by dashes. */
  predicate IsoDateShape(s: string)
  {
    |s| == 10 && s[4] == '-' && s[7] == '-'
    && AllDigits(s[..4]) && AllDigits(s[5..7]) && AllDigits(s[8..])
  }

  function DateYear(s: string): nat
    requires IsoDateShape(s)
  {
    DigitsValue(s[..4])
  }

  function DateMonth(s: string): nat
    requires IsoDateShape(s)
  {
    DigitsValue(s[5..7])
  }

  function DateDay(s: string): nat
    requires IsoDateShape(s)
  {
    DigitsValue(s[8..])
  }

  /** `new Date(s).getTime()` for a string: a date-only ISO string
      `YYYY-MM-DD` with month 01-12 and day 01-31 is read as midnight UTC of
      that day, in milliseconds since 1970-01-01; any other text is an
      invalid date (NaN). */
  function ParseDate(s: string): JsNumber
  {
    if IsoDateShape(s) && 1 <= DateMonth(s) <= 12 && 1 <= DateDay(s) <= 31
    then Int(MakeDay(DateYear(s), DateMonth(s), DateDay(s)) * MsPerDay)
    else NaN
  }

  /** The string holds a real calendar date: its day exists in its month. */
  predicate IsCalendarDate(s: string)
  {
    IsoDateShape(s) && 1 <= DateMonth(s) <= 12
    && 1 <= DateDay(s) <= DaysInMonth(DateYear(s), DateMonth(s))
  }

  /** Year `y + 1` starts one year's worth of days after year `y`. */
  lemma YearStep(y: int)
    ensures DayFromYear(y + 1) == DayFromYear(y) + DaysInYear(y)
  {
    FloorStep4(y);
    FloorStep100(y);
    FloorStep400(y);
    CenturiesDivide(y);
  }

  /** A multiple of 400 is a multiple of 100, which is a multiple of 4. */
  lemma CenturiesDivide(y: int)
    ensures y % 400 == 0 ==> y % 100 == 0
    ensures y % 100 == 0 ==> y % 4 == 0
  {
    if y % 400 == 0 {
      QuadricentennialIsCentury(y);
    }
    if y % 100 == 0 {
      CenturyIsLeapMultiple(y);
    }
  }

  lemma QuadricentennialIsCentury(y: int)
    requires y % 400 == 0
    ensures y % 100 == 0
  {
    var k := y / 400;
    assert y == 400 * k;
    assert y / 100 == 4 * k;
  }

  lemma CenturyIsLeapMultiple(y: int)
    requires y % 100 == 0
    ensures y % 4 == 0
  {
    var k := y / 100;
    assert y == 100 * k;
    assert y / 4 == 25 * k;
  }

  lemma FloorStep4(y: int)
    ensures ((y + 1) - 1969) / 4 - (y - 1969) / 4 == (if y % 4 == 0 then 1 else 0)
  {
    var q, r := (y - 1969) / 4, (y - 1969) % 4;
    assert y == 4 * (q + 492) + r + 1;
    if r == 3 {
      assert y - 1968 == 4 * (q + 1);
    } else {
      assert y - 1968 == 4 * q + r + 1;
    }
  }

  lemma FloorStep100(y: int)
    ensures ((y + 1) - 1901) / 100 - (y - 1901) / 100 == (if y % 100 == 0 then 1 else 0)
  {
    var q, r := (y - 1901) / 100, (y - 1901) % 100;
    assert y == 100 * (q + 19) + r + 1;
    if r == 99 {
      assert y - 1900 == 100 * (q + 1);
    } else {
      assert y - 1900 == 100 * q + r + 1;
    }
  }

  lemma FloorStep400(y: int)
    ensures ((y + 1) - 1601) / 400 - (y - 1601) / 400 == (if y % 400 == 0 then 1 else 0)
  {
    var q, r := (y - 1601) / 400, (y - 1601) % 400;
    assert y == 400 * (q + 4) + r + 1;
    if r == 399 {
      assert y - 1600 == 400 * (q + 1);
    } else {
      assert y - 1600 == 400 * q + r + 1;
    }
  }

  /** Earlier years start on earlier days. */
  lemma {:induction false} DayFromYearIncreasing(a: int, b: int)
    requires a < b
    ensures DayFromYear(a) + DaysInYear(a) <= DayFromYear(b)
    decreases b - a
  {
    YearStep(a);
    if a + 1 < b {
      DayFromYearIncreasing(a + 1, b);
    }
  }

  /** Each month of a year ends where the next one starts, and the last one
      ends where the year does. */
  lemma MonthsFillYear(y: int, m: int)
    requires 1 <= m <= 12
    ensures m < 12 ==> MonthStart(y, m) + DaysInMonth(y, m) == MonthStart(y, m + 1)
    ensures m == 12 ==> MonthStart(y, m) + DaysInMonth(y, m) == DaysInYear(y)
  {
  }

  /** Earlier months start on earlier days. */
  lemma {:induction false} MonthStartIncreasing(y: int, a: int, b: int)
    requires 1 <= a < b <= 12
    ensures MonthStart(y, a) + DaysInMonth(y, a) <= MonthStart(y, b)
    decreases b - a
  {
    MonthsFillYear(y, a);
    if a + 1 < b {
      MonthStartIncreasing(y, a + 1, b);
    }
  }

  /** For real calendar dates, the day numbers are ordered as the dates are:
      by year, then month, then day. */
  lemma MakeDayOrder(y1: int, m1: int, d1: int, y2: int, m2: int, d2: int)
    requires 1 <= m1 <= 12 && 1 <= d1 <= DaysInMonth(y1, m1)
    requires 1 <= m2 <= 12 && 1 <= d2 <= DaysInMonth(y2, m2)
    ensures MakeDay(y1, m1, d1) < MakeDay(y2, m2, d2)
            <==> y1 < y2 || (y1 == y2 && (m1 < m2 || (m1 == m2 && d1 < d2)))
  {
    MonthsFillYear(y1, m1);
    MonthsFillYear(y2, m2);
    if m1 < 12 {
      MonthStartIncreasing(y1, m1, 12);
    }
    if m2 < 12 {
      MonthStartIncreasing(y2, m2, 12);
    }
    if y1 < y2 {
      DayFromYearIncreasing(y1, y2);
    } else if y2 < y1 {
      DayFromYearIncreasing(y2, y1);
    } else if m1 < m2 {
      MonthStartIncreasing(y1, m1, m2);
    } else if m2 < m1 {
      MonthStartIncreasing(y1, m2, m1);
    }
  }

  /** Two calendar-date strings compare by time value exactly as the dates
      do: by year, then month, then day. */
  lemma ParseDateOrder(a: string, b: string)
    requires IsCalendarDate(a) && IsCalendarDate(b)
    ensures ParseDate(a).Int? && ParseDate(b).Int?
    ensures ParseDate(a).i < ParseDate(b).i
            <==> DateYear(a) < DateYear(b)
                 || (DateYear(a) == DateYear(b)
                     && (DateMonth(a) < DateMonth(b)
                         || (DateMonth(a) == DateMonth(b) && DateDay(a) < DateDay(b))))
  {
    MakeDayOrder(DateYear(a), DateMonth(a), DateDay(a), DateYear(b), DateMonth(b), DateDay(b));
  }

  /** The epoch reads as time value 0. */
  lemma EpochIsZero()
    ensures ParseDate("1970-01-01") == Int(0)
  {
    IsoDateFields('1', '9', '7', '0', '0', '1', '0', '1');
    assert "1970-01-01" == ['1', '9', '7', '0', '-', '0', '1', '-', '0', '1'];
  }

  /** 2023-01-15 reads as midnight UTC of that day. */
  lemma MidJanuary2023()
    ensures ParseDate("2023-01-15") == Int(1673740800000)
  {
    IsoDateFields('2', '0', '2', '3', '0', '1', '1', '5');
    assert "2023-01-15" == ['2', '0', '2', '3', '-', '0', '1', '-', '1', '5'];
    assert MakeDay(2023, 1, 15) == 19372;
  }

  /** The fields of a date string written out character by character. */
  lemma IsoDateFields(y1: char, y2: char, y3: char, y4: char, m1: char, m2: char, d1: char, d2: char)
    requires IsDigit(y1) && IsDigit(y2) && IsDigit(y3) && IsDigit(y4)
    requires IsDigit(m1) && IsDigit(m2) && IsDigit(d1) && IsDigit(d2)
    ensures var s := [y1, y2, y3, y4, '-', m1, m2, '-', d1, d2];
            && IsoDateShape(s)
            && DateYear(s) == (y1 as int - '0' as int) * 1000 + (y2 as int - '0' as int) * 100
                              + (y3 as int - '0' as int) * 10 + (y4 as int - '0' as int)
            && DateMonth(s) == (m1 as int - '0' as int) * 10 + (m2 as int - '0' as int)
            && DateDay(s) == (d1 as int - '0' as int) * 10 + (d2 as int - '0' as int)
  {
    var s := [y1, y2, y3, y4, '-', m1, m2, '-', d1, d2];
    assert s[..4] == [y1, y2, y3, y4] && s[5..7] == [m1, m2] && s[8..] == [d1, d2];
    DigitsOf4(y1, y2, y3, y4);
    DigitsOf2(m1, m2);
    DigitsOf2(d1, d2);
  }

  lemma DigitsSnoc(p: string, c: char)
    requires AllDigits(p) && IsDigit(c)
    ensures AllDigits(p + [c])
    ensures DigitsValue(p + [c]) == DigitsValue(p) * 10 + (c as int - '0' as int)
  {
    assert (p + [c])[..|p|] == p;
  }

  lemma DigitsOf2(a: char, b: char)
    requires IsDigit(a) && IsDigit(b)
    ensures DigitsValue([a, b]) == (a as int - '0' as int) * 10 + (b as int - '0' as int)
  {
    DigitsSnoc([], a);
    assert [] + [a] == [a];
    DigitsSnoc([a], b);
    assert [a] + [b] == [a, b];
  }

  lemma DigitsOf4(a: char, b: char, c: char, d: char)
    requires IsDigit(a) && IsDigit(b) && IsDigit(c) && IsDigit(d)
    ensures DigitsValue([a, b, c, d])
            == (a as int - '0' as int) * 1000 + (b as int - '0' as int) * 100
               + (c as int - '0' as int) * 10 + (d as int - '0' as int)
  {
    DigitsOf2(a, b);
    DigitsSnoc([a, b], c);
    assert [a, b] + [c] == [a, b, c];
    DigitsSnoc([a, b, c], d);
    assert [a, b, c] + [d] == [a, b, c, d];
  }

  /** `new Date(v).getTime()`: a number is already a time value, `undefined`
      is an invalid date. */
  function TimeValue(v: Value): JsNumber
  {
    match v
    case Null => Int(0)
    case Missing => NaN
    case Num(n) => Int(n)
    case Str(s) => ParseDate(s)
  }
}
