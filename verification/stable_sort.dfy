/** A stable insertion sort driven by a JavaScript-style comparator
    (negative: first goes before, zero: keep input order, positive: second
    goes before), standing in for `Array.prototype.sort`, which is required
    to be stable. The output is always a permutation of the input; when the
    comparator is a total preorder on the elements it is also sorted and
    stable. */
module StableSort {

  /** The comparator, read as "a goes no later than b", is a total preorder
      on the elements of `S`. */
  ghost predicate TotalPreorderOn<T>(cmp: (T, T) -> int, S: set<T>)
  {
    && (forall a, b | a in S && b in S :: cmp(a, b) < 0 <==> cmp(b, a) > 0)
    && (forall a, b, c {:trigger cmp(a, b), cmp(b, c), cmp(a, c)} | a in S && b in S && c in S ::
          cmp(a, b) <= 0 && cmp(b, c) <= 0 ==> cmp(a, c) <= 0)
  }

  /** Every element of `s` is in `S`. */
  ghost predicate Within<T>(s: seq<T>, S: set<T>)
  {
    forall e | e in s :: e in S
  }

  ghost function Elements<T>(s: seq<T>): (S: set<T>)
    ensures Within(s, S)
  {
    set e | e in s
  }

  /** No element is placed after one the comparator puts strictly before it. */
  ghost predicate Sorted<T>(s: seq<T>, cmp: (T, T) -> int)
  {
    forall i, j | 0 <= i < j < |s| :: cmp(s[i], s[j]) <= 0
  }

  /** The elements of `s` the comparator ties with `x`, in their order in `s`. */
  function Ties<T>(s: seq<T>, x: T, cmp: (T, T) -> int): seq<T>
  {
    if |s| == 0 then []
    else (if cmp(s[0], x) == 0 then [s[0]] else []) + Ties(s[1..], x, cmp)
  }

  /** Equal elements keep their relative order. */
  ghost predicate Stable<T>(input: seq<T>, output: seq<T>, cmp: (T, T) -> int)
  {
    forall x | x in input :: Ties(output, x, cmp) == Ties(input, x, cmp)
  }

  /** Places `x` before the first element it compares strictly below, so
      after every element it ties with. */
  function Insert<T>(x: T, t: seq<T>, cmp: (T, T) -> int): (r: seq<T>)
    ensures multiset(r) == multiset(t) + multiset{x}
  {
    if |t| == 0 then [x]
    else if cmp(x, t[0]) < 0 then [x] + t
    else
      assert t == [t[0]] + t[1..];
      [t[0]] + Insert(x, t[1..], cmp)
  }

  /** Inserts the input's elements one by one, first to last. */
  function InsertionSort<T>(s: seq<T>, cmp: (T, T) -> int): (r: seq<T>)
    ensures multiset(r) == multiset(s)
  {
    if |s| == 0 then []
    else
      assert s == s[..|s| - 1] + [s[|s| - 1]];
      Insert(s[|s| - 1], InsertionSort(s[..|s| - 1], cmp), cmp)
  }

  // ---------------------------------------------------------------------------
  // Sortedness

  lemma WithinByMultiset<T>(a: seq<T>, b: seq<T>, S: set<T>)
    requires multiset(a) <= multiset(b) && Within(b, S)
    ensures Within(a, S)
  {
    forall e | e in a ensures e in S {
      assert e in multiset(a);
    }
  }

  lemma SortedTail<T>(t: seq<T>, cmp: (T, T) -> int)
    requires Sorted(t, cmp) && |t| > 0
    ensures Sorted(t[1..], cmp)
  {
    forall i, j | 0 <= i < j < |t[1..]| ensures cmp(t[1..][i], t[1..][j]) <= 0 {
      assert t[1..][i] == t[i + 1] && t[1..][j] == t[j + 1];
    }
  }

  lemma SortedCons<T>(h: T, u: seq<T>, cmp: (T, T) -> int)
    requires Sorted(u, cmp) && forall e | e in u :: cmp(h, e) <= 0
    ensures Sorted([h] + u, cmp)
  {
    var r := [h] + u;
    forall i, j | 0 <= i < j < |r| ensures cmp(r[i], r[j]) <= 0 {
      assert r[j] == u[j - 1] && u[j - 1] in u;
      if i > 0 {
        assert r[i] == u[i - 1];
      }
    }
  }

  /** The head of a sorted sequence goes no later than any of its elements. */
  lemma HeadIsLeast<T>(t: seq<T>, cmp: (T, T) -> int, S: set<T>)
    requires TotalPreorderOn(cmp, S) && Within(t, S) && Sorted(t, cmp) && |t| > 0
    ensures forall e | e in t :: cmp(t[0], e) <= 0
  {
    forall e | e in t ensures cmp(t[0], e) <= 0 {
      var k :| 0 <= k < |t| && t[k] == e;
      if k == 0 {
        assert t[0] in S;
      }
    }
  }

  /** Insertion keeps a sorted sequence sorted. */
  lemma {:induction false} InsertSorted<T>(x: T, t: seq<T>, cmp: (T, T) -> int, S: set<T>)
    requires TotalPreorderOn(cmp, S) && x in S && Within(t, S)
    requires Sorted(t, cmp)
    ensures Sorted(Insert(x, t, cmp), cmp)
  {
    if |t| == 0 {
    } else if cmp(x, t[0]) < 0 {
      HeadIsLeast(t, cmp, S);
      var h := t[0];
      assert h in t && h in S;
      forall e | e in t ensures cmp(x, e) <= 0 {
        assert e in S && cmp(h, e) <= 0;
      }
      SortedCons(x, t, cmp);
    } else {
      var h := t[0];
      assert h in t && h in S;
      assert cmp(h, x) <= 0;
      SortedTail(t, cmp);
      assert Within(t[1..], S) by {
        forall e | e in t[1..] ensures e in S {
          assert e in t;
        }
      }
      InsertSorted(x, t[1..], cmp, S);
      HeadIsLeast(t, cmp, S);
      var u := Insert(x, t[1..], cmp);
      forall e | e in u ensures cmp(h, e) <= 0 {
        assert e in multiset(u);
        if e != x {
          assert e in multiset(t[1..]);
          assert e in t[1..];
          assert e in t;
        }
      }
      SortedCons(h, u, cmp);
    }
  }

  /** With a comparator that is a total preorder on the input, the result is
      sorted. */
  lemma {:induction false} InsertionSortSorted<T>(s: seq<T>, cmp: (T, T) -> int, S: set<T>)
    requires TotalPreorderOn(cmp, S) && Within(s, S)
    ensures Sorted(InsertionSort(s, cmp), cmp)
  {
    if |s| > 0 {
      var p := s[..|s| - 1];
      assert Within(p, S) by {
        forall e | e in p ensures e in S {
          var k :| 0 <= k < |p| && p[k] == e;
          assert e == s[k];
        }
      }
      InsertionSortSorted(p, cmp, S);
      WithinByMultiset(InsertionSort(p, cmp), p, S);
      assert s[|s| - 1] in s;
      InsertSorted(s[|s| - 1], InsertionSort(p, cmp), cmp, S);
    }
  }

  // ---------------------------------------------------------------------------
  // Stability

  lemma {:induction false} TiesAppend<T>(p: seq<T>, y: T, x: T, cmp: (T, T) -> int)
    ensures Ties(p + [y], x, cmp) == Ties(p, x, cmp) + (if cmp(y, x) == 0 then [y] else [])
  {
    if |p| > 0 {
      assert (p + [y])[1..] == p[1..] + [y];
      TiesAppend(p[1..], y, x, cmp);
    }
  }

  lemma {:induction false} NoTies<T>(t: seq<T>, x: T, cmp: (T, T) -> int)
    requires forall e | e in t :: cmp(e, x) != 0
    ensures Ties(t, x, cmp) == []
  {
    if |t| > 0 {
      assert t[0] in t;
      assert forall e | e in t[1..] :: e in t;
      NoTies(t[1..], x, cmp);
    }
  }

  /** An element inserted below the head of a sorted sequence is tied with
      nothing already there. */
  lemma TiesAboveInserted<T>(y: T, t: seq<T>, x: T, cmp: (T, T) -> int, S: set<T>)
    requires TotalPreorderOn(cmp, S) && y in S && x in S && Within(t, S)
    requires Sorted(t, cmp) && |t| > 0 && cmp(y, t[0]) < 0 && cmp(y, x) == 0
    ensures Ties(t, x, cmp) == []
  {
    assert t[0] in t;
    forall e | e in t ensures cmp(e, x) != 0 {
      var h := t[0];
      var j :| 0 <= j < |t| && t[j] == e;
      assert e in S && h in S && cmp(h, e) <= 0;
      assert cmp(x, y) <= 0 && cmp(h, y) > 0;
      assert cmp(e, x) <= 0 ==> cmp(e, y) <= 0;
      assert cmp(e, y) <= 0 ==> cmp(h, y) <= 0;
    }
    NoTies(t, x, cmp);
  }

  /** Inserting `y` appends it to its tie class. */
  lemma {:induction false} InsertTies<T>(y: T, t: seq<T>, x: T, cmp: (T, T) -> int, S: set<T>)
    requires TotalPreorderOn(cmp, S) && y in S && x in S && Within(t, S)
    requires Sorted(t, cmp)
    ensures Ties(Insert(y, t, cmp), x, cmp) == Ties(t, x, cmp) + (if cmp(y, x) == 0 then [y] else [])
  {
    if |t| == 0 {
      assert Ties([y], x, cmp) == (if cmp(y, x) == 0 then [y] else []) + Ties([], x, cmp);
    } else if cmp(y, t[0]) < 0 {
      assert ([y] + t)[1..] == t;
      if cmp(y, x) == 0 {
        TiesAboveInserted(y, t, x, cmp, S);
      }
    } else {
      SortedTail(t, cmp);
      assert Within(t[1..], S) by {
        forall e | e in t[1..] ensures e in S {
          assert e in t;
        }
      }
      InsertTies(y, t[1..], x, cmp, S);
      TiesBehindHead(y, t, x, cmp);
    }
  }

  /** When `y` goes after the head, the ties of the result are the head's
      tie followed by the ties of inserting into the rest. */
  lemma TiesBehindHead<T>(y: T, t: seq<T>, x: T, cmp: (T, T) -> int)
    requires |t| > 0 && cmp(y, t[0]) >= 0
    requires Ties(Insert(y, t[1..], cmp), x, cmp) == Ties(t[1..], x, cmp) + (if cmp(y, x) == 0 then [y] else [])
    ensures Ties(Insert(y, t, cmp), x, cmp) == Ties(t, x, cmp) + (if cmp(y, x) == 0 then [y] else [])
  {
    InsertBehindHead(y, t, cmp);
    HeadAndTail(t);
    TiesOfCons(t[0], Insert(y, t[1..], cmp), t[1..], x, if cmp(y, x) == 0 then [y] else [], cmp);
  }

  lemma HeadAndTail<T>(t: seq<T>)
    requires |t| > 0
    ensures [t[0]] + t[1..] == t
  {
  }

  lemma InsertBehindHead<T>(y: T, t: seq<T>, cmp: (T, T) -> int)
    requires |t| > 0 && cmp(y, t[0]) >= 0
    ensures Insert(y, t, cmp) == [t[0]] + Insert(y, t[1..], cmp)
  {
  }

  /** Ties distribute over a common head. */
  lemma TiesOfCons<T>(h: T, u: seq<T>, v: seq<T>, x: T, z: seq<T>, cmp: (T, T) -> int)
    requires Ties(u, x, cmp) == Ties(v, x, cmp) + z
    ensures Ties([h] + u, x, cmp) == Ties([h] + v, x, cmp) + z
  {
    TiesCons(h, u, x, cmp);
    TiesCons(h, v, x, cmp);
    AppendAssoc(if cmp(h, x) == 0 then [h] else [], Ties(v, x, cmp), z);
  }

  lemma TiesCons<T>(h: T, u: seq<T>, x: T, cmp: (T, T) -> int)
    ensures Ties([h] + u, x, cmp) == (if cmp(h, x) == 0 then [h] else []) + Ties(u, x, cmp)
  {
    assert ([h] + u)[1..] == u;
  }

  lemma AppendAssoc<T>(a: seq<T>, b: seq<T>, c: seq<T>)
    ensures a + (b + c) == (a + b) + c
  {
  }

  lemma {:induction false} InsertionSortTies<T>(s: seq<T>, x: T, cmp: (T, T) -> int, S: set<T>)
    requires TotalPreorderOn(cmp, S) && Within(s, S) && x in S
    ensures Ties(InsertionSort(s, cmp), x, cmp) == Ties(s, x, cmp)
  {
    if |s| > 0 {
      var p := s[..|s| - 1];
      var y := s[|s| - 1];
      assert s == p + [y];
      assert Within(p, S) by {
        forall e | e in p ensures e in S {
          var k :| 0 <= k < |p| && p[k] == e;
          assert e == s[k];
        }
      }
      assert y in s;
      InsertionSortTies(p, x, cmp, S);
      InsertionSortSorted(p, cmp, S);
      WithinByMultiset(InsertionSort(p, cmp), p, S);
      InsertTies(y, InsertionSort(p, cmp), x, cmp, S);
      TiesAppend(p, y, x, cmp);
    }
  }

  /** With a comparator that is a total preorder on the input, elements the
      comparator ties keep their input order. */
  lemma InsertionSortStable<T>(s: seq<T>, cmp: (T, T) -> int)
    requires TotalPreorderOn(cmp, Elements(s))
    ensures Stable(s, InsertionSort(s, cmp), cmp)
  {
    forall x | x in s ensures Ties(InsertionSort(s, cmp), x, cmp) == Ties(s, x, cmp) {
      InsertionSortTies(s, x, cmp, Elements(s));
    }
  }
}
