/** The due-date ordering of the card list (src/app/Components/TaskCardList.tsx,
    lines 14-33): the comparator handed to `Array.prototype.sort`, the sort order
    toggle, and a functional stable sort that states what sorting with that
    comparator yields.

    `Array.prototype.sort` is stable, and the comparator is consistent once dates
    are parsed timestamps: it is zero exactly on tasks with the same due date.
    `SortByDue` is a stable insertion sort with the same comparator, and
    `StableSortIsUnique` shows that every sorted arrangement that keeps tied tasks
    in input order is `SortByDue`'s result, so it is the result the engine's own
    sort produces as well. */
module DueDateOrder {
  import opened TaskTypes

  datatype SortOrder = Asc | Desc

  /** The order after one press of the sort button. */
  function Flip(order: SortOrder): (r: SortOrder)
    ensures r != order
  {
    if order == Asc then Desc else Asc
  }

  /** The comparator: negative puts `a` first, positive puts `b` first.
      A missing due date goes last under `Asc` and first under `Desc`. */
  function Compare(a: Task, b: Task, order: SortOrder): (r: int)
    ensures r == 0 <==> a.dueDate == b.dueDate
    ensures a.dueDate.None? && b.dueDate.Some? ==> (r > 0 <==> order == Asc)
    ensures a.dueDate.Some? && b.dueDate.None? ==> (r < 0 <==> order == Asc)
    ensures a.dueDate.Some? && b.dueDate.Some? ==>
      (r < 0 <==> (if order == Asc then a.dueDate.value < b.dueDate.value
                   else b.dueDate.value < a.dueDate.value))
  {
    if a.dueDate.None? && b.dueDate.None? then 0
    else if a.dueDate.None? then (if order == Asc then 1 else -1)
    else if b.dueDate.None? then (if order == Asc then -1 else 1)
    else if order == Asc then a.dueDate.value - b.dueDate.value
    else b.dueDate.value - a.dueDate.value
  }

  /** `a` may stand before `b`. */
  predicate Le(a: Task, b: Task, order: SortOrder)
  {
    Compare(a, b, order) <= 0
  }

  predicate Sorted(s: seq<Task>, order: SortOrder)
  {
    forall i, j :: 0 <= i < j < |s| ==> Le(s[i], s[j], order)
  }

  /** The tasks of `s` whose due date is `d`, in their order in `s`: one class of
      tasks the comparator treats as equal. */
  function WithDue(s: seq<Task>, d: Option<int>): seq<Task>
  {
    if s == [] then []
    else WithDue(s[..|s| - 1], d) + (if s[|s| - 1].dueDate == d then [s[|s| - 1]] else [])
  }

  /** A stable sort keeps every class of equal tasks in input order. */
  ghost predicate KeepsTies(r: seq<Task>, s: seq<Task>)
  {
    forall d :: WithDue(r, d) == WithDue(s, d)
  }

  /** Inserts `x` after the last element of `t` that the comparator does not put
      after `x`, scanning from the right; the inner step of insertion sort. */
  function Insert(t: seq<Task>, x: Task, order: SortOrder): seq<Task>
  {
    if t == [] then [x]
    else if Compare(t[|t| - 1], x, order) > 0 then Insert(t[..|t| - 1], x, order) + [t[|t| - 1]]
    else t + [x]
  }

  /** The sorted copy of `s`, stable insertion sort. */
  function SortByDue(s: seq<Task>, order: SortOrder): seq<Task>
  {
    if s == [] then [] else Insert(SortByDue(s[..|s| - 1], order), s[|s| - 1], order)
  }

  function Reverse(s: seq<Task>): (r: seq<Task>)
    ensures |r| == |s|
    ensures forall i :: 0 <= i < |s| ==> r[i] == s[|s| - 1 - i]
  {
    if s == [] then [] else [s[|s| - 1]] + Reverse(s[..|s| - 1])
  }

  // ---------------------------------------------------------------------------
  // The comparator and the toggle

  /** What a consistent comparator must satisfy, and how the two orders relate. */
  lemma ComparatorIsConsistent(a: Task, b: Task, c: Task, order: SortOrder)
    ensures Compare(a, b, order) == -Compare(b, a, order)
    ensures Compare(a, b, order) == 0 <==> a.dueDate == b.dueDate
    ensures Le(a, b, order) && Le(b, c, order) ==> Le(a, c, order)
    ensures Compare(a, b, Flip(order)) == -Compare(a, b, order)
  {
  }

  /** Pressing the sort button twice restores the order. */
  lemma FlipTwice(order: SortOrder)
    ensures Flip(Flip(order)) == order
  {
  }

  // ---------------------------------------------------------------------------
  // The result is a permutation

  lemma {:induction false} InsertPermutation(t: seq<Task>, x: Task, order: SortOrder)
    ensures multiset(Insert(t, x, order)) == multiset(t) + multiset{x}
  {
    if t != [] && Compare(t[|t| - 1], x, order) > 0 {
      InsertPermutation(t[..|t| - 1], x, order);
      assert t == t[..|t| - 1] + [t[|t| - 1]];
    }
  }

  lemma {:induction false} SortByDuePermutation(s: seq<Task>, order: SortOrder)
    ensures multiset(SortByDue(s, order)) == multiset(s)
    ensures |SortByDue(s, order)| == |s|
  {
    if s != [] {
      SortByDuePermutation(s[..|s| - 1], order);
      InsertPermutation(SortByDue(s[..|s| - 1], order), s[|s| - 1], order);
      assert s == s[..|s| - 1] + [s[|s| - 1]];
    }
    assert |multiset(SortByDue(s, order))| == |SortByDue(s, order)|;
  }

  // ---------------------------------------------------------------------------
  // The result is sorted

  /** Appending an element that no element may stand after keeps a sequence
      sorted. */
  lemma SortedSnoc(u: seq<Task>, y: Task, order: SortOrder)
    requires Sorted(u, order)
    requires forall i :: 0 <= i < |u| ==> Le(u[i], y, order)
    ensures Sorted(u + [y], order)
  {
  }

  /** Every element of `Insert(t, x, order)` is `x` or an element of `t`. */
  lemma InsertMembers(t: seq<Task>, x: Task, order: SortOrder, e: Task)
    requires e in Insert(t, x, order)
    ensures e == x || e in t
  {
  }

  lemma {:induction false} InsertSorted(t: seq<Task>, x: Task, order: SortOrder)
    requires Sorted(t, order)
    ensures Sorted(Insert(t, x, order), order)
  {
    if t == [] {
      assert Insert(t, x, order) == [x];
    } else {
      var last, init := t[|t| - 1], t[..|t| - 1];
      if Compare(last, x, order) > 0 {
        assert Sorted(init, order);
        InsertSorted(init, x, order);
        var u := Insert(init, x, order);
        forall i | 0 <= i < |u|
          ensures Le(u[i], last, order)
        {
          InsertMembers(init, x, order, u[i]);
          if u[i] == x {
            ComparatorIsConsistent(last, x, x, order);
          } else {
            var k :| 0 <= k < |init| && init[k] == u[i];
            assert t[k] == u[i];
          }
        }
        SortedSnoc(u, last, order);
        assert Insert(t, x, order) == u + [last];
      } else {
        forall i | 0 <= i < |t|
          ensures Le(t[i], x, order)
        {
          ComparatorIsConsistent(t[i], last, x, order);
        }
        SortedSnoc(t, x, order);
        assert Insert(t, x, order) == t + [x];
      }
    }
  }

  lemma {:induction false} SortByDueSorted(s: seq<Task>, order: SortOrder)
    ensures Sorted(SortByDue(s, order), order)
  {
    if s != [] {
      SortByDueSorted(s[..|s| - 1], order);
      InsertSorted(SortByDue(s[..|s| - 1], order), s[|s| - 1], order);
    }
  }

  /** Under `Asc` every task without a due date comes after every task with one;
      under `Desc` before every task with one. */
  lemma SortByDueMissingAtEnd(s: seq<Task>, order: SortOrder)
    ensures var r := SortByDue(s, order);
      forall i, j :: 0 <= i < j < |r| && r[i].dueDate.Some? != r[j].dueDate.Some? ==>
        (if order == Asc then r[i].dueDate.Some? else r[j].dueDate.Some?)
  {
    SortByDueSorted(s, order);
  }

  /** Among tasks with due dates, `Asc` gives non-decreasing and `Desc`
      non-increasing timestamps. */
  lemma SortByDueDatedMonotone(s: seq<Task>, order: SortOrder)
    ensures var r := SortByDue(s, order);
      forall i, j :: 0 <= i < j < |r| && r[i].dueDate.Some? && r[j].dueDate.Some? ==>
        (if order == Asc then r[i].dueDate.value <= r[j].dueDate.value
         else r[i].dueDate.value >= r[j].dueDate.value)
  {
    SortByDueSorted(s, order);
  }

  // ---------------------------------------------------------------------------
  // Ties keep their input order

  lemma {:induction false} WithDueAppend(s: seq<Task>, t: seq<Task>, d: Option<int>)
    ensures WithDue(s + t, d) == WithDue(s, d) + WithDue(t, d)
  {
    if t == [] {
      assert s + t == s;
    } else {
      var init, last := t[..|t| - 1], t[|t| - 1];
      WithDueAppend(s, init, d);
      assert (s + t)[..|s + t| - 1] == s + init;
      assert (s + t)[|s + t| - 1] == last;
      assert WithDue(t, d) == WithDue(init, d) + (if last.dueDate == d then [last] else []);
    }
  }

  /** The class of `d` in `s + [x]`, unfolded once. */
  lemma WithDueSnoc(s: seq<Task>, x: Task, d: Option<int>)
    ensures WithDue(s + [x], d) == WithDue(s, d) + (if x.dueDate == d then [x] else [])
  {
  }

  lemma {:induction false} InsertKeepsTies(t: seq<Task>, x: Task, order: SortOrder, d: Option<int>)
    ensures WithDue(Insert(t, x, order), d) == WithDue(t + [x], d)
  {
    if t != [] && Compare(t[|t| - 1], x, order) > 0 {
      var last, init := t[|t| - 1], t[..|t| - 1];
      var u := Insert(init, x, order);
      var xs := if x.dueDate == d then [x] else [];
      var ls := if last.dueDate == d then [last] else [];
      // x and last are not tied, so at most one of them is in the class of d
      ComparatorIsConsistent(last, x, x, order);
      assert xs + ls == ls + xs;
      assert t == init + [last];
      calc {
        WithDue(Insert(t, x, order), d);
        WithDue(u + [last], d);
        { WithDueSnoc(u, last, d); }
        WithDue(u, d) + ls;
        { InsertKeepsTies(init, x, order, d); WithDueSnoc(init, x, d); }
        (WithDue(init, d) + xs) + ls;
        WithDue(init, d) + (ls + xs);
        (WithDue(init, d) + ls) + xs;
        { WithDueSnoc(init, last, d); }
        WithDue(t, d) + xs;
        { WithDueSnoc(t, x, d); }
        WithDue(t + [x], d);
      }
    } else if t == [] {
      assert Insert(t, x, order) == t + [x];
    }
  }

  lemma {:induction false} SortByDueKeepsTies(s: seq<Task>, order: SortOrder)
    ensures KeepsTies(SortByDue(s, order), s)
  {
    if s != [] {
      var init, last := s[..|s| - 1], s[|s| - 1];
      SortByDueKeepsTies(init, order);
      forall d
        ensures WithDue(SortByDue(s, order), d) == WithDue(s, d)
      {
        InsertKeepsTies(SortByDue(init, order), last, order, d);
        WithDueAppend(SortByDue(init, order), [last], d);
        WithDueAppend(init, [last], d);
        assert s == init + [last];
      }
    }
  }

  // ---------------------------------------------------------------------------
  // Any stable sort gives the same result

  lemma {:induction false} WithDueMembers(s: seq<Task>, d: Option<int>, x: Task)
    ensures x in WithDue(s, d) <==> x in s && x.dueDate == d
  {
    if s != [] {
      WithDueMembers(s[..|s| - 1], d, x);
      assert s == s[..|s| - 1] + [s[|s| - 1]];
    }
  }

  lemma SortedLeLast(r: seq<Task>, x: Task, order: SortOrder)
    requires Sorted(r, order) && x in r
    ensures Le(x, r[|r| - 1], order)
  {
  }

  /** The last elements of two sorted sequences that agree on every class of
      tied tasks have the same due date. */
  lemma LastElementsTied(r1: seq<Task>, r2: seq<Task>, order: SortOrder)
    requires Sorted(r1, order) && Sorted(r2, order)
    requires KeepsTies(r1, r2)
    requires r1 != [] && r2 != []
    ensures r1[|r1| - 1].dueDate == r2[|r2| - 1].dueDate
  {
    var a, b := r1[|r1| - 1], r2[|r2| - 1];
    assert WithDue(r1, a.dueDate) == WithDue(r2, a.dueDate);
    WithDueMembers(r1, a.dueDate, a);
    WithDueMembers(r2, a.dueDate, a);
    SortedLeLast(r2, a, order);
    assert WithDue(r1, b.dueDate) == WithDue(r2, b.dueDate);
    WithDueMembers(r2, b.dueDate, b);
    WithDueMembers(r1, b.dueDate, b);
    SortedLeLast(r1, b, order);
    ComparatorIsConsistent(a, b, b, order);
  }

  /** Two sorted sequences that agree on every class of tied tasks are equal. */
  lemma {:induction false} SortedArrangementUnique(r1: seq<Task>, r2: seq<Task>, order: SortOrder)
    requires Sorted(r1, order) && Sorted(r2, order)
    requires KeepsTies(r1, r2)
    ensures r1 == r2
    decreases |r1|
  {
    if r1 != [] && r2 == [] {
      assert WithDue(r1, r1[0].dueDate) == WithDue(r2, r1[0].dueDate) == [];
      WithDueMembers(r1, r1[0].dueDate, r1[0]);
    } else if r1 == [] && r2 != [] {
      assert WithDue(r1, r2[0].dueDate) == WithDue(r2, r2[0].dueDate);
      WithDueMembers(r2, r2[0].dueDate, r2[0]);
    } else if r1 != [] {
      var a, b := r1[|r1| - 1], r2[|r2| - 1];
      var p1, p2 := r1[..|r1| - 1], r2[..|r2| - 1];
      assert r1 == p1 + [a] && r2 == p2 + [b];
      LastElementsTied(r1, r2, order);
      var key := a.dueDate;
      WithDueSnoc(p1, a, key);
      WithDueSnoc(p2, b, key);
      assert WithDue(p1, key) + [a] == WithDue(p2, key) + [b];
      assert a == b && WithDue(p1, key) == WithDue(p2, key) by {
        var w1, w2 := WithDue(p1, key) + [a], WithDue(p2, key) + [b];
        assert w1[|w1| - 1] == a && w2[|w2| - 1] == b;
        assert w1[..|w1| - 1] == WithDue(p1, key);
        assert w2[..|w2| - 1] == WithDue(p2, key);
      }
      forall d
        ensures WithDue(p1, d) == WithDue(p2, d)
      {
        if d != key {
          WithDueSnoc(p1, a, d);
          WithDueSnoc(p2, b, d);
          assert WithDue(p1 + [a], d) == WithDue(p1, d);
          assert WithDue(p2 + [b], d) == WithDue(p2, d);
          assert WithDue(r1, d) == WithDue(r2, d);
        }
      }
      SortedArrangementUnique(p1, p2, order);
    }
  }

  /** Whatever stable sort the engine runs, its result is `SortByDue`'s. */
  lemma StableSortIsUnique(s: seq<Task>, r: seq<Task>, order: SortOrder)
    requires Sorted(r, order) && KeepsTies(r, s)
    ensures r == SortByDue(s, order)
  {
    SortByDueSorted(s, order);
    SortByDueKeepsTies(s, order);
    SortedArrangementUnique(r, SortByDue(s, order), order);
  }

  // ---------------------------------------------------------------------------
  // How the two orders relate

  lemma {:induction false} WithDueReverse(s: seq<Task>, d: Option<int>)
    ensures WithDue(Reverse(s), d) == Reverse(WithDue(s, d))
  {
    if s != [] {
      var init, last := s[..|s| - 1], s[|s| - 1];
      WithDueReverse(init, d);
      WithDueAppend([last], Reverse(init), d);
      assert WithDue([last], d) == (if last.dueDate == d then [last] else []);
    }
  }

  /** Sorting in `Desc` order is sorting the reversed list in `Asc` order and
      reversing the result: the dated groups come in the opposite order, and
      within every group of tied tasks the input order is kept in both. */
  lemma DescIsReversedAsc(s: seq<Task>)
    ensures SortByDue(s, Desc) == Reverse(SortByDue(Reverse(s), Asc))
  {
    var q := SortByDue(Reverse(s), Asc);
    var r := Reverse(q);
    SortByDueSorted(Reverse(s), Asc);
    forall i, j | 0 <= i < j < |r|
      ensures Le(r[i], r[j], Desc)
    {
      ComparatorIsConsistent(r[j], r[i], r[i], Asc);
      ComparatorIsConsistent(r[i], r[j], r[j], Asc);
    }
    SortByDueKeepsTies(Reverse(s), Asc);
    forall d
      ensures WithDue(r, d) == WithDue(s, d)
    {
      WithDueReverse(q, d);
      WithDueReverse(s, d);
      assert Reverse(Reverse(WithDue(s, d))) == WithDue(s, d);
    }
    StableSortIsUnique(s, r, Desc);
  }
}
