/**
 * Python's list.sort / sorted, which the attack uses in three places, as a
 * stable insertion sort over a strict "comes before" relation: an element
 * is placed in front of the first element it must precede, so elements that
 * neither precedes keep their original order (Python's sort is stable,
 * also with reverse=True).
 */
module Sorting {

  /** A strict order: nothing comes before itself, and "comes before" chains. */
  ghost predicate StrictOrder<T(!new)>(before: (T, T) -> bool)
  {
    (forall a :: !before(a, a)) &&
    (forall a, b, c :: before(a, b) && before(b, c) ==> before(a, c))
  }

  /** No element is preceded by one that comes after it. */
  predicate SortedBy<T>(s: seq<T>, before: (T, T) -> bool)
  {
    forall i, j :: 0 <= i < j < |s| ==> !before(s[j], s[i])
  }

  function InsertBy<T>(x: T, s: seq<T>, before: (T, T) -> bool): (r: seq<T>)
    ensures |r| == |s| + 1
    ensures multiset(r) == multiset(s) + multiset{x}
  {
    if |s| == 0 then [x]
    else if before(x, s[0]) then [x] + s
    else
      assert s == [s[0]] + s[1..];
      [s[0]] + InsertBy(x, s[1..], before)
  }

  /** The sorted list: the elements inserted one by one in their original order. */
  function SortBy<T>(s: seq<T>, before: (T, T) -> bool): (r: seq<T>)
    ensures |r| == |s|
    ensures multiset(r) == multiset(s)
  {
    if |s| == 0 then []
    else
      assert s == s[..|s| - 1] + [s[|s| - 1]];
      InsertBy(s[|s| - 1], SortBy(s[..|s| - 1], before), before)
  }

  /** x in front of a sorted list it comes before keeps the list sorted. */
  lemma InsertFrontSorted<T(!new)>(x: T, s: seq<T>, before: (T, T) -> bool)
    requires StrictOrder(before) && SortedBy(s, before) && |s| > 0 && before(x, s[0])
    ensures SortedBy([x] + s, before)
  {
    var r := [x] + s;
    forall j | 0 < j < |r| ensures !before(r[j], x) {
      assert r[j] == s[j - 1];
      assert j - 1 == 0 || !before(s[j - 1], s[0]);
    }
  }

  /** A sorted list of the other elements and x behind a head that x does not come before. */
  lemma InsertBehindSorted<T>(x: T, s: seq<T>, t: seq<T>, before: (T, T) -> bool)
    requires SortedBy(s, before) && |s| > 0 && !before(x, s[0])
    requires SortedBy(t, before) && multiset(t) == multiset(s[1..]) + multiset{x}
    ensures SortedBy([s[0]] + t, before)
  {
    var r := [s[0]] + t;
    forall j | 0 < j < |r| ensures !before(r[j], s[0]) {
      assert r[j] == t[j - 1];
      assert t[j - 1] in multiset(t);
      assert t[j - 1] in multiset(s[1..]) + multiset{x};
      if t[j - 1] != x {
        assert t[j - 1] in s[1..];
      }
    }
  }

  lemma {:induction false} InsertBySorted<T(!new)>(x: T, s: seq<T>, before: (T, T) -> bool)
    requires StrictOrder(before) && SortedBy(s, before)
    ensures SortedBy(InsertBy(x, s, before), before)
  {
    if |s| == 0 {
    } else if before(x, s[0]) {
      InsertFrontSorted(x, s, before);
    } else {
      InsertBySorted(x, s[1..], before);
      InsertBehindSorted(x, s, InsertBy(x, s[1..], before), before);
    }
  }

  /** The result of the sort is sorted and (by SortBy's contract) a permutation of its input. */
  lemma {:induction false} SortByIsSorted<T(!new)>(s: seq<T>, before: (T, T) -> bool)
    requires StrictOrder(before)
    ensures SortedBy(SortBy(s, before), before)
  {
    if |s| > 0 {
      SortByIsSorted(s[..|s| - 1], before);
      InsertBySorted(s[|s| - 1], SortBy(s[..|s| - 1], before), before);
    }
  }

  /** The first element of the sorted list: the last element when it comes before the old first one. */
  lemma SortByHead<T>(s: seq<T>, before: (T, T) -> bool)
    requires |s| > 1
    ensures var head := SortBy(s[..|s| - 1], before)[0];
      SortBy(s, before)[0] == if before(s[|s| - 1], head) then s[|s| - 1] else head
  {
  }

  /** A strict order whose ties behave like equal sort keys: if a comes before c, anything else comes after a or before c. */
  ghost predicate StrictWeakOrder<T(!new)>(before: (T, T) -> bool)
  {
    StrictOrder(before) &&
    (forall a, b, c :: before(a, c) ==> before(a, b) || before(b, c))
  }

  lemma WeakOrderIsStrict<T(!new)>(before: (T, T) -> bool)
    requires StrictWeakOrder(before)
    ensures StrictOrder(before)
  {
  }

  lemma SortByLast<T>(s: seq<T>, before: (T, T) -> bool)
    requires |s| > 0
    ensures SortBy(s, before) == InsertBy(s[|s| - 1], SortBy(s[..|s| - 1], before), before)
  {
  }

  /** Neither comes before the other, so the sort may not reorder them. */
  predicate Tied<T>(before: (T, T) -> bool, a: T, b: T)
  {
    !before(a, b) && !before(b, a)
  }

  /** The elements of s tied with k, in their order in s. */
  function TiedWith<T>(s: seq<T>, k: T, before: (T, T) -> bool): (r: seq<T>)
    ensures |r| <= |s|
    ensures forall i :: 0 <= i < |r| ==> Tied(before, r[i], k)
  {
    if |s| == 0 then []
    else (if Tied(before, s[0], k) then [s[0]] else []) + TiedWith(s[1..], k, before)
  }

  lemma {:induction false} TiedWithAppend<T>(s: seq<T>, x: T, k: T, before: (T, T) -> bool)
    ensures TiedWith(s + [x], k, before) == TiedWith(s, k, before) + (if Tied(before, x, k) then [x] else [])
  {
    if |s| > 0 {
      assert (s + [x])[1..] == s[1..] + [x];
      TiedWithAppend(s[1..], x, k, before);
    }
  }

  lemma {:induction false} TiedWithNone<T>(s: seq<T>, k: T, before: (T, T) -> bool)
    requires forall i :: 0 <= i < |s| ==> !Tied(before, s[i], k)
    ensures TiedWith(s, k, before) == []
  {
    if |s| > 0 {
      TiedWithNone(s[1..], k, before);
    }
  }

  lemma NotTiedBehind<T(!new)>(x: T, s: seq<T>, k: T, before: (T, T) -> bool, i: int)
    requires StrictWeakOrder(before) && SortedBy(s, before)
    requires 0 <= i < |s| && before(x, s[0]) && Tied(before, x, k)
    ensures !Tied(before, s[i], k)
  {
    var e := s[i];
    assert i == 0 || !before(e, s[0]);
    assert !before(e, s[0]);
    assert before(x, e);
  }

  /** When x goes in front of a sorted list, nothing in the list is tied with x. */
  lemma NoneTiedBehind<T(!new)>(x: T, s: seq<T>, k: T, before: (T, T) -> bool)
    requires StrictWeakOrder(before) && SortedBy(s, before)
    requires |s| > 0 && before(x, s[0]) && Tied(before, x, k)
    ensures TiedWith(s, k, before) == []
  {
    hide StrictWeakOrder;
    forall i | 0 <= i < |s| ensures !Tied(before, s[i], k) {
      NotTiedBehind(x, s, k, before, i);
    }
    TiedWithNone(s, k, before);
  }

  lemma TiedWithCons<T>(a: T, s: seq<T>, k: T, before: (T, T) -> bool)
    ensures TiedWith([a] + s, k, before) == (if Tied(before, a, k) then [a] else []) + TiedWith(s, k, before)
  {
    assert ([a] + s)[1..] == s;
  }

  lemma InsertByUnfold<T>(x: T, s: seq<T>, before: (T, T) -> bool)
    ensures |s| == 0 ==> InsertBy(x, s, before) == [x] + s
    ensures |s| > 0 && before(x, s[0]) ==> InsertBy(x, s, before) == [x] + s
    ensures |s| > 0 && !before(x, s[0]) ==> InsertBy(x, s, before) == [s[0]] + InsertBy(x, s[1..], before)
  {
  }

  /** x put in front: the elements tied with k are those of s, then x if it is tied with k. */
  lemma InsertFrontTied<T(!new)>(x: T, s: seq<T>, k: T, before: (T, T) -> bool)
    requires StrictWeakOrder(before) && SortedBy(s, before) && (|s| == 0 || before(x, s[0]))
    ensures TiedWith([x] + s, k, before) == TiedWith(s, k, before) + (if Tied(before, x, k) then [x] else [])
  {
    TiedWithCons(x, s, k, before);
    if |s| > 0 && Tied(before, x, k) {
      NoneTiedBehind(x, s, k, before);
    }
  }

  /** x inserted behind the head: the head's tie, then those of the rest, then x's. */
  lemma InsertBehindTied<T>(x: T, s: seq<T>, t: seq<T>, k: T, before: (T, T) -> bool)
    requires |s| > 0
    requires TiedWith(t, k, before) == TiedWith(s[1..], k, before) + (if Tied(before, x, k) then [x] else [])
    ensures TiedWith([s[0]] + t, k, before) == TiedWith(s, k, before) + (if Tied(before, x, k) then [x] else [])
  {
    TiedWithCons(s[0], t, k, before);
    TiedWithCons(s[0], s[1..], k, before);
    assert s == [s[0]] + s[1..];
    hide TiedWith;
    var head := if Tied(before, s[0], k) then [s[0]] else [];
    var rest, tail := TiedWith(s[1..], k, before), if Tied(before, x, k) then [x] else [];
    assert TiedWith(s, k, before) == head + rest;
    assert TiedWith([s[0]] + t, k, before) == head + (rest + tail);
    assert head + (rest + tail) == (head + rest) + tail;
  }

  /** Inserting x into a sorted list puts it behind every element tied with it. */
  lemma {:induction false} InsertByTied<T(!new)>(x: T, s: seq<T>, k: T, before: (T, T) -> bool)
    requires StrictWeakOrder(before) && SortedBy(s, before)
    ensures TiedWith(InsertBy(x, s, before), k, before) == TiedWith(s, k, before) + (if Tied(before, x, k) then [x] else [])
  {
    hide StrictWeakOrder, InsertBy, TiedWith;
    InsertByUnfold(x, s, before);
    if |s| == 0 || before(x, s[0]) {
      InsertFrontTied(x, s, k, before);
    } else {
      InsertByTied(x, s[1..], k, before);
      InsertBehindTied(x, s, InsertBy(x, s[1..], before), k, before);
    }
  }

  /**
   * Stability: for a strict weak order the elements tied with any k appear
   * in the sorted list in the order they had in the input.
   */
  lemma {:induction false} SortByStable<T(!new)>(s: seq<T>, k: T, before: (T, T) -> bool)
    requires StrictWeakOrder(before)
    ensures TiedWith(SortBy(s, before), k, before) == TiedWith(s, k, before)
  {
    hide StrictWeakOrder, StrictOrder, SortBy, InsertBy, TiedWith;
    if |s| > 0 {
      var init, last := s[..|s| - 1], s[|s| - 1];
      WeakOrderIsStrict(before);
      SortByStable(init, k, before);
      SortByIsSorted(init, before);
      InsertByTied(last, SortBy(init, before), k, before);
      TiedWithAppend(init, last, k, before);
      SortByLast(s, before);
      assert s == init + [last];
    }
  }

  /** Keeps the first n elements, or all of them when there are fewer (Python's s[:n]). */
  function Take<T>(s: seq<T>, n: nat): (r: seq<T>)
    ensures |r| == if |s| < n then |s| else n
    ensures forall i :: 0 <= i < |r| ==> r[i] == s[i]
  {
    if |s| < n then s else s[..n]
  }
}
