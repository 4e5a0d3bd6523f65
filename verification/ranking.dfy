/**
 * Stable descending ranking and its first `n` entries: the model of sorting with
 * `reverse=True` (which keeps entries with equal keys in their original order) and of taking
 * the `n` most common entries of a counter (documented as the same as that sort followed by a
 * slice). `above(a, b)` says that `a`'s key is strictly greater than `b`'s.
 */
module Ranking {

  /** `above` is a strict weak order: asymmetric, and "not above" is transitive. */
  ghost predicate StrictWeakOrder<T(!new)>(above: (T, T) -> bool) {
    && (forall a, b {:trigger above(a, b), above(b, a)} :: above(a, b) ==> !above(b, a))
    && (forall a, b, c {:trigger above(a, b), above(b, c), above(a, c)} ::
          !above(a, b) && !above(b, c) ==> !above(a, c))
  }

  /** Neither is above the other: equal keys. */
  predicate Tied<T>(above: (T, T) -> bool, a: T, b: T) {
    !above(a, b) && !above(b, a)
  }

  /** No entry is above an earlier one. */
  predicate Descending<T>(s: seq<T>, above: (T, T) -> bool) {
    forall i, j :: 0 <= i < j < |s| ==> !above(s[j], s[i])
  }

  lemma HeadAndTail<T>(s: seq<T>)
    requires s != []
    ensures s == [s[0]] + s[1..]
  {
  }

  /** Inserts `x` before the first entry that is not above it. */
  function Insert<T>(x: T, s: seq<T>, above: (T, T) -> bool): (r: seq<T>)
    ensures multiset(r) == multiset(s) + multiset{x}
  {
    if s == [] || !above(s[0], x) then [x] + s
    else
      HeadAndTail(s);
      [s[0]] + Insert(x, s[1..], above)
  }

  /** Stable insertion sort, greatest first. */
  function SortDescending<T>(xs: seq<T>, above: (T, T) -> bool): (r: seq<T>)
    ensures multiset(r) == multiset(xs) && |r| == |xs|
  {
    if xs == [] then []
    else
      HeadAndTail(xs);
      Insert(xs[0], SortDescending(xs[1..], above), above)
  }

  function Min(a: nat, b: nat): nat {
    if a <= b then a else b
  }

  /** The first `n` entries of the stable descending order. */
  function Top<T>(xs: seq<T>, n: nat, above: (T, T) -> bool): (r: seq<T>)
    ensures |r| == Min(n, |xs|)
    ensures multiset(r) <= multiset(xs)
  {
    var s := SortDescending(xs, above);
    assert s == s[..Min(n, |xs|)] + s[Min(n, |xs|)..];
    s[..Min(n, |xs|)]
  }

  /** The entries of `s` tied with `e`, in their order in `s`. */
  function TiedWith<T>(s: seq<T>, e: T, above: (T, T) -> bool): seq<T> {
    if s == [] then []
    else (if Tied(above, s[0], e) then [s[0]] else []) + TiedWith(s[1..], e, above)
  }

  /** Whenever two tied entries occur in this order, `before` holds of them. */
  predicate TiesOrdered<T>(s: seq<T>, above: (T, T) -> bool, before: (T, T) -> bool) {
    forall i, j :: 0 <= i < j < |s| && Tied(above, s[i], s[j]) ==> before(s[i], s[j])
  }

  lemma {:induction false} InsertDescending<T(!new)>(x: T, s: seq<T>, above: (T, T) -> bool)
    requires StrictWeakOrder(above) && Descending(s, above)
    ensures Descending(Insert(x, s, above), above)
  {
    var r := Insert(x, s, above);
    if s == [] || !above(s[0], x) {
      forall i, j | 0 <= i < j < |r|
        ensures !above(r[j], r[i])
      {
        if i == 0 && j > 1 {
          assert !above(s[j - 1], s[0]);
        }
      }
    } else {
      InsertDescending(x, s[1..], above);
      var t := Insert(x, s[1..], above);
      forall m | 0 <= m < |t|
        ensures !above(t[m], s[0])
      {
        assert t[m] in multiset(t);
        if t[m] != x {
          assert t[m] in multiset(s[1..]);
          var q :| 0 <= q < |s[1..]| && s[1..][q] == t[m];
          assert s[q + 1] == t[m];
        }
      }
      assert r == [s[0]] + t;
    }
  }

  /** The sort's result is descending. */
  lemma {:induction false} SortDescendingIsDescending<T(!new)>(xs: seq<T>, above: (T, T) -> bool)
    requires StrictWeakOrder(above)
    ensures Descending(SortDescending(xs, above), above)
  {
    if xs != [] {
      SortDescendingIsDescending(xs[1..], above);
      InsertDescending(xs[0], SortDescending(xs[1..], above), above);
    }
  }

  lemma {:induction false} TiedWithAppend<T>(a: seq<T>, b: seq<T>, e: T, above: (T, T) -> bool)
    ensures TiedWith(a + b, e, above) == TiedWith(a, e, above) + TiedWith(b, e, above)
  {
    if a != [] {
      assert (a + b)[1..] == a[1..] + b;
      TiedWithAppend(a[1..], b, e, above);
    } else {
      assert a + b == b;
    }
  }

  lemma {:induction false} InsertTiedWith<T(!new)>(x: T, s: seq<T>, e: T, above: (T, T) -> bool)
    requires StrictWeakOrder(above)
    ensures TiedWith(Insert(x, s, above), e, above)
      == (if Tied(above, x, e) then [x] else []) + TiedWith(s, e, above)
  {
    if s == [] || !above(s[0], x) {
      TiedWithCons(x, s, e, above);
    } else {
      InsertTiedWith(x, s[1..], e, above);
      if Tied(above, x, e) {
        AboveTiedIsAbove(above, s[0], x, e);
      }
      InsertBehindTiedWith(x, s, e, above);
    }
  }

  /** The step of InsertTiedWith where `x` goes behind the first entry. */
  lemma InsertBehindTiedWith<T>(x: T, s: seq<T>, e: T, above: (T, T) -> bool)
    requires s != [] && above(s[0], x) && !(Tied(above, x, e) && Tied(above, s[0], e))
    requires TiedWith(Insert(x, s[1..], above), e, above)
      == (if Tied(above, x, e) then [x] else []) + TiedWith(s[1..], e, above)
    ensures TiedWith(Insert(x, s, above), e, above)
      == (if Tied(above, x, e) then [x] else []) + TiedWith(s, e, above)
  {
    var t := Insert(x, s[1..], above);
    var mx: seq<T> := if Tied(above, x, e) then [x] else [];
    var m0: seq<T> := if Tied(above, s[0], e) then [s[0]] else [];
    var rest := TiedWith(s[1..], e, above);
    assert Insert(x, s, above) == [s[0]] + t;
    TiedWithCons(s[0], t, e, above);
    assert TiedWith(Insert(x, s, above), e, above) == m0 + (mx + rest);
    HeadAndTail(s);
    TiedWithCons(s[0], s[1..], e, above);
    assert TiedWith(s, e, above) == m0 + rest;
    SwapEmpty(m0, mx, rest);
  }

  lemma SwapEmpty<T>(a: seq<T>, b: seq<T>, c: seq<T>)
    requires a == [] || b == []
    ensures a + (b + c) == b + (a + c)
  {
    if a == [] {
      assert a + (b + c) == b + c == b + (a + c);
    } else {
      assert a + (b + c) == a + c == b + (a + c);
    }
  }

  lemma TiedWithCons<T>(a: T, t: seq<T>, e: T, above: (T, T) -> bool)
    ensures TiedWith([a] + t, e, above) == (if Tied(above, a, e) then [a] else []) + TiedWith(t, e, above)
  {
    assert ([a] + t)[1..] == t;
  }

  /** What ranks above one entry ranks above everything tied with it. */
  lemma AboveTiedIsAbove<T(!new)>(above: (T, T) -> bool, a: T, x: T, e: T)
    requires StrictWeakOrder(above) && above(a, x) && Tied(above, x, e)
    ensures above(a, e)
  {
  }

  /** Stability: the entries tied with any `e` keep their original order. */
  lemma {:induction false} SortKeepsTies<T(!new)>(xs: seq<T>, e: T, above: (T, T) -> bool)
    requires StrictWeakOrder(above)
    ensures TiedWith(SortDescending(xs, above), e, above) == TiedWith(xs, e, above)
  {
    if xs != [] {
      SortKeepsTies(xs[1..], e, above);
      InsertTiedWith(xs[0], SortDescending(xs[1..], above), e, above);
    }
  }

  lemma {:induction false} InsertTiesOrdered<T(!new)>(x: T, s: seq<T>, above: (T, T) -> bool, before: (T, T) -> bool)
    requires StrictWeakOrder(above) && TiesOrdered(s, above, before)
    requires forall y :: y in s && Tied(above, x, y) ==> before(x, y)
    ensures TiesOrdered(Insert(x, s, above), above, before)
  {
    var r := Insert(x, s, above);
    if s == [] || !above(s[0], x) {
      forall i, j | 0 <= i < j < |r| && Tied(above, r[i], r[j])
        ensures before(r[i], r[j])
      {
        if i == 0 {
          assert r[j] == s[j - 1];
        } else {
          assert r[i] == s[i - 1] && r[j] == s[j - 1];
        }
      }
    } else {
      InsertTiesOrdered(x, s[1..], above, before);
      var t := Insert(x, s[1..], above);
      assert r == [s[0]] + t;
      forall j | 0 < j < |r| && Tied(above, s[0], r[j])
        ensures before(s[0], r[j])
      {
        assert r[j] == t[j - 1] && t[j - 1] in multiset(t);
        if r[j] != x {
          assert r[j] in multiset(s[1..]);
          var q :| 0 <= q < |s[1..]| && s[1..][q] == r[j];
          assert s[q + 1] == r[j];
        }
      }
    }
  }

  /** Stability, pairwise: if tied entries were related by `before`, they still are. */
  lemma {:induction false} SortKeepsTieOrder<T(!new)>(xs: seq<T>, above: (T, T) -> bool, before: (T, T) -> bool)
    requires StrictWeakOrder(above) && TiesOrdered(xs, above, before)
    ensures TiesOrdered(SortDescending(xs, above), above, before)
  {
    if xs != [] {
      var s := SortDescending(xs[1..], above);
      assert TiesOrdered(xs[1..], above, before);
      SortKeepsTieOrder(xs[1..], above, before);
      forall y | y in s && Tied(above, xs[0], y)
        ensures before(xs[0], y)
      {
        assert y in multiset(s);
        var q :| 0 <= q < |xs[1..]| && xs[1..][q] == y;
        assert xs[q + 1] == y;
      }
      InsertTiesOrdered(xs[0], s, above, before);
    }
  }

  /** The first `n` entries are in descending order. */
  lemma TopDescending<T(!new)>(xs: seq<T>, n: nat, above: (T, T) -> bool)
    requires StrictWeakOrder(above)
    ensures Descending(Top(xs, n, above), above)
  {
    SortDescendingIsDescending(xs, above);
  }

  /** The sorted sequence is the kept entries followed by the ones left out. */
  lemma TopAndRest<T>(xs: seq<T>, n: nat, above: (T, T) -> bool)
    ensures var s, m := SortDescending(xs, above), Min(n, |xs|);
      && s == Top(xs, n, above) + s[m..]
      && multiset(xs) - multiset(Top(xs, n, above)) == multiset(s[m..])
  {
    var s, m := SortDescending(xs, above), Min(n, |xs|);
    var r := Top(xs, n, above);
    PrefixAndSuffix(s, m);
    assert r + s[m..] == s;
    MultisetOfRest(xs, r, s[m..]);
  }

  lemma PrefixAndSuffix<T>(s: seq<T>, m: nat)
    requires m <= |s|
    ensures s[..m] + s[m..] == s
  {
  }

  lemma MultisetOfRest<T>(xs: seq<T>, r: seq<T>, rest: seq<T>)
    requires multiset(r + rest) == multiset(xs)
    ensures multiset(xs) - multiset(r) == multiset(rest)
  {
    assert multiset(r + rest) == multiset(r) + multiset(rest);
  }

  /** An entry of a multiset drawn from a suffix sits at some position of that suffix. */
  lemma PositionInSuffix<T>(s: seq<T>, m: nat, y: T) returns (p: nat)
    requires m <= |s| && y in multiset(s[m..])
    ensures m <= p < |s| && s[p] == y
  {
    var q :| 0 <= q < |s[m..]| && s[m..][q] == y;
    p := m + q;
  }

  /** No entry left out is above the last entry kept. */
  lemma TopLeavesOutNothingAbove<T(!new)>(xs: seq<T>, n: nat, above: (T, T) -> bool)
    requires StrictWeakOrder(above) && n > 0
    ensures var r := Top(xs, n, above);
      forall y :: y in multiset(xs) - multiset(r) ==> |r| > 0 && !above(y, r[|r| - 1])
  {
    var s := SortDescending(xs, above);
    var m := Min(n, |xs|);
    var r := Top(xs, n, above);
    TopAndRest(xs, n, above);
    SortDescendingIsDescending(xs, above);
    forall y | y in multiset(xs) - multiset(r)
      ensures |r| > 0 && !above(y, r[|r| - 1])
    {
      var p := PositionInSuffix(s, m, y);
      assert s[m - 1] == r[|r| - 1];
    }
  }

  /** A tied entry left out comes, under any `before` the input's ties respect, after the last one kept. */
  lemma TopLeavesOutLaterTies<T(!new)>(xs: seq<T>, n: nat, above: (T, T) -> bool, before: (T, T) -> bool)
    requires StrictWeakOrder(above) && TiesOrdered(xs, above, before) && n > 0
    ensures var r := Top(xs, n, above);
      forall y :: y in multiset(xs) - multiset(r) && |r| > 0 && Tied(above, r[|r| - 1], y) ==> before(r[|r| - 1], y)
  {
    var s := SortDescending(xs, above);
    var m := Min(n, |xs|);
    var r := Top(xs, n, above);
    TopAndRest(xs, n, above);
    SortKeepsTieOrder(xs, above, before);
    forall y | y in multiset(xs) - multiset(r) && |r| > 0 && Tied(above, r[|r| - 1], y)
      ensures before(r[|r| - 1], y)
    {
      var p := PositionInSuffix(s, m, y);
      assert s[m - 1] == r[|r| - 1];
    }
  }

  /** The kept entries tied with any `e` are the first entries tied with `e`, in input order. */
  lemma TopKeepsTies<T(!new)>(xs: seq<T>, n: nat, above: (T, T) -> bool, e: T)
    requires StrictWeakOrder(above)
    ensures TiedWith(Top(xs, n, above), e, above) <= TiedWith(xs, e, above)
  {
    var s := SortDescending(xs, above);
    var m := Min(n, |xs|);
    assert s == s[..m] + s[m..];
    SortKeepsTies(xs, e, above);
    TiedWithAppend(s[..m], s[m..], e, above);
  }

  /** Taking the first `n` entries keeps `before` between tied entries. */
  lemma TopKeepsTieOrder<T(!new)>(xs: seq<T>, n: nat, above: (T, T) -> bool, before: (T, T) -> bool)
    requires StrictWeakOrder(above) && TiesOrdered(xs, above, before)
    ensures TiesOrdered(Top(xs, n, above), above, before)
  {
    SortKeepsTieOrder(xs, above, before);
  }
}
