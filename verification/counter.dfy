/**
 * A frequency count in insertion order: the model of counting a sequence of keys into a
 * dictionary-backed counter. The counter is a list of (key, count) entries with distinct keys;
 * a key seen for the first time is appended with count 1, a key seen again has its entry
 * incremented where it stands.
 */
module Counter {

  /** Counted keys are text (a host, a request method). */
  type Key = string

  /** The keys of the entries, in order. */
  function KeysOf(t: seq<(Key, nat)>): (ks: seq<Key>)
    ensures |ks| == |t|
  {
    seq(|t|, i requires 0 <= i < |t| => t[i].0)
  }

  lemma KeyOfEntry(t: seq<(Key, nat)>, e: (Key, nat))
    ensures e in t ==> e.0 in KeysOf(t)
  {
    if e in t {
      var i :| 0 <= i < |t| && t[i] == e;
      assert KeysOf(t)[i] == e.0;
    }
  }

  predicate DistinctKeys(t: seq<(Key, nat)>) {
    forall i, j :: 0 <= i < j < |t| ==> t[i].0 != t[j].0
  }

  /** The index of the first occurrence of `x` in `s`, or `|s|` when there is none. */
  function FirstSeen(s: seq<Key>, x: Key): (n: nat)
    ensures n <= |s|
    ensures n < |s| <==> x in s
    ensures n < |s| ==> s[n] == x && x !in s[..n]
  {
    if s == [] then 0
    else if s[0] == x then 0
    else
      var m := FirstSeen(s[1..], x);
      assert m < |s| - 1 ==> s[..m + 1] == [s[0]] + s[1..][..m];
      1 + m
  }

  /** One more occurrence of `k`: its entry is incremented in place, or appended with count 1. */
  function Bump(t: seq<(Key, nat)>, k: Key): (r: seq<(Key, nat)>)
    ensures k !in KeysOf(t) ==> r == t + [(k, 1)]
    ensures k in KeysOf(t) ==>
      var p := FirstSeen(KeysOf(t), k);
      r == t[p := (k, t[p].1 + 1)]
  {
    if t == [] then [(k, 1)]
    else if t[0].0 == k then
      assert KeysOf(t)[0] == k;
      [(k, t[0].1 + 1)] + t[1..]
    else
      var rest := Bump(t[1..], k);
      BumpBehindHead(t, k, rest);
      [t[0]] + rest
  }

  lemma KeysOfCons(t: seq<(Key, nat)>)
    requires t != []
    ensures KeysOf(t) == [t[0].0] + KeysOf(t[1..])
  {
  }

  /** Bumping behind a first entry with another key. */
  lemma BumpBehindHead(t: seq<(Key, nat)>, k: Key, rest: seq<(Key, nat)>)
    requires t != [] && t[0].0 != k
    requires k !in KeysOf(t[1..]) ==> rest == t[1..] + [(k, 1)]
    requires k in KeysOf(t[1..]) ==>
      var q := FirstSeen(KeysOf(t[1..]), k);
      rest == t[1..][q := (k, t[1..][q].1 + 1)]
    ensures k !in KeysOf(t) ==> [t[0]] + rest == t + [(k, 1)]
    ensures k in KeysOf(t) ==>
      var p := FirstSeen(KeysOf(t), k);
      [t[0]] + rest == t[p := (k, t[p].1 + 1)]
  {
    KeyBehindHead(t, k);
    if k in KeysOf(t) {
      var q := FirstSeen(KeysOf(t[1..]), k);
      UpdateBehindHead(t, q, (k, t[q + 1].1 + 1));
    } else {
      AppendBehindHead(t, (k, 1));
    }
  }

  /** A key other than the first entry's is in the entries after it, one position later. */
  lemma KeyBehindHead(t: seq<(Key, nat)>, k: Key)
    requires t != [] && t[0].0 != k
    ensures k in KeysOf(t) <==> k in KeysOf(t[1..])
    ensures k in KeysOf(t) ==> FirstSeen(KeysOf(t), k) == FirstSeen(KeysOf(t[1..]), k) + 1
  {
    KeysOfCons(t);
    assert KeysOf(t)[1..] == KeysOf(t[1..]);
  }

  lemma UpdateBehindHead<T>(t: seq<T>, q: nat, v: T)
    requires q + 1 < |t|
    ensures [t[0]] + t[1..][q := v] == t[q + 1 := v]
  {
    var a, b := [t[0]] + t[1..][q := v], t[q + 1 := v];
    assert forall i :: 0 <= i < |t| ==> a[i] == b[i];
  }

  lemma AppendBehindHead<T>(t: seq<T>, v: T)
    requires t != []
    ensures [t[0]] + (t[1..] + [v]) == t + [v]
  {
    assert t == [t[0]] + t[1..];
  }

  /** The entries, one per distinct key: incremented in place or appended, as keys arrive. */
  function Tally(keys: seq<Key>): (t: seq<(Key, nat)>)
    ensures Counts(t, keys)
  {
    if keys == [] then []
    else
      var init := keys[..|keys| - 1];
      var k := keys[|keys| - 1];
      assert keys == init + [k];
      var t := Tally(init);
      TallyStep(init, k, t);
      Bump(t, k)
  }

  /**
   * What Tally promises: the entries have distinct keys, which are exactly the keys counted;
   * each count is the number of occurrences of its key; entries are in first-seen order.
   */
  ghost predicate Counts(t: seq<(Key, nat)>, keys: seq<Key>) {
    && DistinctKeys(t)
    && KeysFrom(t, keys)
    && Covers(t, keys)
    && CountsExact(t, keys)
    && InFirstSeenOrder(t, keys)
  }

  /** Every entry's key is one of the keys counted. */
  ghost predicate KeysFrom(t: seq<(Key, nat)>, keys: seq<Key>) {
    forall i :: 0 <= i < |t| ==> t[i].0 in keys
  }

  /** Every key counted has an entry. */
  ghost predicate Covers(t: seq<(Key, nat)>, keys: seq<Key>) {
    forall i :: 0 <= i < |keys| ==> keys[i] in KeysOf(t)
  }

  /** Every entry's count is the number of occurrences of its key. */
  ghost predicate CountsExact(t: seq<(Key, nat)>, keys: seq<Key>) {
    forall i :: 0 <= i < |t| ==> t[i].1 == multiset(keys)[t[i].0]
  }

  /** Entries are ordered by the first occurrence of their keys. */
  ghost predicate InFirstSeenOrder(t: seq<(Key, nat)>, keys: seq<Key>) {
    forall i, j :: 0 <= i < j < |t| ==> FirstSeen(keys, t[i].0) < FirstSeen(keys, t[j].0)
  }

  /** Counting one more key keeps the invariant. */
  lemma TallyStep(init: seq<Key>, k: Key, t: seq<(Key, nat)>)
    requires Counts(t, init)
    ensures Counts(Bump(t, k), init + [k])
  {
    FirstSeenKept(init, k);
    if k in KeysOf(t) {
      var p := FirstSeen(KeysOf(t), k);
      var r := t[p := (k, t[p].1 + 1)];
      KeysOfUpdate(t, p, k, t[p].1 + 1);
      SeenDistinct(t, r);
      SeenKeysFrom(t, r, init, k);
      SeenCovers(t, r, init, k);
      SeenExact(t, p, init, k);
      SeenOrder(t, r, init, k);
    } else {
      var r := t + [(k, 1)];
      NotInKeys(t, k);
      assert k !in init;
      NewDistinct(t, k);
      NewKeysFrom(t, init, k);
      NewCovers(t, init, k);
      NewExact(t, init, k);
      NewOrder(t, init, k);
    }
  }

  /** Appending a key to the sequence keeps the first occurrence of every key already there. */
  lemma FirstSeenKept(init: seq<Key>, k: Key)
    ensures forall x :: x in init ==> FirstSeen(init + [k], x) == FirstSeen(init, x)
  {
    forall x | x in init
      ensures FirstSeen(init + [k], x) == FirstSeen(init, x)
    {
      FirstSeenExtend(init, k, x);
    }
  }

  lemma NotInKeys(t: seq<(Key, nat)>, k: Key)
    requires k !in KeysOf(t)
    ensures forall i :: 0 <= i < |t| ==> t[i].0 != k
  {
    forall i | 0 <= i < |t|
      ensures t[i].0 != k
    {
      assert KeysOf(t)[i] == t[i].0;
    }
  }

  lemma KeysOfUpdate(t: seq<(Key, nat)>, p: nat, k: Key, c: nat)
    requires p < |t| && KeysOf(t)[p] == k
    ensures t[p].0 == k
    ensures KeysOf(t[p := (k, c)]) == KeysOf(t)
  {
    var a, b := KeysOf(t[p := (k, c)]), KeysOf(t);
    assert forall i :: 0 <= i < |t| ==> a[i] == b[i];
  }

  lemma KeysOfAppend(t: seq<(Key, nat)>, k: Key)
    ensures KeysOf(t + [(k, 1)]) == KeysOf(t) + [k]
  {
    var a, b := KeysOf(t + [(k, 1)]), KeysOf(t) + [k];
    assert forall i :: 0 <= i < |a| ==> a[i] == b[i];
  }

  lemma SeenDistinct(t: seq<(Key, nat)>, r: seq<(Key, nat)>)
    requires DistinctKeys(t) && KeysOf(r) == KeysOf(t)
    ensures DistinctKeys(r)
  {
    assert forall i :: 0 <= i < |t| ==> KeysOf(t)[i] == t[i].0 && KeysOf(r)[i] == r[i].0;
  }

  lemma SeenKeysFrom(t: seq<(Key, nat)>, r: seq<(Key, nat)>, init: seq<Key>, k: Key)
    requires KeysFrom(t, init) && KeysOf(r) == KeysOf(t)
    ensures KeysFrom(r, init + [k])
  {
    assert forall i :: 0 <= i < |t| ==> KeysOf(t)[i] == t[i].0 && KeysOf(r)[i] == r[i].0;
  }

  lemma SeenCovers(t: seq<(Key, nat)>, r: seq<(Key, nat)>, init: seq<Key>, k: Key)
    requires Covers(t, init) && k in KeysOf(t) && KeysOf(r) == KeysOf(t)
    ensures Covers(r, init + [k])
  {
    var keys := init + [k];
    forall i | 0 <= i < |keys|
      ensures keys[i] in KeysOf(r)
    {
      if i < |init| {
        assert keys[i] == init[i];
      }
    }
  }

  lemma SeenExact(t: seq<(Key, nat)>, p: nat, init: seq<Key>, k: Key)
    requires p < |t| && t[p].0 == k
    requires DistinctKeys(t) && CountsExact(t, init)
    ensures CountsExact(t[p := (k, t[p].1 + 1)], init + [k])
  {
    var r, keys := t[p := (k, t[p].1 + 1)], init + [k];
    forall i | 0 <= i < |r|
      ensures r[i].1 == multiset(keys)[r[i].0]
    {
      if i != p {
        assert r[i] == t[i] && t[i].0 != k;
      }
    }
  }

  lemma SeenOrder(t: seq<(Key, nat)>, r: seq<(Key, nat)>, init: seq<Key>, k: Key)
    requires KeysFrom(t, init) && InFirstSeenOrder(t, init) && KeysOf(r) == KeysOf(t)
    requires forall x :: x in init ==> FirstSeen(init + [k], x) == FirstSeen(init, x)
    ensures InFirstSeenOrder(r, init + [k])
  {
    assert forall i :: 0 <= i < |t| ==> KeysOf(t)[i] == t[i].0 && KeysOf(r)[i] == r[i].0;
  }

  lemma NewDistinct(t: seq<(Key, nat)>, k: Key)
    requires DistinctKeys(t) && forall i :: 0 <= i < |t| ==> t[i].0 != k
    ensures DistinctKeys(t + [(k, 1)])
  {
    var r := t + [(k, 1)];
    assert forall i :: 0 <= i < |t| ==> r[i] == t[i];
  }

  lemma NewKeysFrom(t: seq<(Key, nat)>, init: seq<Key>, k: Key)
    requires KeysFrom(t, init)
    ensures KeysFrom(t + [(k, 1)], init + [k])
  {
    var r := t + [(k, 1)];
    assert forall i :: 0 <= i < |t| ==> r[i] == t[i];
  }

  lemma NewCovers(t: seq<(Key, nat)>, init: seq<Key>, k: Key)
    requires Covers(t, init)
    ensures Covers(t + [(k, 1)], init + [k])
  {
    var keys := init + [k];
    KeysOfAppend(t, k);
    forall i | 0 <= i < |keys|
      ensures keys[i] in KeysOf(t + [(k, 1)])
    {
      if i < |init| {
        assert keys[i] == init[i];
      }
    }
  }

  lemma NewExact(t: seq<(Key, nat)>, init: seq<Key>, k: Key)
    requires CountsExact(t, init) && k !in init
    requires forall i :: 0 <= i < |t| ==> t[i].0 != k
    ensures CountsExact(t + [(k, 1)], init + [k])
  {
    var r := t + [(k, 1)];
    assert forall i :: 0 <= i < |t| ==> r[i] == t[i];
  }

  lemma NewOrder(t: seq<(Key, nat)>, init: seq<Key>, k: Key)
    requires KeysFrom(t, init) && InFirstSeenOrder(t, init) && k !in init
    requires forall x :: x in init ==> FirstSeen(init + [k], x) == FirstSeen(init, x)
    ensures InFirstSeenOrder(t + [(k, 1)], init + [k])
  {
    var r, keys := t + [(k, 1)], init + [k];
    FirstSeenExtend(init, k, k);
    forall i, j | 0 <= i < j < |r|
      ensures FirstSeen(keys, r[i].0) < FirstSeen(keys, r[j].0)
    {
      assert r[i] == t[i];
      if j < |t| {
        assert r[j] == t[j];
      } else {
        assert FirstSeen(init, t[i].0) < |init|;
      }
    }
  }

  lemma {:induction false} FirstSeenExtend(s: seq<Key>, y: Key, x: Key)
    ensures FirstSeen(s + [y], x) == if x in s then FirstSeen(s, x) else if x == y then |s| else |s| + 1
  {
    if s != [] {
      assert (s + [y])[1..] == s[1..] + [y];
      FirstSeenExtend(s[1..], y, x);
    }
  }

  function SumCounts(t: seq<(Key, nat)>): nat {
    if t == [] then 0 else t[0].1 + SumCounts(t[1..])
  }

  lemma {:induction false} SumBump(t: seq<(Key, nat)>, k: Key)
    ensures SumCounts(Bump(t, k)) == SumCounts(t) + 1
  {
    if t != [] && t[0].0 != k {
      assert KeysOf(t) == [t[0].0] + KeysOf(t[1..]);
      assert Bump(t, k)[1..] == Bump(t[1..], k);
      SumBump(t[1..], k);
    } else if t != [] {
      assert Bump(t, k)[1..] == t[1..];
    }
  }

  /** The counts add up to the number of keys counted. */
  lemma {:induction false} TallySum(keys: seq<Key>)
    ensures SumCounts(Tally(keys)) == |keys|
  {
    if keys != [] {
      var init := keys[..|keys| - 1];
      TallySum(init);
      SumBump(Tally(init), keys[|keys| - 1]);
    }
  }

  lemma {:induction false} DistinctSetSize(s: seq<Key>)
    requires forall i, j :: 0 <= i < j < |s| ==> s[i] != s[j]
    ensures |set x | x in s| == |s|
  {
    if s != [] {
      DistinctSetSize(s[1..]);
      assert (set x | x in s) == {s[0]} + (set x | x in s[1..]);
      assert s[0] !in s[1..];
    }
  }

  /** There is one entry per distinct key. */
  lemma TallySize(keys: seq<Key>)
    ensures |Tally(keys)| == |set k | k in keys|
  {
    var t := Tally(keys);
    var ks := KeysOf(t);
    assert forall i :: 0 <= i < |t| ==> ks[i] == t[i].0;
    DistinctSetSize(ks);
    forall k | k in ks
      ensures k in keys
    {
      var i :| 0 <= i < |ks| && ks[i] == k;
      assert t[i].0 in keys;
    }
    assert (set k | k in ks) == (set k | k in keys);
  }
}
