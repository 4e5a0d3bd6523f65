/**
 * The four statistics computed over the collected records: the total, the count per request
 * method, the three most frequent hosts and the three records with the greatest duration.
 */
module Aggregates {
  import opened LogLine
  import opened Counter
  import opened Ranking
  import opened Collect

  /** The number of records. */
  function TotalRequests(logs: seq<LogRecord>): nat {
    |logs|
  }

  /** The total over the collected lines is the number of lines that parse. */
  lemma TotalOfParsedLines(lines: seq<string>)
    ensures TotalRequests(ParsedRecords(lines)) == |AcceptedIndices(lines, ParseLog)|
  {
    KeptCount(lines, ParseLog);
  }

  // ---------------------------------------------------------------------------------------
  // Requests by method

  /**
   * The first piece of the request line split on single spaces: the text up to the first
   * space, or the whole line when it has none (so an empty request gives an empty method).
   */
  function RequestMethod(request: string): (m: string)
    ensures m <= request && ' ' !in m
    ensures |m| < |request| ==> request[|m|] == ' '
  {
    if request == [] || request[0] == ' ' then []
    else [request[0]] + RequestMethod(request[1..])
  }

  /** Those three properties determine the method: it is the only such prefix. */
  lemma {:induction false} RequestMethodUnique(request: string, m: string)
    requires m <= request && ' ' !in m
    requires |m| < |request| ==> request[|m|] == ' '
    ensures m == RequestMethod(request)
  {
    if m != [] {
      assert request[0] == m[0] && m[0] != ' ';
      assert m[1..] <= request[1..] && ' ' !in m[1..];
      RequestMethodUnique(request[1..], m[1..]);
    } else if request != [] {
      assert request[0] == ' ';
    }
  }

  /** The method of each record, in record order. */
  function Methods(logs: seq<LogRecord>): seq<Key> {
    seq(|logs|, i requires 0 <= i < |logs| => RequestMethod(logs[i].request))
  }

  /** Requests counted per method, methods in first-seen order. */
  function MethodCounts(logs: seq<LogRecord>): seq<(Key, nat)> {
    Tally(Methods(logs))
  }

  /**
   * Every record's method has exactly one entry, whose count is the number of records with
   * that method; the entries are in the order their methods first occur and there is no other
   * entry; the counts add up to the total.
   */
  lemma MethodCountsSpec(logs: seq<LogRecord>)
    ensures var t, ms := MethodCounts(logs), Methods(logs);
      && DistinctKeys(t)
      && (forall j :: 0 <= j < |logs| ==> RequestMethod(logs[j].request) in KeysOf(t))
      && (forall i :: 0 <= i < |t| ==> t[i].0 in ms && t[i].1 == multiset(ms)[t[i].0])
      && (forall i, j :: 0 <= i < j < |t| ==> FirstSeen(ms, t[i].0) < FirstSeen(ms, t[j].0))
      && SumCounts(t) == TotalRequests(logs)
  {
    var ms := Methods(logs);
    assert forall j :: 0 <= j < |logs| ==> ms[j] == RequestMethod(logs[j].request);
    TallySum(ms);
  }

  // ---------------------------------------------------------------------------------------
  // Most frequent hosts

  /** The host of each record, in record order. */
  function Hosts(logs: seq<LogRecord>): seq<Key> {
    seq(|logs|, i requires 0 <= i < |logs| => logs[i].host)
  }

  /** Ranks counter entries by count. */
  predicate MoreRequests(a: (Key, nat), b: (Key, nat)) {
    a.1 > b.1
  }

  /** The three most common hosts with their counts: a stable ranking of the counter by count. */
  function Top3Ips(logs: seq<LogRecord>): seq<(Key, nat)> {
    Top(Tally(Hosts(logs)), 3, MoreRequests)
  }

  lemma MoreRequestsOrder()
    ensures StrictWeakOrder(MoreRequests)
  {
  }

  /** A part of a counter with distinct keys has distinct keys. */
  lemma SubCounterDistinct(t: seq<(Key, nat)>, r: seq<(Key, nat)>)
    requires DistinctKeys(t) && multiset(r) <= multiset(t)
    ensures DistinctKeys(r)
  {
    forall i, j | 0 <= i < j < |r|
      ensures r[i].0 != r[j].0
    {
      assert r[i] in multiset(t) && r[j] in multiset(t);
      var p :| 0 <= p < |t| && t[p] == r[i];
      var q :| 0 <= q < |t| && t[q] == r[j];
      if p == q {
        TwiceInSeq(r, i, j);
        OnceInDistinct(t, p);
      }
    }
  }

  lemma TwiceInSeq<T>(s: seq<T>, i: nat, j: nat)
    requires i < j < |s| && s[i] == s[j]
    ensures multiset(s)[s[i]] >= 2
  {
    assert s == s[..j] + [s[j]] + s[j + 1..];
    assert s[..j][i] == s[i];
  }

  lemma OnceInDistinct(t: seq<(Key, nat)>, p: nat)
    requires DistinctKeys(t) && p < |t|
    ensures multiset(t)[t[p]] == 1
  {
    assert t == t[..p] + [t[p]] + t[p + 1..];
    assert t[p] !in t[..p] && t[p] !in t[p + 1..];
  }

  /**
   * As many entries as there are distinct hosts, up to three; each is a host with the number
   * of records it has, and no host appears twice.
   */
  lemma Top3IpsCounts(logs: seq<LogRecord>)
    ensures var hosts, r := Hosts(logs), Top3Ips(logs);
      && |r| == Min(3, |set h | h in hosts|)
      && (forall i :: 0 <= i < |r| ==> r[i].0 in hosts && r[i].1 == multiset(hosts)[r[i].0])
      && DistinctKeys(r)
  {
    var hosts, r := Hosts(logs), Top3Ips(logs);
    var t := Tally(hosts);
    TallySize(hosts);
    forall i | 0 <= i < |r|
      ensures r[i].0 in hosts && r[i].1 == multiset(hosts)[r[i].0]
    {
      assert r[i] in multiset(t);
    }
    SubCounterDistinct(t, r);
  }

  /** The ties among hosts, by first occurrence. */
  function SeenEarlier(hosts: seq<Key>): ((Key, nat), (Key, nat)) -> bool {
    (a: (Key, nat), b: (Key, nat)) => FirstSeen(hosts, a.0) < FirstSeen(hosts, b.0)
  }

  /** Counts never increase along the result; equal counts are in first-seen order of their hosts. */
  lemma Top3IpsOrder(logs: seq<LogRecord>)
    ensures var hosts, r := Hosts(logs), Top3Ips(logs);
      && (forall i, j :: 0 <= i < j < |r| ==> r[i].1 >= r[j].1)
      && (forall i, j :: 0 <= i < j < |r| && r[i].1 == r[j].1 ==>
            FirstSeen(hosts, r[i].0) < FirstSeen(hosts, r[j].0))
  {
    var hosts := Hosts(logs);
    MoreRequestsOrder();
    TopDescending(Tally(hosts), 3, MoreRequests);
    assert TiesOrdered(Tally(hosts), MoreRequests, SeenEarlier(hosts));
    TopKeepsTieOrder(Tally(hosts), 3, MoreRequests, SeenEarlier(hosts));
  }

  /**
   * A host left out has no more records than the last host kept, and when it has as many, it
   * first occurs after it.
   */
  lemma Top3IpsOmitted(logs: seq<LogRecord>)
    ensures var hosts, r := Hosts(logs), Top3Ips(logs);
      forall h :: h in hosts && h !in KeysOf(r) ==>
        && |r| > 0
        && multiset(hosts)[h] <= r[|r| - 1].1
        && (multiset(hosts)[h] == r[|r| - 1].1 ==> FirstSeen(hosts, r[|r| - 1].0) < FirstSeen(hosts, h))
  {
    var hosts, r := Hosts(logs), Top3Ips(logs);
    var t := Tally(hosts);
    MoreRequestsOrder();
    assert TiesOrdered(t, MoreRequests, SeenEarlier(hosts));
    TopLeavesOutNothingAbove(t, 3, MoreRequests);
    TopLeavesOutLaterTies(t, 3, MoreRequests, SeenEarlier(hosts));
    forall h | h in hosts && h !in KeysOf(r)
      ensures && |r| > 0
        && multiset(hosts)[h] <= r[|r| - 1].1
        && (multiset(hosts)[h] == r[|r| - 1].1 ==> FirstSeen(hosts, r[|r| - 1].0) < FirstSeen(hosts, h))
    {
      var e := OmittedEntry(hosts, r, h);
      assert |r| > 0 && !MoreRequests(e, r[|r| - 1]);
      if e.1 == r[|r| - 1].1 {
        assert Tied(MoreRequests, r[|r| - 1], e);
        assert SeenEarlier(hosts)(r[|r| - 1], e);
      }
    }
  }

  /** The counter entry of a host that is not among the kept entries. */
  lemma OmittedEntry(hosts: seq<Key>, r: seq<(Key, nat)>, h: Key) returns (e: (Key, nat))
    requires multiset(r) <= multiset(Tally(hosts))
    requires h in hosts && h !in KeysOf(r)
    ensures e in multiset(Tally(hosts)) - multiset(r) && e.0 == h && e.1 == multiset(hosts)[h]
  {
    var t := Tally(hosts);
    var q :| 0 <= q < |t| && KeysOf(t)[q] == h;
    e := t[q];
    KeyOfEntry(r, e);
  }

  // ---------------------------------------------------------------------------------------
  // Longest requests

  /** Text order as the analyser's `sorted` compares strings: code point by code point, a proper prefix first. */
  predicate LexLess(a: string, b: string) {
    if a == [] then b != []
    else b != [] && if a[0] != b[0] then a[0] < b[0] else LexLess(a[1..], b[1..])
  }

  lemma {:induction false} LexLessAsymmetric(a: string, b: string)
    ensures LexLess(a, b) ==> !LexLess(b, a)
  {
    if a != [] && b != [] && a[0] == b[0] {
      LexLessAsymmetric(a[1..], b[1..]);
    }
  }

  lemma {:induction false} LexLessTransitive(a: string, b: string, c: string)
    ensures LexLess(a, b) && LexLess(b, c) ==> LexLess(a, c)
  {
    if a != [] && b != [] && c != [] && a[0] == b[0] && b[0] == c[0] {
      LexLessTransitive(a[1..], b[1..], c[1..]);
    }
  }

  lemma {:induction false} LexLessTotal(a: string, b: string)
    ensures a == b || LexLess(a, b) || LexLess(b, a)
  {
    if a != [] && b != [] && a[0] == b[0] {
      LexLessTotal(a[1..], b[1..]);
      if a[1..] == b[1..] {
        assert a == [a[0]] + a[1..] && b == [b[0]] + b[1..];
      }
    }
  }

  /** Ranks records by duration, compared as text. */
  predicate LongerDuration(a: LogRecord, b: LogRecord) {
    LexLess(b.duration, a.duration)
  }

  lemma LongerDurationOrder()
    ensures StrictWeakOrder(LongerDuration)
  {
    forall a: LogRecord, b: LogRecord | LongerDuration(a, b)
      ensures !LongerDuration(b, a)
    {
      LexLessAsymmetric(b.duration, a.duration);
    }
    forall a: LogRecord, b: LogRecord, c: LogRecord | !LongerDuration(a, b) && !LongerDuration(b, c)
      ensures !LongerDuration(a, c)
    {
      LexLessTotal(a.duration, b.duration);
      LexLessTotal(b.duration, c.duration);
      LexLessTransitive(a.duration, b.duration, c.duration);
      LexLessAsymmetric(a.duration, c.duration);
    }
  }

  /** Two records are tied exactly when their durations are the same text. */
  lemma TiedIsSameDuration(a: LogRecord, b: LogRecord)
    ensures Tied(LongerDuration, a, b) <==> a.duration == b.duration
  {
    LexLessTotal(a.duration, b.duration);
    LexLessAsymmetric(a.duration, b.duration);
  }

  /** The three records with the greatest duration: a stable ranking by duration text. */
  function Top3Longest(logs: seq<LogRecord>): seq<LogRecord> {
    Top(logs, 3, LongerDuration)
  }

  /**
   * Up to three records, drawn from the input (with multiplicity), whose durations never
   * increase along the result as text.
   */
  lemma Top3LongestShape(logs: seq<LogRecord>)
    ensures var r := Top3Longest(logs);
      && |r| == Min(3, |logs|)
      && multiset(r) <= multiset(logs)
      && (forall i, j :: 0 <= i < j < |r| ==> !LexLess(r[i].duration, r[j].duration))
  {
    LongerDurationOrder();
    TopDescending(logs, 3, LongerDuration);
  }

  /** No record left out has a duration greater, as text, than the last one kept. */
  lemma Top3LongestOmitted(logs: seq<LogRecord>)
    ensures var r := Top3Longest(logs);
      forall y :: y in multiset(logs) - multiset(r) ==> |r| > 0 && !LexLess(r[|r| - 1].duration, y.duration)
  {
    LongerDurationOrder();
    TopLeavesOutNothingAbove(logs, 3, LongerDuration);
  }

  /** The records with duration `d`, in order. */
  function WithDuration(s: seq<LogRecord>, d: string): seq<LogRecord> {
    if s == [] then []
    else (if s[0].duration == d then [s[0]] else []) + WithDuration(s[1..], d)
  }

  lemma {:induction false} TiedWithIsWithDuration(s: seq<LogRecord>, e: LogRecord)
    ensures TiedWith(s, e, LongerDuration) == WithDuration(s, e.duration)
  {
    if s != [] {
      TiedIsSameDuration(s[0], e);
      TiedWithIsWithDuration(s[1..], e);
    }
  }

  /**
   * Stability: the kept records with any given duration are the first records of the input
   * with that duration, in input order.
   */
  lemma Top3LongestStable(logs: seq<LogRecord>, d: string)
    ensures WithDuration(Top3Longest(logs), d) <= WithDuration(logs, d)
  {
    var e := LogRecord("", "", "", "", "", "", "", d);
    LongerDurationOrder();
    TopKeepsTies(logs, 3, LongerDuration, e);
    TiedWithIsWithDuration(Top3Longest(logs), e);
    TiedWithIsWithDuration(logs, e);
  }

  // ---------------------------------------------------------------------------------------
  // Durations compared as text rank "9" above "80"

  /** A record that differs from others only in its duration. */
  function WithDurationText(d: string): LogRecord {
    LogRecord("127.0.0.1", "10/Oct/2000:13:55:36 -0700", "GET / HTTP/1.1", "200", "1", "-", "-", d)
  }

  /** The number a digit string denotes (a character that is not a digit counts as 0). */
  function DecimalValue(s: string): nat {
    if s == [] then 0
    else
      var c := s[|s| - 1];
      DecimalValue(s[..|s| - 1]) * 10 + if IsDigit(c) then (c as int) - ('0' as int) else 0
  }

  /** As written: a 9-unit request is ranked before an 80-unit one. */
  lemma TextOrderMisranks()
    ensures var short, long := WithDurationText("9"), WithDurationText("80");
      && DecimalValue(short.duration) < DecimalValue(long.duration)
      && Top3Longest([long, short]) == [short, long]
  {
    var short, long := WithDurationText("9"), WithDurationText("80");
    assert LexLess(long.duration, short.duration);
    assert Insert(short, [], LongerDuration) == [short];
    assert SortDescending([long, short], LongerDuration) == [short, long];
  }

  /** Ranks records by the number their duration denotes. */
  predicate LongerByValue(a: LogRecord, b: LogRecord) {
    DecimalValue(a.duration) > DecimalValue(b.duration)
  }

  /** The three records with the greatest duration as a number, ties in input order. */
  function Top3LongestByValue(logs: seq<LogRecord>): seq<LogRecord> {
    Top(logs, 3, LongerByValue)
  }

  /**
   * Up to three records, drawn from the input, whose durations never increase as numbers; no
   * record left out has a greater duration than the last one kept; equal durations keep their
   * input order.
   */
  lemma Top3LongestByValueSpec(logs: seq<LogRecord>)
    ensures var r := Top3LongestByValue(logs);
      && |r| == Min(3, |logs|)
      && multiset(r) <= multiset(logs)
      && (forall i, j :: 0 <= i < j < |r| ==> DecimalValue(r[i].duration) >= DecimalValue(r[j].duration))
      && (forall y :: y in multiset(logs) - multiset(r) ==>
            |r| > 0 && DecimalValue(y.duration) <= DecimalValue(r[|r| - 1].duration))
      && (forall e :: TiedWith(r, e, LongerByValue) <= TiedWith(logs, e, LongerByValue))
  {
    assert StrictWeakOrder(LongerByValue);
    TopDescending(logs, 3, LongerByValue);
    TopLeavesOutNothingAbove(logs, 3, LongerByValue);
    forall e
      ensures TiedWith(Top3LongestByValue(logs), e, LongerByValue) <= TiedWith(logs, e, LongerByValue)
    {
      TopKeepsTies(logs, 3, LongerByValue, e);
    }
  }
}
