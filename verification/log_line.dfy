/**
 * The line parser: one access-log line against the fixed pattern
 *
 *   <host> - - [<timestamp>] "<request>" <status> <bytes> "<referer>" "<user_agent>" <duration>
 *
 * The pattern has eight groups, numbered 0 to 7 here. Groups 3, 4 and 7 (status, bytes sent,
 * duration) are greedy runs of one or more digits. The other five are lazy spans of any
 * characters except a newline. After group k comes the fixed text Separator(k). The end anchor
 * admits one trailing newline.
 *
 * The matcher below goes through the groups in order. It tries the end of a lazy group at the
 * earliest position first and the end of a digit group at the end of the digit run. The lemmas
 * show that it accepts exactly the lines the pattern describes, and that among all ways of
 * splitting a line it picks the one whose groups end earliest, which is the split the
 * backtracking regular-expression engine reports.
 */
module LogLine {

  datatype Option<T> = None | Some(value: T)

  /** A parsed line: the eight captured groups, as raw text. */
  datatype LogRecord = LogRecord(
    host: string,
    timestamp: string,
    request: string,
    status: string,
    bytes_sent: string,
    referer: string,
    user_agent: string,
    duration: string)

  const GROUP_COUNT: nat := 8

  predicate IsDigit(c: char) {
    '0' <= c <= '9'
  }

  /** The language of `\d+`. */
  predicate IsDigits(s: string) {
    |s| > 0 && forall i :: 0 <= i < |s| ==> IsDigit(s[i])
  }

  /** The language of `.*`: `.` matches anything but a newline. */
  predicate NoNewline(s: string) {
    '\n' !in s
  }

  predicate IsNumericGroup(k: nat) {
    k == 3 || k == 4 || k == 7
  }

  /** The fixed text of the pattern that follows group `k`. */
  function Separator(k: nat): string
    requires k < GROUP_COUNT
  {
    if k == 0 then " - - ["
    else if k == 1 then "] \""
    else if k == 2 then "\" "
    else if k == 3 then " "
    else if k == 4 then " \""
    else if k == 5 then "\" \""
    else if k == 6 then "\" "
    else ""
  }

  predicate GroupOk(k: nat, g: string) {
    if IsNumericGroup(k) then IsDigits(g) else NoNewline(g)
  }

  /** The text made of groups `gs` (groups k to 7) and the separators after them. */
  function RenderFrom(gs: seq<string>, k: nat): string
    requires k <= GROUP_COUNT && |gs| == GROUP_COUNT - k
    decreases GROUP_COUNT - k
  {
    if k == GROUP_COUNT then "" else gs[0] + (Separator(k) + RenderFrom(gs[1..], k + 1))
  }

  /** `s` is what the pattern from group `k` on accepts, with groups `gs`. */
  predicate MatchesFrom(s: string, gs: seq<string>, k: nat)
    requires k <= GROUP_COUNT
  {
    && |gs| == GROUP_COUNT - k
    && (forall j :: 0 <= j < |gs| ==> GroupOk(k + j, gs[j]))
    && (s == RenderFrom(gs, k) || s == RenderFrom(gs, k) + "\n")
  }

  /** The length of the longest run of digits at the start of `s`. */
  function DigitRun(s: string): (n: nat)
    ensures n <= |s|
    ensures forall i :: 0 <= i < n ==> IsDigit(s[i])
    ensures n < |s| ==> !IsDigit(s[n])
  {
    if s != [] && IsDigit(s[0]) then 1 + DigitRun(s[1..]) else 0
  }

  /**
   * Matches `s` against the pattern from group `k` on. A digit group takes the whole digit run:
   * a shorter run would leave a digit where the separator or the end must be.
   */
  function MatchFrom(s: string, k: nat): (r: Option<seq<string>>)
    requires k <= GROUP_COUNT
    ensures r.Some? ==> MatchesFrom(s, r.value, k)
    decreases GROUP_COUNT - k, |s| + 2
  {
    if k == GROUP_COUNT then
      if s == "" || s == "\n" then Some([]) else None
    else if IsNumericGroup(k) then
      var n := DigitRun(s);
      if n == 0 then None
      else
        var r := AfterGroup(s, k, n);
        if r.Some? then
          DigitsPrefix(s);
          MatchOfParts(s, r.value, k);
          r
        else None
    else
      LazyFrom(s, k, 0)
  }

  /** The digit run at the start of `s`, when not empty, is in the language of `\d+`. */
  lemma DigitsPrefix(s: string)
    requires DigitRun(s) > 0
    ensures IsDigits(s[..DigitRun(s)])
  {
  }

  /** Group `k` in its language, followed by a match of the rest, is a match from group `k`. */
  lemma MatchOfParts(s: string, gs: seq<string>, k: nat)
    requires k < GROUP_COUNT && |gs| == GROUP_COUNT - k && GroupOk(k, gs[0])
    requires forall j :: 1 <= j < |gs| ==> GroupOk(k + j, gs[j])
    requires s == RenderFrom(gs, k) || s == RenderFrom(gs, k) + "\n"
    ensures MatchesFrom(s, gs, k)
  {
    assert forall j :: 0 <= j < |gs| ==> GroupOk(k + j, gs[j]);
  }

  /** Ends group `k` at position `i` of `s` and matches the separator and the rest. */
  function AfterGroup(s: string, k: nat, i: nat): (r: Option<seq<string>>)
    requires k < GROUP_COUNT && i <= |s|
    ensures r.Some? ==> |r.value| == GROUP_COUNT - k && r.value[0] == s[..i]
    ensures r.Some? ==> forall j :: 1 <= j < |r.value| ==> GroupOk(k + j, r.value[j])
    ensures r.Some? ==> s == RenderFrom(r.value, k) || s == RenderFrom(r.value, k) + "\n"
    decreases GROUP_COUNT - k, 0
  {
    var sep := Separator(k);
    if i + |sep| <= |s| && s[i..i + |sep|] == sep then
      match MatchFrom(s[i + |sep|..], k + 1)
      case Some(rest) =>
        JoinAtGroup(s, k, i, rest);
        Some([s[..i]] + rest)
      case None => None
    else
      None
  }

  lemma ThreeParts(s: string, a: nat, b: nat)
    requires a <= b <= |s|
    ensures s == s[..a] + (s[a..b] + s[b..])
  {
    assert s[a..] == s[a..b] + s[b..];
    assert s == s[..a] + s[a..];
  }

  /** Group `k` ending at `i`, its separator, and a match of the rest make a match from group `k`. */
  lemma JoinAtGroup(s: string, k: nat, i: nat, rest: seq<string>)
    requires k < GROUP_COUNT && i + |Separator(k)| <= |s| && s[i..i + |Separator(k)|] == Separator(k)
    requires MatchesFrom(s[i + |Separator(k)|..], rest, k + 1)
    ensures var gs := [s[..i]] + rest;
      && |gs| == GROUP_COUNT - k && gs[0] == s[..i]
      && (forall j :: 1 <= j < |gs| ==> GroupOk(k + j, gs[j]))
      && (s == RenderFrom(gs, k) || s == RenderFrom(gs, k) + "\n")
  {
    var sep, tail := Separator(k), s[i + |Separator(k)|..];
    var gs := [s[..i]] + rest;
    assert gs[1..] == rest;
    var rt := RenderFrom(rest, k + 1);
    assert RenderFrom(gs, k) == s[..i] + (sep + rt);
    ThreeParts(s, i, i + |sep|);
    if tail == rt + "\n" {
      assert s[..i] + (sep + (rt + "\n")) == s[..i] + (sep + rt) + "\n";
    }
    forall j | 1 <= j < |gs|
      ensures GroupOk(k + j, gs[j])
    {
      assert gs[j] == rest[j - 1] && GroupOk(k + 1 + (j - 1), rest[j - 1]);
    }
  }

  /** The lazy group `k`: tries to end it at `i`, then at `i + 1`, never past a newline. */
  function LazyFrom(s: string, k: nat, i: nat): (r: Option<seq<string>>)
    requires k < GROUP_COUNT && !IsNumericGroup(k) && i <= |s| && NoNewline(s[..i])
    ensures r.Some? ==> MatchesFrom(s, r.value, k) && i <= |r.value[0]|
    decreases GROUP_COUNT - k, |s| - i + 1
  {
    var r := AfterGroup(s, k, i);
    if r.Some? then r
    else if i < |s| && s[i] != '\n' then
      assert s[..i + 1] == s[..i] + [s[i]];
      LazyFrom(s, k, i + 1)
    else None
  }

  /** The line a record is printed as (without the optional trailing newline). */
  function Render(r: LogRecord): string {
    r.host + (" - - [" + (r.timestamp + ("] \"" + (r.request + ("\" " + (r.status + (" "
    + (r.bytes_sent + (" \"" + (r.referer + ("\" \"" + (r.user_agent + ("\" " + r.duration)))))))))))))
  }

  predicate WellFormed(r: LogRecord) {
    && NoNewline(r.host) && NoNewline(r.timestamp) && NoNewline(r.request)
    && IsDigits(r.status) && IsDigits(r.bytes_sent)
    && NoNewline(r.referer) && NoNewline(r.user_agent)
    && IsDigits(r.duration)
  }

  /** `r` is one way of reading `line` with the pattern. */
  predicate IsReadingOf(line: string, r: LogRecord) {
    WellFormed(r) && (line == Render(r) || line == Render(r) + "\n")
  }

  function Groups(r: LogRecord): (gs: seq<string>)
    ensures |gs| == GROUP_COUNT
  {
    [r.host, r.timestamp, r.request, r.status, r.bytes_sent, r.referer, r.user_agent, r.duration]
  }

  function RecordOf(gs: seq<string>): LogRecord
    requires |gs| == GROUP_COUNT
  {
    LogRecord(gs[0], gs[1], gs[2], gs[3], gs[4], gs[5], gs[6], gs[7])
  }

  lemma RenderStep(gs: seq<string>, k: nat)
    requires |gs| == GROUP_COUNT && k < GROUP_COUNT
    ensures RenderFrom(gs[k..], k) == gs[k] + (Separator(k) + RenderFrom(gs[k + 1..], k + 1))
  {
    assert gs[k..][1..] == gs[k + 1..];
  }

  lemma RenderOfGroups(r: LogRecord)
    ensures RenderFrom(Groups(r), 0) == Render(r)
  {
    var gs := Groups(r);
    assert gs[8..] == [];
    RenderStep(gs, 7);
    var t7 := RenderFrom(gs[7..], 7);
    assert t7 == r.duration;
    RenderStep(gs, 6);
    var t6 := RenderFrom(gs[6..], 6);
    assert t6 == r.user_agent + ("\" " + t7);
    RenderStep(gs, 5);
    var t5 := RenderFrom(gs[5..], 5);
    assert t5 == r.referer + ("\" \"" + t6);
    RenderStep(gs, 4);
    var t4 := RenderFrom(gs[4..], 4);
    assert t4 == r.bytes_sent + (" \"" + t5);
    RenderStep(gs, 3);
    var t3 := RenderFrom(gs[3..], 3);
    assert t3 == r.status + (" " + t4);
    RenderStep(gs, 2);
    var t2 := RenderFrom(gs[2..], 2);
    assert t2 == r.request + ("\" " + t3);
    RenderStep(gs, 1);
    var t1 := RenderFrom(gs[1..], 1);
    assert t1 == r.timestamp + ("] \"" + t2);
    RenderStep(gs, 0);
    assert gs[0..] == gs;
  }

  /** The pattern read from group 0 and a reading of a whole line are the same thing. */
  lemma ReadingIsMatch(line: string, r: LogRecord)
    ensures RecordOf(Groups(r)) == r
    ensures RenderFrom(Groups(r), 0) == Render(r)
    ensures MatchesFrom(line, Groups(r), 0) <==> IsReadingOf(line, r)
  {
    RenderOfGroups(r);
    GroupsOkIsWellFormed(r);
  }

  /** Every group of a record is in its language exactly when the record is well-formed. */
  lemma GroupsOkIsWellFormed(r: LogRecord)
    ensures (forall j :: 0 <= j < |Groups(r)| ==> GroupOk(0 + j, Groups(r)[j])) <==> WellFormed(r)
  {
    var gs := Groups(r);
    assert GroupOk(0, gs[0]) == NoNewline(r.host) && GroupOk(1, gs[1]) == NoNewline(r.timestamp);
    assert GroupOk(2, gs[2]) == NoNewline(r.request) && GroupOk(3, gs[3]) == IsDigits(r.status);
    assert GroupOk(4, gs[4]) == IsDigits(r.bytes_sent) && GroupOk(5, gs[5]) == NoNewline(r.referer);
    assert GroupOk(6, gs[6]) == NoNewline(r.user_agent) && GroupOk(7, gs[7]) == IsDigits(r.duration);
  }

  /**
   * parse_log: a record when the line matches the pattern, nothing otherwise. A record always
   * carries all eight groups, each in its group's language, and printing it gives the line back
   * (up to the one trailing newline the end anchor admits).
   */
  function ParseLog(line: string): (r: Option<LogRecord>)
    ensures r.Some? ==> IsReadingOf(line, r.value)
  {
    match MatchFrom(line, 0)
    case None => None
    case Some(gs) =>
      var rec := RecordOf(gs);
      assert Groups(rec) == gs;
      ReadingIsMatch(line, rec);
      Some(rec)
  }

  /** Group lengths of `f` are lexicographically at most those of `g`. */
  predicate EndsNoLater(f: seq<string>, g: seq<string>)
    requires |f| == |g|
  {
    f == [] || |f[0]| < |g[0]| || (|f[0]| == |g[0]| && EndsNoLater(f[1..], g[1..]))
  }

  /** Splits a match from group `k` into group `k`, its separator and the match of the rest. */
  lemma {:induction false} SplitAtGroup(s: string, gs: seq<string>, k: nat)
    requires k < GROUP_COUNT && MatchesFrom(s, gs, k)
    ensures |gs[0]| + |Separator(k)| <= |s|
    ensures s[..|gs[0]|] == gs[0]
    ensures s[|gs[0]|..|gs[0]| + |Separator(k)|] == Separator(k)
    ensures MatchesFrom(s[|gs[0]| + |Separator(k)|..], gs[1..], k + 1)
  {
    var sep := Separator(k);
    var tail := RenderFrom(gs[1..], k + 1);
    var m := |gs[0]| + |sep|;
    assert RenderFrom(gs, k) == gs[0] + sep + tail;
    if s == RenderFrom(gs, k) {
      assert s == gs[0] + sep + tail;
      assert s[m..] == tail;
    } else {
      assert s == gs[0] + sep + (tail + "\n");
      assert s[m..] == tail + "\n";
    }
    assert s[..|gs[0]|] == gs[0];
    assert s[|gs[0]|..m] == sep;
    forall j | 0 <= j < |gs[1..]|
      ensures GroupOk(k + 1 + j, gs[1..][j])
    {
      assert GroupOk(k + (j + 1), gs[j + 1]);
    }
  }

  /**
   * If a lazy group can end at `j`, the search from `i` succeeds and ends the group no later
   * than `j`; if exactly at `j`, it returns what ending there gives.
   */
  lemma {:induction false} LazyFromFindsEarliest(s: string, k: nat, i: nat, j: nat)
    requires k < GROUP_COUNT && !IsNumericGroup(k) && i <= j <= |s| && NoNewline(s[..j])
    requires AfterGroup(s, k, j).Some?
    ensures NoNewline(s[..i])
    ensures LazyFrom(s, k, i).Some?
    ensures |LazyFrom(s, k, i).value[0]| <= j
    ensures |LazyFrom(s, k, i).value[0]| == j ==> LazyFrom(s, k, i) == AfterGroup(s, k, j)
    decreases j - i
  {
    NoNewlineBefore(s, i, j);
    if AfterGroup(s, k, i).None? {
      assert i != j;
      NoNewlineBefore(s, i + 1, j);
      LazyFromFindsEarliest(s, k, i + 1, j);
    }
  }

  /** A prefix of a newline-free prefix is newline-free. */
  lemma NoNewlineBefore(s: string, i: nat, j: nat)
    requires i <= j <= |s| && NoNewline(s[..j])
    ensures NoNewline(s[..i]) && (i < j ==> s[i] != '\n')
  {
    assert s[..i] == s[..j][..i];
    if i < j {
      assert s[i] == s[..j][i];
    }
  }

  /** Ending group `k` where `gs` ends it, then matching the rest as `t`, gives `[gs[0]] + t`. */
  lemma AfterGroupAtSplit(s: string, gs: seq<string>, k: nat, t: seq<string>)
    requires k < GROUP_COUNT && MatchesFrom(s, gs, k)
    requires MatchFrom(s[|gs[0]| + |Separator(k)|..], k + 1) == Some(t)
    ensures AfterGroup(s, k, |gs[0]|) == Some([gs[0]] + t)
  {
    SplitAtGroup(s, gs, k);
  }

  /** A digit group ends where `gs` ends it: the separator or the end follows with a non-digit. */
  lemma DigitGroupEnd(s: string, gs: seq<string>, k: nat)
    requires k < GROUP_COUNT && IsNumericGroup(k) && MatchesFrom(s, gs, k)
    ensures DigitRun(s) == |gs[0]| > 0
  {
    var j := |gs[0]|;
    SplitAtGroup(s, gs, k);
    assert GroupOk(k, gs[0]);
    if j < |s| {
      if k == 7 {
        assert s[j..] == "\n";
      } else {
        assert s[j] == Separator(k)[0] == ' ';
      }
    }
    DigitRunIs(s, j);
  }

  /**
   * Completeness and the earliest-ending choice: whenever `s` splits into groups `gs` from
   * group `k` on, the matcher succeeds, and its groups end no later than those of `gs`.
   */
  lemma {:induction false} MatchFromFindsEarliest(s: string, k: nat, gs: seq<string>)
    requires k <= GROUP_COUNT && MatchesFrom(s, gs, k)
    ensures MatchFrom(s, k).Some? && EndsNoLater(MatchFrom(s, k).value, gs)
    decreases GROUP_COUNT - k
  {
    if k < GROUP_COUNT {
      var rest := s[|gs[0]| + |Separator(k)|..];
      SplitAtGroup(s, gs, k);
      MatchFromFindsEarliest(rest, k + 1, gs[1..]);
      if IsNumericGroup(k) {
        EarliestDigitStep(s, gs, k);
      } else {
        EarliestLazyStep(s, gs, k);
      }
    }
  }

  /** Group `k` as `gs` ends it, followed by a split that ends no later than the rest of `gs`. */
  lemma EarliestAtSplit(s: string, gs: seq<string>, k: nat) returns (t: seq<string>)
    requires k < GROUP_COUNT && MatchesFrom(s, gs, k)
    requires var rest := s[|gs[0]| + |Separator(k)|..];
      MatchFrom(rest, k + 1).Some? && EndsNoLater(MatchFrom(rest, k + 1).value, gs[1..])
    ensures AfterGroup(s, k, |gs[0]|) == Some([gs[0]] + t)
    ensures EndsNoLater([gs[0]] + t, gs)
  {
    t := MatchFrom(s[|gs[0]| + |Separator(k)|..], k + 1).value;
    AfterGroupAtSplit(s, gs, k, t);
    assert ([gs[0]] + t)[1..] == t;
  }

  lemma EarliestDigitStep(s: string, gs: seq<string>, k: nat)
    requires k < GROUP_COUNT && IsNumericGroup(k) && MatchesFrom(s, gs, k)
    requires var rest := s[|gs[0]| + |Separator(k)|..];
      MatchFrom(rest, k + 1).Some? && EndsNoLater(MatchFrom(rest, k + 1).value, gs[1..])
    ensures MatchFrom(s, k).Some? && EndsNoLater(MatchFrom(s, k).value, gs)
  {
    var t := EarliestAtSplit(s, gs, k);
    DigitGroupEnd(s, gs, k);
  }

  lemma EarliestLazyStep(s: string, gs: seq<string>, k: nat)
    requires k < GROUP_COUNT && !IsNumericGroup(k) && MatchesFrom(s, gs, k)
    requires var rest := s[|gs[0]| + |Separator(k)|..];
      MatchFrom(rest, k + 1).Some? && EndsNoLater(MatchFrom(rest, k + 1).value, gs[1..])
    ensures MatchFrom(s, k).Some? && EndsNoLater(MatchFrom(s, k).value, gs)
  {
    var t := EarliestAtSplit(s, gs, k);
    LazyGroupPrefix(s, gs, k);
    LazyFromFindsEarliest(s, k, 0, |gs[0]|);
  }

  lemma DigitRunIs(s: string, j: nat)
    requires j <= |s| && (forall i :: 0 <= i < j ==> IsDigit(s[i])) && (j < |s| ==> !IsDigit(s[j]))
    ensures DigitRun(s) == j
  {
  }

  /**
   * A line is a log line exactly when it has a reading; the record returned is then the
   * reading whose groups end earliest (compared group by group, from the host on).
   */
  lemma ParseLogComplete(line: string, r: LogRecord)
    requires IsReadingOf(line, r)
    ensures ParseLog(line).Some?
    ensures EndsNoLater(Groups(ParseLog(line).value), Groups(r))
  {
    ReadingIsMatch(line, r);
    MatchFromFindsEarliest(line, 0, Groups(r));
    var gs := MatchFrom(line, 0).value;
    assert Groups(RecordOf(gs)) == gs;
  }

  lemma ParseLogIff(line: string)
    ensures ParseLog(line).Some? <==> exists r :: IsReadingOf(line, r)
  {
    if exists r :: IsReadingOf(line, r) {
      var r :| IsReadingOf(line, r);
      ParseLogComplete(line, r);
    }
  }

  /**
   * Group `k + j` does not contain the first character of the separator that closes it (only
   * asked of the lazy groups): the shape of every ordinary log line.
   */
  predicate Unambiguous(gs: seq<string>, k: nat)
    requires k <= GROUP_COUNT && |gs| == GROUP_COUNT - k
  {
    forall j :: 0 <= j < |gs| && !IsNumericGroup(k + j) ==> Separator(k + j)[0] !in gs[j]
  }

  /** A lazy group that does not contain its separator's first character ends where `gs` ends it. */
  lemma LazyGroupExact(s: string, gs: seq<string>, k: nat)
    requires k < GROUP_COUNT && !IsNumericGroup(k) && MatchesFrom(s, gs, k)
    requires Separator(k)[0] !in gs[0]
    requires MatchFrom(s[|gs[0]| + |Separator(k)|..], k + 1) == Some(gs[1..])
    ensures LazyFrom(s, k, 0) == Some(gs)
  {
    var j := |gs[0]|;
    AfterGroupAtSplit(s, gs, k, gs[1..]);
    assert [gs[0]] + gs[1..] == gs;
    LazyGroupPrefix(s, gs, k);
    LazyFromFindsEarliest(s, k, 0, j);
    var f := LazyFrom(s, k, 0).value;
    SeparatorAfterGroup(s, f, k);
    SeparatorNotEarlier(s, gs, k);
    assert |f[0]| == j;
  }

  /** A lazy group is a newline-free prefix of the text it is matched in. */
  lemma LazyGroupPrefix(s: string, gs: seq<string>, k: nat)
    requires k < GROUP_COUNT && !IsNumericGroup(k) && MatchesFrom(s, gs, k)
    ensures |gs[0]| <= |s| && NoNewline(s[..|gs[0]|])
  {
    SplitAtGroup(s, gs, k);
    assert GroupOk(k, gs[0]);
  }

  /** The closing separator of a lazy group starts right after it. */
  lemma SeparatorAfterGroup(s: string, gs: seq<string>, k: nat)
    requires k < GROUP_COUNT && !IsNumericGroup(k) && MatchesFrom(s, gs, k)
    ensures |gs[0]| < |s| && s[|gs[0]|] == Separator(k)[0]
  {
    SplitAtGroup(s, gs, k);
    var i := |gs[0]|;
    assert s[i..i + |Separator(k)|][0] == s[i];
  }

  /** Before the end of group `gs[0]`, `s` holds no first character of the closing separator. */
  lemma SeparatorNotEarlier(s: string, gs: seq<string>, k: nat)
    requires k < GROUP_COUNT && !IsNumericGroup(k) && MatchesFrom(s, gs, k)
    requires Separator(k)[0] !in gs[0]
    ensures forall i :: 0 <= i < |gs[0]| ==> s[i] != Separator(k)[0]
  {
    SplitAtGroup(s, gs, k);
    assert forall i :: 0 <= i < |gs[0]| ==> s[i] == s[..|gs[0]|][i];
  }

  lemma UnambiguousRest(gs: seq<string>, k: nat)
    requires k < GROUP_COUNT && |gs| == GROUP_COUNT - k && Unambiguous(gs, k)
    ensures Unambiguous(gs[1..], k + 1)
  {
    forall m | 0 <= m < |gs[1..]| && !IsNumericGroup(k + 1 + m)
      ensures Separator(k + 1 + m)[0] !in gs[1..][m]
    {
      assert Separator(k + (m + 1))[0] !in gs[m + 1];
    }
  }

  /** When no lazy group contains its closing separator's first character, the match is exact. */
  lemma {:induction false} MatchFromExact(s: string, k: nat, gs: seq<string>)
    requires k <= GROUP_COUNT && MatchesFrom(s, gs, k) && Unambiguous(gs, k)
    ensures MatchFrom(s, k) == Some(gs)
    decreases GROUP_COUNT - k
  {
    if k < GROUP_COUNT {
      var rest := s[|gs[0]| + |Separator(k)|..];
      SplitAtGroup(s, gs, k);
      UnambiguousRest(gs, k);
      MatchFromExact(rest, k + 1, gs[1..]);
      if IsNumericGroup(k) {
        DigitGroupExact(s, gs, k);
      } else {
        UnambiguousHead(gs, k);
        LazyGroupExact(s, gs, k);
      }
    }
  }

  /** A digit group ends where `gs` ends it. */
  lemma DigitGroupExact(s: string, gs: seq<string>, k: nat)
    requires k < GROUP_COUNT && IsNumericGroup(k) && MatchesFrom(s, gs, k)
    requires MatchFrom(s[|gs[0]| + |Separator(k)|..], k + 1) == Some(gs[1..])
    ensures MatchFrom(s, k) == Some(gs)
  {
    assert [gs[0]] + gs[1..] == gs;
    AfterGroupAtSplit(s, gs, k, gs[1..]);
    DigitGroupEnd(s, gs, k);
  }

  lemma UnambiguousHead(gs: seq<string>, k: nat)
    requires k < GROUP_COUNT && !IsNumericGroup(k) && |gs| == GROUP_COUNT - k && Unambiguous(gs, k)
    ensures Separator(k)[0] !in gs[0]
  {
    assert Separator(k + 0)[0] !in gs[0];
  }

  /** The lazy fields of `r` do not contain the character that closes them. */
  predicate PlainFields(r: LogRecord) {
    && ' ' !in r.host && ']' !in r.timestamp && '"' !in r.request
    && '"' !in r.referer && '"' !in r.user_agent
  }

  /**
   * Printing and parsing are inverse on ordinary records: a well-formed record whose host has no
   * space and whose timestamp, request, referer and user agent do not contain their closing
   * bracket or quote is read back exactly, with or without a trailing newline.
   */
  lemma ParseRendered(r: LogRecord)
    requires WellFormed(r) && PlainFields(r)
    ensures ParseLog(Render(r)) == Some(r)
    ensures ParseLog(Render(r) + "\n") == Some(r)
  {
    var gs := Groups(r);
    assert Unambiguous(gs, 0) by {
      forall j | 0 <= j < 8 && !IsNumericGroup(j)
        ensures Separator(j)[0] !in gs[j]
      {
        assert j == 0 || j == 1 || j == 2 || j == 5 || j == 6;
      }
    }
    ReadingIsMatch(Render(r), r);
    MatchFromExact(Render(r), 0, gs);
    ReadingIsMatch(Render(r) + "\n", r);
    MatchFromExact(Render(r) + "\n", 0, gs);
  }
}
