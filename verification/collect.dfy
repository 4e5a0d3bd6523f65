/**
 * The file collector's accumulation: every line of every selected log file, in order, is given
 * to the line parser, and each record it returns is appended to the collection. Listing the
 * directory, choosing the `.log` files, reading and re-decoding them happen before this and are
 * not modelled: the input is the text lines of each selected file, in enumeration order.
 */
module Collect {
  import opened LogLine

  /**
   * The records `parse` gives for the lines it accepts, in line order. The collector uses it
   * with the line parser, ParseLog; the lemmas below hold for any parser.
   */
  function Kept(lines: seq<string>, parse: string -> Option<LogRecord>): seq<LogRecord> {
    if lines == [] then []
    else
      var init := Kept(lines[..|lines| - 1], parse);
      var parsed := parse(lines[|lines| - 1]);
      if parsed.Some? then init + [parsed.value] else init
  }

  /** The positions of the lines `parse` accepts, in increasing order. */
  function KeptPositions(lines: seq<string>, parse: string -> Option<LogRecord>): seq<nat> {
    if lines == [] then []
    else
      var init := KeptPositions(lines[..|lines| - 1], parse);
      if parse(lines[|lines| - 1]).Some? then init + [|lines| - 1] else init
  }

  /** The records of the lines that parse, in line order. */
  function ParsedRecords(lines: seq<string>): seq<LogRecord> {
    Kept(lines, ParseLog)
  }

  /**
   * One record per accepted line, and no other: the k-th record is what the k-th accepted
   * line parses to, accepted lines are taken in increasing order, and a line is taken exactly
   * when it is accepted.
   */
  lemma {:induction false} KeepsExactlyAcceptedLines(lines: seq<string>, parse: string -> Option<LogRecord>)
    ensures var recs, pos := Kept(lines, parse), KeptPositions(lines, parse);
      && |recs| == |pos|
      && (forall k :: 0 <= k < |pos| ==> pos[k] < |lines| && parse(lines[pos[k]]) == Some(recs[k]))
      && (forall k, m :: 0 <= k < m < |pos| ==> pos[k] < pos[m])
      && (forall i :: 0 <= i < |lines| ==> (parse(lines[i]).Some? <==> i in pos))
  {
    if lines != [] {
      var n := |lines| - 1;
      var init := lines[..n];
      KeepsExactlyAcceptedLines(init, parse);
      assert forall i :: 0 <= i < n ==> init[i] == lines[i];
    }
  }

  /**
   * With the line parser: each collected record is a reading of the line it came from, and
   * every line that has a reading is collected.
   */
  lemma ParsedRecordsAreReadings(lines: seq<string>)
    ensures var recs, pos := ParsedRecords(lines), KeptPositions(lines, ParseLog);
      && |recs| == |pos|
      && (forall k :: 0 <= k < |pos| ==> pos[k] < |lines| && IsReadingOf(lines[pos[k]], recs[k]))
      && (forall i :: 0 <= i < |lines| && (exists r :: IsReadingOf(lines[i], r)) ==> i in pos)
  {
    KeepsExactlyAcceptedLines(lines, ParseLog);
    forall i | 0 <= i < |lines|
      ensures ParseLog(lines[i]).Some? <==> exists r :: IsReadingOf(lines[i], r)
    {
      ParseLogIff(lines[i]);
    }
  }

  /** The positions of the lines `parse` accepts, as a set. */
  ghost function AcceptedIndices(lines: seq<string>, parse: string -> Option<LogRecord>): set<nat> {
    set i: nat | i < |lines| && parse(lines[i]).Some?
  }

  /** One record per accepted line. */
  lemma {:induction false} KeptCount(lines: seq<string>, parse: string -> Option<LogRecord>)
    ensures |Kept(lines, parse)| == |AcceptedIndices(lines, parse)|
  {
    if lines != [] {
      var n := |lines| - 1;
      KeptCount(lines[..n], parse);
      var a := AcceptedIndices(lines[..n], parse);
      assert AcceptedIndices(lines, parse) == a + if parse(lines[n]).Some? then {n} else {};
      assert n !in a;
    }
  }

  /** Collecting two runs of lines one after the other is collecting their concatenation. */
  lemma {:induction false} KeptAppend(a: seq<string>, b: seq<string>, parse: string -> Option<LogRecord>)
    ensures Kept(a + b, parse) == Kept(a, parse) + Kept(b, parse)
    decreases |b|
  {
    if b == [] {
      assert a + b == a;
    } else {
      var init := b[..|b| - 1];
      assert (a + b)[..|a + b| - 1] == a + init;
      KeptAppend(a, init, parse);
    }
  }

  /** Collecting one more line appends its record when it has one. */
  lemma KeptSnoc(lines: seq<string>, line: string, parse: string -> Option<LogRecord>)
    ensures Kept(lines + [line], parse)
      == Kept(lines, parse) + if parse(line).Some? then [parse(line).value] else []
  {
    assert (lines + [line])[..|lines|] == lines;
  }

  /** The lines of all files, file after file. */
  function Flatten(files: seq<seq<string>>): seq<string> {
    if files == [] then [] else Flatten(files[..|files| - 1]) + files[|files| - 1]
  }

  lemma AppendNextLine(done: seq<string>, lines: seq<string>, i: nat)
    requires i < |lines|
    ensures done + lines[..i + 1] == (done + lines[..i]) + [lines[i]]
  {
    assert lines[..i + 1] == lines[..i] + [lines[i]];
  }

  lemma FlattenNextFile(files: seq<seq<string>>, f: nat)
    requires f < |files|
    ensures Flatten(files[..f + 1]) == Flatten(files[..f]) + files[f]
  {
    assert files[..f + 1][..f] == files[..f];
  }

  /**
   * The loop of `decode_and_parse_logs`: for each file, for each line, parse it and append
   * the record when there is one. The result is the records of the lines that parse, over all
   * files, in order.
   */
  method CollectRecords(files: seq<seq<string>>) returns (logs: seq<LogRecord>)
    ensures logs == ParsedRecords(Flatten(files))
  {
    logs := CollectWith(files, ParseLog);
  }

  /** The same loop, for any line parser: the proof does not look inside the parser. */
  method CollectWith(files: seq<seq<string>>, parse: string -> Option<LogRecord>) returns (logs: seq<LogRecord>)
    ensures logs == Kept(Flatten(files), parse)
  {
    logs := [];
    var f := 0;
    while f < |files|
      invariant 0 <= f <= |files|
      invariant logs == Kept(Flatten(files[..f]), parse)
    {
      var lines := files[f];
      var i := 0;
      assert Flatten(files[..f]) + lines[..i] == Flatten(files[..f]);
      while i < |lines|
        invariant 0 <= i <= |lines|
        invariant logs == Kept(Flatten(files[..f]) + lines[..i], parse)
      {
        var parsed := parse(lines[i]);
        AppendNextLine(Flatten(files[..f]), lines, i);
        KeptSnoc(Flatten(files[..f]) + lines[..i], lines[i], parse);
        if parsed.Some? {
          logs := logs + [parsed.value];
        }
        i := i + 1;
      }
      assert lines[..i] == lines;
      FlattenNextFile(files, f);
      f := f + 1;
    }
    assert files[..f] == files;
  }
}
