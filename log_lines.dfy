/** The log-file path: keep the lines that hold a substring, then parse each kept
    line "LEVEL: message" into a record. */
module LogLines {
  import opened Yields
  import opened Strings

  /** r can be obtained from s by deleting elements. */
  ghost predicate IsSubsequence<T>(r: seq<T>, s: seq<T>)
    decreases |s|
  {
    r == [] || (s != [] && ((r[0] == s[0] && IsSubsequence(r[1..], s[1..])) || IsSubsequence(r, s[1..])))
  }

  /** `matching_lines(lines, pattern)`: the lines in which pattern occurs, in order. */
  function MatchingLines(lines: seq<string>, pattern: string): (r: seq<string>)
    ensures IsSubsequence(r, lines)
    ensures forall line :: line in r <==> line in lines && Contains(line, pattern)
  {
    if lines == [] then []
    else
      var rest := MatchingLines(lines[1..], pattern);
      assert lines == [lines[0]] + lines[1..];
      if Contains(lines[0], pattern) then [lines[0]] + rest else rest
  }

  /** The filter distributes over concatenation: it decides each line on its own. */
  lemma {:induction false} MatchingLinesAppend(a: seq<string>, b: seq<string>, pattern: string)
    ensures MatchingLines(a + b, pattern) == MatchingLines(a, pattern) + MatchingLines(b, pattern)
    decreases |a|
  {
    if a != [] {
      assert (a + b)[1..] == a[1..] + b;
      MatchingLinesAppend(a[1..], b, pattern);
    } else {
      assert a + b == b;
    }
  }

  /** A single line is kept exactly when the pattern occurs in it; so, with
      MatchingLinesAppend, the filter is determined line by line. */
  lemma MatchingLinesSingle(line: string, pattern: string)
    ensures MatchingLines([line], pattern) == if Contains(line, pattern) then [line] else []
  {
    assert [line][1..] == [];
  }

  /** When every line matches, all lines are kept. */
  lemma {:induction false} MatchingLinesAllMatch(lines: seq<string>, pattern: string)
    requires forall i :: 0 <= i < |lines| ==> Contains(lines[i], pattern)
    ensures MatchingLines(lines, pattern) == lines
  {
    if lines != [] {
      MatchingLinesAllMatch(lines[1..], pattern);
    }
  }

  /** Filtering twice keeps what filtering once keeps. */
  lemma MatchingLinesIdempotent(lines: seq<string>, pattern: string)
    ensures MatchingLines(MatchingLines(lines, pattern), pattern) == MatchingLines(lines, pattern)
  {
    var once := MatchingLines(lines, pattern);
    forall i | 0 <= i < |once| ensures Contains(once[i], pattern) {
      assert once[i] in once;
    }
    MatchingLinesAllMatch(once, pattern);
  }

  /** A parsed log line. */
  datatype LogRecord = LogRecord(level: string, message: string)

  /** rec is what splitting line at its first ": " gives: rejoining gives the line
      back and the level holds no ": ". */
  predicate ParsesTo(line: string, rec: LogRecord) {
    rec.level + Delimiter + rec.message == line && !Contains(rec.level, Delimiter)
  }

  /** `parse_log_records(lines)`: one record per line, in order, stopping with
      ValueError at the first line that holds no ": ". */
  function ParseLogRecords(lines: seq<string>): (r: Yielded<LogRecord>)
    ensures |r.items| <= |lines|
    ensures forall i :: 0 <= i < |r.items| ==> ParsesTo(lines[i], r.items[i])
    ensures r.failedAt.None? ==> |r.items| == |lines|
    ensures r.failedAt.Some? ==>
      r.failedAt.value == |r.items| < |lines| && !Contains(lines[|r.items|], Delimiter)
  {
    if lines == [] then Yielded([], None)
    else
      match SplitOnce(lines[0], Delimiter)
      case None => Yielded([], Some(0))
      case Some((level, message)) =>
        var rest := ParseLogRecords(lines[1..]);
        assert forall i :: 0 <= i < |rest.items| ==> lines[1..][i] == lines[i + 1];
        rest.Prepend(LogRecord(level, message))
  }

  /** A line that parses holds ": ". */
  lemma ParsesToContains(line: string, rec: LogRecord)
    requires ParsesTo(line, rec)
    ensures Contains(line, Delimiter)
  {
    assert line[|rec.level|..|rec.level| + 2] == Delimiter;
    assert OccursAt(line, Delimiter, |rec.level|);
    ContainsIff(line, Delimiter);
  }

  /** Parsing finishes without an error exactly when every line holds ": ". */
  lemma ParseLogRecordsSucceeds(lines: seq<string>)
    ensures ParseLogRecords(lines).failedAt.None? <==> forall i :: 0 <= i < |lines| ==> Contains(lines[i], Delimiter)
  {
    var r := ParseLogRecords(lines);
    if r.failedAt.None? {
      forall i | 0 <= i < |lines| ensures Contains(lines[i], Delimiter) {
        ParsesToContains(lines[i], r.items[i]);
      }
    }
  }

  /** Parsing recovers exactly the parts a line was joined from, even when the
      message itself holds ": ". */
  lemma ParseLogRecordsOfJoined(level: string, message: string)
    requires !Contains(level, Delimiter)
    ensures ParseLogRecords([level + Delimiter + message]) == Yielded([LogRecord(level, message)], None)
  {
    SplitAtDelimiterUnique(level, message);
    assert [level + Delimiter + message][1..] == [];
  }

  /** Each line determines its record: ParsesTo has at most one solution. */
  lemma ParsesToUnique(line: string, rec: LogRecord, rec': LogRecord)
    requires ParsesTo(line, rec) && ParsesTo(line, rec')
    ensures rec == rec'
  {
    SplitAtDelimiterUnique(rec.level, rec.message);
    SplitAtDelimiterUnique(rec'.level, rec'.message);
  }

  /** Of three lines, a first that does not match is dropped and two that match
      are kept in order. */
  lemma MatchingLinesDropFirst(a: string, b: string, c: string, pattern: string)
    requires !Contains(a, pattern) && Contains(b, pattern) && Contains(c, pattern)
    ensures MatchingLines([a, b, c], pattern) == [b, c]
  {
    assert [a, b, c] == [a] + [b] + [c];
    MatchingLinesAppend([a] + [b], [c], pattern);
    MatchingLinesAppend([a], [b], pattern);
    MatchingLinesSingle(a, pattern);
    MatchingLinesSingle(b, pattern);
    MatchingLinesSingle(c, pattern);
  }

  /** The warning filter on a small log: the INFO line is dropped and the WARNING
      lines are kept in order. */
  lemma WarningFilterExample()
    ensures MatchingLines(["INFO: ok", "WARNING: low disk", "WARNING: temp high"], "WARNING:")
      == ["WARNING: low disk", "WARNING: temp high"]
  {
    FirstCharAbsent("INFO: ok", "WARNING:");
    assert OccursAt("WARNING: low disk", "WARNING:", 0);
    ContainsIff("WARNING: low disk", "WARNING:");
    assert OccursAt("WARNING: temp high", "WARNING:", 0);
    ContainsIff("WARNING: temp high", "WARNING:");
    MatchingLinesDropFirst("INFO: ok", "WARNING: low disk", "WARNING: temp high", "WARNING:");
  }

  /** A kept warning line parses into its level and its message. */
  lemma WarningParseExample()
    ensures ParseLogRecords(["WARNING: low disk"]) == Yielded([LogRecord("WARNING", "low disk")], None)
  {
    FirstCharAbsent("WARNING", Delimiter);
    assert "WARNING: low disk" == "WARNING" + Delimiter + "low disk";
    ParseLogRecordsOfJoined("WARNING", "low disk");
  }
}
