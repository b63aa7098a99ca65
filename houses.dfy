/** The house-data path: consecutive "key: value" lines form one house, blank lines
    separate houses, and every blank line and the end of the input hand over the
    house collected so far. */
module Houses {
  import opened Yields
  import opened Strings

  type House = map<string, string>

  /** A line that `house_records` cannot unpack: not blank and without ": ". */
  predicate Malformed(line: string) {
    line != "" && !Contains(line, Delimiter)
  }

  /** No line of lines is malformed. */
  predicate WellFormed(lines: seq<string>) {
    forall i :: 0 <= i < |lines| ==> !Malformed(lines[i])
  }

  /** The index of the first malformed line, if there is one. */
  function FirstMalformed(lines: seq<string>): (r: Option<nat>)
    ensures r.None? <==> WellFormed(lines)
    ensures r.Some? ==> r.value < |lines| && Malformed(lines[r.value]) && WellFormed(lines[..r.value])
  {
    if lines == [] then None
    else
      var init := lines[..|lines| - 1];
      var r := FirstMalformed(init);
      if r.Some? then
        assert init[..r.value] == lines[..r.value];
        r
      else if Malformed(lines[|lines| - 1]) then Some(|lines| - 1)
      else None
  }

  /** The number of blank lines. */
  function Blanks(lines: seq<string>): nat {
    multiset(lines)[""]
  }

  /** Every line of the group has a ": " to split at. */
  predicate KeyValueGroup(group: seq<string>) {
    forall k :: 0 <= k < |group| ==> Contains(group[k], Delimiter)
  }

  /** Every line of every group has a ": " to split at. */
  predicate KeyValueLines(groups: seq<seq<string>>) {
    forall j :: 0 <= j < |groups| ==> KeyValueGroup(groups[j])
  }

  /** The lines cut at blank lines: the groups of key-value lines, in order. When no
      line is malformed, every line of every group has a key and a value. */
  function Groups(lines: seq<string>): (r: seq<seq<string>>)
    ensures |r| >= 1
    ensures WellFormed(lines) ==> KeyValueLines(r)
  {
    if lines == [] then [[]]
    else
      var init := lines[..|lines| - 1];
      var last := lines[|lines| - 1];
      assert lines == init + [last];
      assert WellFormed(lines) ==> WellFormed(init);
      var g := Groups(init);
      if last == "" then g + [[]]
      else
        var r := g[..|g| - 1] + [g[|g| - 1] + [last]];
        assert forall j :: 0 <= j < |g| - 1 ==> r[j] == g[j];
        r
  }

  /** The groups except the one still open at the end. */
  function Completed(lines: seq<string>): (r: seq<seq<string>>)
    ensures WellFormed(lines) ==> KeyValueLines(r)
  {
    var g := Groups(lines);
    g[..|g| - 1]
  }

  /** The group still open at the end. */
  function Current(lines: seq<string>): (r: seq<string>)
    ensures WellFormed(lines) ==> KeyValueGroup(r)
  {
    var g := Groups(lines);
    g[|g| - 1]
  }

  /** There is one group more than there are blank lines. */
  lemma {:induction false} GroupsCount(lines: seq<string>)
    ensures |Groups(lines)| == Blanks(lines) + 1
  {
    if lines != [] {
      var init := lines[..|lines| - 1];
      assert lines == init + [lines[|lines| - 1]];
      GroupsCount(init);
    }
  }

  /** Groups written out again, separated by blank lines. */
  function Unlines(groups: seq<seq<string>>): seq<string> {
    if |groups| == 0 then []
    else if |groups| == 1 then groups[0]
    else Unlines(groups[..|groups| - 1]) + [""] + groups[|groups| - 1]
  }

  /** Writing the groups out again, separated by blank lines, gives the input back. */
  lemma {:induction false} GroupsRoundTrip(lines: seq<string>)
    ensures Unlines(Groups(lines)) == lines
  {
    if lines != [] {
      var init := lines[..|lines| - 1];
      var last := lines[|lines| - 1];
      assert lines == init + [last];
      var g := Groups(init);
      GroupsRoundTrip(init);
      if last == "" {
        assert (g + [[]])[..|g|] == g;
      } else {
        var g' := g[..|g| - 1] + [g[|g| - 1] + [last]];
        if |g| > 1 {
          assert g'[..|g'| - 1] == g[..|g| - 1];
          assert Unlines(g) == Unlines(g[..|g| - 1]) + [""] + g[|g| - 1];
        }
      }
    }
  }

  /** The key and value a line with ": " unpacks into. */
  function KeyValue(line: string): (kv: (string, string))
    requires Contains(line, Delimiter)
  {
    SplitOnce(line, Delimiter).value
  }

  /** The keys of a group's lines. */
  function KeysOf(group: seq<string>): set<string>
    requires KeyValueGroup(group)
  {
    set k | 0 <= k < |group| :: KeyValue(group[k]).0
  }

  /** The house one group of lines builds, storing each line's value under its key
      in turn. */
  function HouseOf(group: seq<string>): (r: House)
    requires KeyValueGroup(group)
    ensures |group| == 1 ==> r == map[KeyValue(group[0]).0 := KeyValue(group[0]).1]
  {
    if group == [] then map[]
    else
      var kv := KeyValue(group[|group| - 1]);
      HouseOf(group[..|group| - 1])[kv.0 := kv.1]
  }

  /** A house's keys are exactly the keys of its group's lines: none is lost and none
      comes from another group. */
  lemma {:induction false} HouseKeys(group: seq<string>)
    requires KeyValueGroup(group)
    ensures HouseOf(group).Keys == KeysOf(group)
  {
    if group != [] {
      var init := group[..|group| - 1];
      var last := group[|group| - 1];
      assert group == init + [last];
      HouseKeys(init);
      assert KeysOf(group) == KeysOf(init) + {KeyValue(last).0};
    }
  }

  /** Last write wins: a key holds the value of the last line in the group with that key. */
  lemma {:induction false} HouseLastWriteWins(group: seq<string>, i: nat)
    requires KeyValueGroup(group)
    requires i < |group|
    requires forall j :: i < j < |group| ==> KeyValue(group[j]).0 != KeyValue(group[i]).0
    ensures KeyValue(group[i]).0 in HouseOf(group)
    ensures HouseOf(group)[KeyValue(group[i]).0] == KeyValue(group[i]).1
  {
    var init := group[..|group| - 1];
    assert group == init + [group[|group| - 1]];
    if i < |group| - 1 {
      assert init[i] == group[i];
      HouseLastWriteWins(init, i);
    }
  }

  /** One house per group, in order. */
  function HousesOf(groups: seq<seq<string>>): (r: seq<House>)
    requires KeyValueLines(groups)
    ensures |r| == |groups|
  {
    if groups == [] then []
    else
      var init := groups[..|groups| - 1];
      assert KeyValueLines(init) by {
        forall j | 0 <= j < |init| ensures KeyValueGroup(init[j]) {
          assert init[j] == groups[j];
        }
      }
      HousesOf(init) + [HouseOf(groups[|groups| - 1])]
  }

  /** The j-th house is the house of the j-th group. */
  lemma {:induction false} HousesOfAt(groups: seq<seq<string>>, j: nat)
    requires KeyValueLines(groups) && j < |groups|
    ensures HousesOf(groups)[j] == HouseOf(groups[j])
  {
    if j < |groups| - 1 {
      var init := groups[..|groups| - 1];
      assert init[j] == groups[j];
      HousesOfAt(init, j);
    }
  }

  /** What `house_records(lines)` yields: the house of every group when no line is
      malformed; otherwise the houses handed over at the blank lines before the
      first malformed line, where unpacking raises ValueError. */
  function Houses(lines: seq<string>): (r: Yielded<House>)
    ensures r.failedAt.None? ==> |r.items| >= 1
    ensures r.failedAt.Some? ==> r.failedAt.value < |lines| && Malformed(lines[r.failedAt.value])
  {
    match FirstMalformed(lines)
    case None => Yielded(HousesOf(Groups(lines)), None)
    case Some(k) => Yielded(HousesOf(Completed(lines[..k])), Some(k))
  }

  /** `house_records` yields one house per blank line and one more at the end, each
      the house of its own group, unless a malformed line stops it; then it has
      yielded one house per blank line before that line. */
  lemma HousesYielded(lines: seq<string>)
    ensures Houses(lines).failedAt.None? <==> WellFormed(lines)
    ensures Houses(lines).failedAt.None? ==>
      && |Houses(lines).items| == Blanks(lines) + 1
      && forall j :: 0 <= j < |Houses(lines).items| ==> Houses(lines).items[j] == HouseOf(Groups(lines)[j])
    ensures Houses(lines).failedAt.Some? ==>
      var k := Houses(lines).failedAt.value;
      k < |lines| && Malformed(lines[k]) && WellFormed(lines[..k]) && |Houses(lines).items| == Blanks(lines[..k])
  {
    match FirstMalformed(lines)
    case None =>
      GroupsCount(lines);
      forall j | 0 <= j < |Groups(lines)| ensures HousesOf(Groups(lines))[j] == HouseOf(Groups(lines)[j]) {
        HousesOfAt(Groups(lines), j);
      }
    case Some(k) =>
      GroupsCount(lines[..k]);
  }

  /** Empty input still yields one, empty, house. */
  lemma HousesOfEmptyInput()
    ensures Houses([]) == Yielded([map[]], None)
  {
    assert Groups([]) == [[]];
  }

  /** A single non-blank line forms a single group. */
  lemma GroupsOfOneLine(line: string)
    requires line != ""
    ensures Groups([line]) == [[line]]
  {
    assert [line][..0] == [];
    var g := Groups([]);
    assert g == [[]];
    assert g[..0] == [];
    assert g[0] + [line] == [line];
  }

  /** A one-pair house followed by a blank line: the pair's house, then the empty
      house of the final flush. */
  lemma HousesOnePairThenBlank(key: string, value: string)
    requires !Contains(key, Delimiter)
    ensures Houses([key + Delimiter + value, ""]) == Yielded([map[key := value], map[]], None)
  {
    var line := key + Delimiter + value;
    var lines := [line, ""];
    SplitAtDelimiterUnique(key, value);
    assert KeyValue(line) == (key, value);
    assert WellFormed(lines);
    assert lines[..1] == [line];
    GroupsOfOneLine(line);
    assert Groups(lines) == [[line], []];
    assert [line][..0] == [];
    assert HouseOf([line]) == map[key := value];
    HousesOfAt([[line], []], 0);
    HousesOfAt([[line], []], 1);
  }

  /** The same on concrete text: "a: 1" then a blank line. */
  lemma HousesTrailingBlankExample()
    ensures Houses(["a: 1", ""]) == Yielded([map["a" := "1"], map[]], None)
  {
    FirstCharAbsent("a", Delimiter);
    assert "a: 1" == "a" + Delimiter + "1";
    HousesOnePairThenBlank("a", "1");
  }

  /** A trailing blank line adds one empty house at the end. */
  lemma HousesTrailingBlank(lines: seq<string>)
    requires WellFormed(lines)
    ensures Houses(lines + [""]) == Yielded(Houses(lines).items + [map[]], None)
  {
    var lines' := lines + [""];
    assert lines'[..|lines'| - 1] == lines;
    assert WellFormed(lines');
    assert Groups(lines') == Groups(lines) + [[]];
  }

  /** The state `house_records` keeps after reading lines: the houses handed over so
      far and the house being filled. */
  ghost predicate FoldState(lines: seq<string>, houses: seq<House>, house: House) {
    WellFormed(lines) && houses == HousesOf(Completed(lines)) && house == HouseOf(Current(lines))
  }

  /** After a blank line the open house is handed over and a new, empty one opened. */
  lemma StepBlank(lines: seq<string>, houses: seq<House>, house: House)
    requires FoldState(lines, houses, house)
    ensures FoldState(lines + [""], houses + [house], map[])
  {
    var lines' := lines + [""];
    assert lines'[..|lines'| - 1] == lines;
    assert WellFormed(lines');
    assert Groups(lines') == Groups(lines) + [[]];
    var done := Completed(lines) + [Current(lines)];
    assert Completed(lines') == done;
    assert done[..|done| - 1] == Completed(lines);
  }

  /** After a key-value line its value is stored under its key in the open house. */
  lemma StepPair(lines: seq<string>, houses: seq<House>, house: House, line: string)
    requires FoldState(lines, houses, house)
    requires line != "" && Contains(line, Delimiter)
    ensures FoldState(lines + [line], houses, house[KeyValue(line).0 := KeyValue(line).1])
  {
    var lines' := lines + [line];
    assert lines'[..|lines'| - 1] == lines;
    assert WellFormed(lines');
    assert Completed(lines') == Completed(lines);
    var cur := Current(lines) + [line];
    assert Current(lines') == cur;
    assert cur[..|cur| - 1] == Current(lines);
  }

  /** At the end of the input the open house is handed over as well. */
  lemma StepEnd(lines: seq<string>, houses: seq<House>, house: House)
    requires FoldState(lines, houses, house)
    ensures Houses(lines) == Yielded(houses + [house], None)
  {
    var g := Groups(lines);
    assert g == Completed(lines) + [Current(lines)];
    assert HousesOf(g)[..|g| - 1] == houses;
  }

  /** A malformed line makes `house_records` raise after what it handed over. */
  lemma StepMalformed(lines: seq<string>, i: nat, houses: seq<House>, house: House)
    requires i < |lines| && Malformed(lines[i]) && FoldState(lines[..i], houses, house)
    ensures Houses(lines) == Yielded(houses, Some(i))
  {
    assert !WellFormed(lines);
    var k := FirstMalformed(lines).value;
    assert forall j :: 0 <= j < i ==> lines[..i][j] == lines[j];
    assert forall j :: 0 <= j < k ==> lines[..k][j] == lines[j];
    assert k == i;
  }

  /** `house_records(lines)`: collects key-value pairs into a house, handing it over
      and starting a new one at each blank line and once more at the end. */
  method HouseRecords(lines: seq<string>) returns (out: Yielded<House>)
    ensures out == Houses(lines)
  {
    var houses: seq<House> := [];
    var house: House := map[];
    var i := 0;
    while i < |lines|
      invariant 0 <= i <= |lines|
      invariant FoldState(lines[..i], houses, house)
    {
      var line := lines[i];
      assert lines[..i + 1] == lines[..i] + [line];
      if line == "" {
        StepBlank(lines[..i], houses, house);
        houses := houses + [house];
        house := map[];
      } else {
        match SplitOnce(line, Delimiter)
        case None =>
          StepMalformed(lines, i, houses, house);
          return Yielded(houses, Some(i));
        case Some((key, value)) =>
          StepPair(lines[..i], houses, house, line);
          house := house[key := value];
      }
      i := i + 1;
    }
    assert lines[..i] == lines;
    StepEnd(lines, houses, house);
    houses := houses + [house];
    out := Yielded(houses, None);
  }
}
