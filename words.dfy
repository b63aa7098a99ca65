/** Cutting a text into the pieces between single spaces, driven by `str.find`. */
module Words {
  import opened Strings

  /** `sep.join(pieces)`. */
  function Join(pieces: seq<string>, sep: string): string {
    if |pieces| == 0 then ""
    else if |pieces| == 1 then pieces[0]
    else pieces[0] + sep + Join(pieces[1..], sep)
  }

  /** The text begins with a space. */
  predicate StartsWithSpace(text: string) {
    |text| > 0 && text[0] == ' '
  }

  /** `text.split(" ")`: the pieces between single spaces (consecutive spaces give
      empty pieces). */
  function SplitAtSpaces(text: string): (r: seq<string>)
    ensures |r| >= 1
  {
    if text == [] then [""]
    else
      var rest := SplitAtSpaces(text[1..]);
      assert text == [text[0]] + text[1..];
      if text[0] == ' ' then [""] + rest
      else [[text[0]] + rest[0]] + rest[1..]
  }

  /** There is one piece more than there are spaces. */
  lemma {:induction false} SplitAtSpacesCount(text: string)
    ensures |SplitAtSpaces(text)| == multiset(text)[' '] + 1
  {
    if text != [] {
      assert text == [text[0]] + text[1..];
      SplitAtSpacesCount(text[1..]);
    }
  }

  /** No piece holds a space. */
  lemma {:induction false} SplitAtSpacesNoSpace(text: string)
    ensures forall i :: 0 <= i < |SplitAtSpaces(text)| ==> ' ' !in SplitAtSpaces(text)[i]
  {
    if text != [] {
      SplitAtSpacesNoSpace(text[1..]);
    }
  }

  /** Joining the pieces with single spaces gives the text back. */
  lemma {:induction false} JoinSplitAtSpaces(text: string)
    ensures Join(SplitAtSpaces(text), " ") == text
  {
    if text != [] {
      var rest := SplitAtSpaces(text[1..]);
      JoinSplitAtSpaces(text[1..]);
      assert text == [text[0]] + text[1..];
      if text[0] == ' ' {
        assert Join([""] + rest, " ") == "" + " " + Join(rest, " ");
      } else if |rest| > 1 {
        var pieces := [[text[0]] + rest[0]] + rest[1..];
        assert pieces[1..] == rest[1..];
        assert Join(pieces, " ") == [text[0]] + rest[0] + " " + Join(rest[1..], " ");
      }
    }
  }

  /** Cutting text whose first space is at k: the piece before it, then the rest. */
  lemma {:induction false} SplitAtFirstSpace(text: string, k: nat)
    requires k < |text| && text[k] == ' ' && ' ' !in text[..k]
    ensures SplitAtSpaces(text) == [text[..k]] + SplitAtSpaces(text[k + 1..])
  {
    if k > 0 {
      assert text[1..][..k - 1] == text[1..k];
      assert text[1..][k..] == text[k + 1..];
      assert text[0] in text[..k];
      assert forall c :: c in text[1..k] ==> c in text[..k];
      SplitAtFirstSpace(text[1..], k - 1);
      assert [text[0]] + text[1..k] == text[..k];
    }
  }

  /** A text without a space is a single piece. */
  lemma {:induction false} SplitAtNoSpace(text: string)
    requires ' ' !in text
    ensures SplitAtSpaces(text) == [text]
  {
    if text != [] {
      assert forall c :: c in text[1..] ==> c in text;
      SplitAtNoSpace(text[1..]);
      assert [text[0]] + text[1..] == text;
    }
  }

  /** Pieces without spaces are recovered from their join: splitting inverts joining. */
  lemma {:induction false} SplitAtSpacesOfJoin(pieces: seq<string>)
    requires |pieces| >= 1
    requires forall i :: 0 <= i < |pieces| ==> ' ' !in pieces[i]
    ensures SplitAtSpaces(Join(pieces, " ")) == pieces
  {
    if |pieces| == 1 {
      SplitAtNoSpace(pieces[0]);
    } else {
      var head := pieces[0];
      var tail := Join(pieces[1..], " ");
      var text := head + " " + tail;
      assert text[..|head|] == head;
      assert text[|head| + 1..] == tail;
      SplitAtFirstSpace(text, |head|);
      SplitAtSpacesOfJoin(pieces[1..]);
    }
  }

  /** The one-character string " " occurs exactly where the text holds a space. */
  lemma OccursAtSpace(text: string, j: int)
    ensures OccursAt(text, " ", j) <==> 0 <= j < |text| && text[j] == ' '
  {
    if 0 <= j < |text| {
      assert text[j..j + 1] == [text[j]];
    }
  }

  /** What `text.find(" ", start)` says about the text after start. */
  lemma FindSpace(text: string, start: nat)
    requires start <= |text|
    ensures var e := Find(text, " ", start);
      (e == -1 ==> ' ' !in text[start..]) &&
      (e != -1 ==> start <= e < |text| && text[e] == ' ' && ' ' !in text[start..e])
  {
    var e := Find(text, " ", start);
    OccursAtSpace(text, e);
    var upTo := if e == -1 then |text| else e;
    forall j | start <= j < upTo ensures text[j] != ' ' {
      OccursAtSpace(text, j);
    }
    assert forall i :: 0 <= i < upTo - start ==> text[start..upTo][i] == text[start + i];
  }

  /** A space found by `find` at or after start cuts off the next piece. */
  lemma SplitAtFound(text: string, start: nat)
    requires start <= |text| && Find(text, " ", start) >= 0
    ensures var e := Find(text, " ", start);
      start <= e < |text| &&
      SplitAtSpaces(text[start..]) == [text[start..e]] + SplitAtSpaces(text[e + 1..])
  {
    var e := Find(text, " ", start);
    FindSpace(text, start);
    var rest, k := text[start..], e - start;
    assert rest[..k] == text[start..e];
    assert rest[k + 1..] == text[e + 1..];
    assert rest[k] == ' ';
    SplitAtFirstSpace(rest, k);
  }

  /** When `find` finds no more space, the rest of the text is the last piece. */
  lemma SplitAtNotFound(text: string, start: nat)
    requires start <= |text| && Find(text, " ", start) == -1
    ensures SplitAtSpaces(text[start..]) == [text[start..]]
  {
    FindSpace(text, start);
    SplitAtNoSpace(text[start..]);
  }

  /** `text.find(" ")` returns 0 exactly when the text begins with a space. */
  lemma FindAtZero(text: string)
    ensures Find(text, " ", 0) == 0 <==> StartsWithSpace(text)
  {
    OccursAtSpace(text, 0);
  }

  /** `words_in(text)`: yields the piece before each space found by `find`, then the
      rest of the text. The loop runs only while `find` returns a positive index, so
      a text that begins with a space comes back as one piece, the whole text. */
  method WordsIn(text: string) returns (pieces: seq<string>)
    ensures pieces == if StartsWithSpace(text) then [text] else SplitAtSpaces(text)
    ensures |pieces| >= 1
    ensures Join(pieces, " ") == text
  {
    var start := 0;
    var end := Find(text, " ", 0);
    FindAtZero(text);
    pieces := [];
    while end > 0
      invariant 0 <= start <= |text|
      invariant end == Find(text, " ", start)
      invariant StartsWithSpace(text) ==> start == 0 && end == 0 && pieces == []
      invariant !StartsWithSpace(text) ==> end != 0
      invariant pieces + SplitAtSpaces(text[start..]) == SplitAtSpaces(text)
      decreases |text| - start
    {
      SplitAtFound(text, start);
      pieces := pieces + [text[start..end]];
      start := end + 1;
      end := Find(text, " ", start);
    }
    if StartsWithSpace(text) {
      assert text[start..] == text;
    } else {
      SplitAtNotFound(text, start);
    }
    pieces := pieces + [text[start..]];
    JoinSplitAtSpaces(text);
  }

  /** `words_in` with the loop running while `find` finds a space at all (`end >= 0`):
      the pieces between single spaces for every text. */
  method WordsInFixed(text: string) returns (pieces: seq<string>)
    ensures pieces == SplitAtSpaces(text)
    ensures Join(pieces, " ") == text
    ensures |pieces| == multiset(text)[' '] + 1
    ensures forall i :: 0 <= i < |pieces| ==> ' ' !in pieces[i]
  {
    var start := 0;
    var end := Find(text, " ", 0);
    pieces := [];
    while end >= 0
      invariant 0 <= start <= |text|
      invariant end == Find(text, " ", start)
      invariant pieces + SplitAtSpaces(text[start..]) == SplitAtSpaces(text)
      decreases |text| - start
    {
      SplitAtFound(text, start);
      pieces := pieces + [text[start..end]];
      start := end + 1;
      end := Find(text, " ", start);
    }
    SplitAtNotFound(text, start);
    pieces := pieces + [text[start..]];
    JoinSplitAtSpaces(text);
    SplitAtSpacesCount(text);
    SplitAtSpacesNoSpace(text);
  }

  /** A text that begins with a space: the intended split cuts before its first
      character, while `words_in` keeps it whole, space included. */
  lemma LeadingSpaceCounterexample()
    ensures SplitAtSpaces(" a") == ["", "a"]
    ensures StartsWithSpace(" a") && ' ' in " a"
  {
    SplitAtNoSpace("a");
    assert " a"[..0] == "" && " a"[1..] == "a";
    SplitAtFirstSpace(" a", 0);
  }
}
