# Verified model of the generator exercises

This project models the core of a small set of Python generator exercises:

- **Squares producers** (`generators.py`). Three ways to produce `[0², 1², …, (m-1)²]`:
  - `fetch_squares` is an eager loop that appends to a list.
  - `gen_squares` is a generator.
  - `SquaresIterator` is a stateful cursor object.
  - `return_squares_class` returns only the first square the cursor yields.
- **Line pipeline** (`generators.py`):
  - `matching_lines` is a substring filter.
  - `parse_log_records` splits each line at its first `": "` into a level and a message.
  - `house_records` folds key/value lines into one dictionary per blank-line-separated group. It flushes once more at the end of input.
- **Word splitter** (`test.py`): `words_in`, a `find`-driven loop that cuts a string at single spaces.

## Modules

- `yields.dfy`, module `Yields`:
  - `Option`.
  - `Yielded<T>`, the record of one run of a generator: the items it yielded, and the index of the input line at which it raised `ValueError`, if it did.
- `strings.dfy`, module `Strings`: the Python string operations the code relies on.
  - `str.find` as `Find`.
  - The `in` substring test as `Contains`.
  - `str.split(sep, 1)` unpacked into two names, as `SplitOnce`. It returns `None` where Python's unpacking raises `ValueError`.
- `squares.dfy`, module `Squares`:
  - `FetchSquares` is a method with the source's loop.
  - `GenSquares` is a function returning the whole finite sequence of squares.
  - `SquaresIterator` is a class with the source's two fields. Its `Next` returns `None` where Python raises `StopIteration`.
- `log_lines.dfy`, module `LogLines`: `MatchingLines` and `ParseLogRecords` as functions, with lemmas about them.
- `houses.dfy`, module `Houses`:
  - `HouseRecords` is a method with the source's loop. It updates a current house and a list of yielded houses.
  - It is proved equal to `Houses`, a declarative description: the lines cut into groups at blank lines, and each group folded into a map where the last write wins.
- `words.dfy`, module `Words`:
  - `WordsIn` is the `find` loop exactly as written.
  - `WordsInFixed` is the loop with the guard evidently intended (see Findings).
  - Both are proved against `SplitAtSpaces`, a character-by-character definition of Python's `text.split(" ")`.

Input files are modelled as a given `seq<string>` of lines with the trailing newline already removed, which is what `lines_from_file` hands on.

## Model

| member | source | states |
|---|---|---|
| Strings.Find | test.py:8-12 | `find` returns -1 or an index at or after `start` where the pattern occurs, and the pattern occurs nowhere between `start` and that index |
| Strings.Contains | generators.py:134 | `pattern in line`: the empty pattern is in every line, and a pattern that is in a line is no longer than it. `ContainsIff` proves it holds exactly when the pattern occurs at some index |
| Strings.ContainsIff | generators.py:134 | `pattern in line` holds exactly when the pattern occurs at some index of the line |
| Strings.SplitOnce | generators.py:148 | splitting at the first `": "` fails exactly when the line has no `": "`; otherwise the parts re-join to the line and the first part holds no `": "` |
| Strings.FirstCharAbsent | generators.py:134 | a text lacking the first character of a non-empty pattern does not contain the pattern |
| Strings.SplitAtDelimiterUnique | generators.py:148 | splitting `a + ": " + b` gives back `(a, b)` whenever `a` holds no `": "`, whatever `b` holds |
| Squares.GenSquares | generators.py:99-101 | the generator yields `max(m, 0)` values and the i-th is `i*i` |
| Squares.FetchSquares | generators.py:68-72 | the list has length `max(m, 0)`, its i-th element is `i*i`, and it equals what `gen_squares(m)` yields |
| Squares.SquaresFrom | generators.py:85-90 | what a cursor at `lo` with bound `hi` still yields: `max(hi - lo, 0)` values, the i-th being `(lo+i)²` |
| Squares.SquaresFromZero | generators.py:78-80 | a cursor starting at 0 yields the same squares as `gen_squares` |
| Squares.SquaresIterator.constructor | generators.py:78-80 | sets the bound to `max_root` and the cursor to 0, so the iterator still yields exactly `gen_squares(max_root)` |
| Squares.SquaresIterator.Next | generators.py:85-90 | below the bound: returns the cursor's square, advances the cursor by one and keeps the bound. At or past it: signals exhaustion and changes no field, so every later call signals again. In both cases it returns the head of what remains, and the tail remains |
| Squares.SquaresIterator.Drain | generators.py:82-90 | pulling until exhaustion yields exactly what remained and leaves the iterator exhausted. The bound is unchanged, and the cursor ends at the bound, or stays where it was if it already stood at or past it |
| Squares.IterateSquares | generators.py:76-90 | draining a fresh `SquaresIterator(m)` yields `gen_squares(m)` |
| Squares.ReturnSquaresClass | generators.py:93-95 | returns 0 when `m > 0` and nothing otherwise, which is the head of `gen_squares(m)` when there is one |
| LogLines.MatchingLines | generators.py:132-135 | the result is a subsequence of the input, and a line is in it exactly when it is an input line containing the pattern |
| LogLines.MatchingLinesAppend | generators.py:132-135 | filtering a concatenation is the concatenation of the filtered parts, which fixes the order of the kept lines |
| LogLines.MatchingLinesSingle | generators.py:133-135 | one line is kept exactly when it contains the pattern |
| LogLines.MatchingLinesAllMatch | generators.py:132-135 | when every line contains the pattern, the filter returns its input unchanged |
| LogLines.MatchingLinesIdempotent | generators.py:132-135 | filtering twice with the same pattern gives the same as filtering once |
| LogLines.ParseLogRecords | generators.py:146-149 | one record per line in order, each with `level + ": " + message == line` and a level holding no `": "`; it stops at the first line without `": "`, and only there |
| LogLines.ParsesToContains | generators.py:148 | a line that parses into a record holds `": "` |
| LogLines.ParseLogRecordsSucceeds | generators.py:146-149 | parsing finishes without a `ValueError` exactly when every line holds `": "` |
| LogLines.ParseLogRecordsOfJoined | generators.py:148-149 | a line built as `level + ": " + message` parses back into exactly that level and message, even when the message holds `": "` |
| LogLines.ParsesToUnique | generators.py:148 | a line determines its record: there is at most one split whose level holds no `": "` |
| LogLines.MatchingLinesDropFirst | generators.py:133-135 | of three lines, a first that does not match is dropped and two that match are kept in order |
| LogLines.WarningFilterExample | generators.py:152-154 | on a small log, the `WARNING:` filter drops the INFO line and keeps the two WARNING lines in order |
| LogLines.WarningParseExample | generators.py:156 | the kept line `"WARNING: low disk"` parses into level `WARNING` and message `low disk` |
| Houses.FirstMalformed | generators.py:178-182 | finds the first non-blank line without `": "`, before which every line is well formed, or reports that there is none |
| Houses.Groups | generators.py:177-184 | cutting at blank lines always gives at least one group, and each group of well-formed input is made of key/value lines |
| Houses.Completed | generators.py:178-180 | the groups already flushed by a blank line are key/value groups when the input is well formed |
| Houses.Current | generators.py:176-184 | the group still open at the end of the input is a key/value group when the input is well formed |
| Houses.GroupsCount | generators.py:178-184 | there is one group per blank line, plus one |
| Houses.GroupsRoundTrip | generators.py:177-181 | re-joining the groups with blank lines gives the input back, so grouping loses no line and adds none |
| Houses.HouseOf | generators.py:182-183 | the house a group builds by storing each line's value under its key in turn; a one-line group gives the one-pair map. `HouseKeys` and `HouseLastWriteWins` prove its keys and values |
| Houses.HouseKeys | generators.py:182-183 | the keys of a house are exactly the keys of its group's lines, so none carries over from an earlier group |
| Houses.HouseLastWriteWins | generators.py:183 | a key maps to the value of the last line in the group with that key |
| Houses.HousesOf | generators.py:179-184 | there is one house per group |
| Houses.HousesOfAt | generators.py:179-184 | the j-th house is the fold of the j-th group |
| Houses.Houses | generators.py:175-184 | a run without error yields at least one house; a run with an error stops at a line of the input that is malformed. `HousesYielded` proves the count, the houses and the failure point |
| Houses.HousesYielded | generators.py:175-184 | on well-formed input: one house per blank line plus one, the j-th being the j-th group's house. Otherwise: a `ValueError` at the first malformed line, after one house per blank line before it. It fails exactly when the input is not well formed |
| Houses.HousesOfEmptyInput | generators.py:176-184 | empty input yields one empty house |
| Houses.GroupsOfOneLine | generators.py:177-183 | a single non-blank line forms a single group |
| Houses.HousesOnePairThenBlank | generators.py:175-184 | one pair followed by a blank line yields that pair's house, then an empty house |
| Houses.HousesTrailingBlankExample | generators.py:175-184 | `["a: 1", ""]` yields `{a: 1}` and then `{}` |
| Houses.HousesTrailingBlank | generators.py:178-180 | appending a blank line to well-formed input adds exactly one empty house at the end |
| Houses.StepBlank | generators.py:178-181 | a blank line flushes the current house and starts an empty one, which keeps the loop invariant |
| Houses.StepPair | generators.py:182-183 | a key/value line stores its value under its key in the current house, which keeps the loop invariant |
| Houses.StepEnd | generators.py:184 | at the end of input, the houses flushed so far plus the current one are the whole result |
| Houses.StepMalformed | generators.py:182 | at a non-blank line without `": "`, the run stops with `ValueError` at that line, having yielded the houses flushed so far |
| Houses.HouseRecords | generators.py:175-184 | the loop yields exactly `Houses(lines)`: the same houses, and a `ValueError` at the same line |
| Words.SplitAtSpaces | test.py:8-13 | cutting at single spaces always gives at least one piece |
| Words.SplitAtSpacesCount | test.py:8-13 | the number of pieces is the number of spaces plus one, so consecutive spaces give empty pieces |
| Words.SplitAtSpacesNoSpace | test.py:10-13 | no piece holds a space |
| Words.JoinSplitAtSpaces | test.py:6-13 | joining the pieces with a single space gives the text back |
| Words.SplitAtSpacesOfJoin | test.py:6-13 | splitting pieces joined with spaces gives those pieces back, when none of them holds a space |
| Words.SplitAtFirstSpace | test.py:10-11 | at the first space, the text before it is one piece and the rest is split on |
| Words.SplitAtNoSpace | test.py:13 | a text with no space is a single piece |
| Words.OccursAtSpace | test.py:8-12 | `" "` occurs at an index exactly when that character is a space |
| Words.FindSpace | test.py:12 | `find(" ", start)` returns -1 when no space follows `start`, and otherwise the first space at or after `start` |
| Words.SplitAtFound | test.py:10-12 | when `find` finds a space, the text up to it is the next piece and splitting resumes after it |
| Words.SplitAtNotFound | test.py:13 | when `find` finds no more space, the rest of the text is the last piece |
| Words.FindAtZero | test.py:8-9 | the first `find` returns 0 exactly when the text starts with a space |
| Words.WordsIn | test.py:6-13 | as written: a text starting with a space comes back as one whole piece; any other text is cut at every space. There is always at least one piece, and joining the pieces with `" "` gives the text back. The loop terminates |
| Words.WordsInFixed | test.py:6-13 | with the guard `end >= 0`: the pieces are exactly the text cut at every space, they re-join to the text, their number is the number of spaces plus one, and none holds a space |
| Words.LeadingSpaceCounterexample | test.py:9 | `" a"` starts with a space and holds a space, yet cutting it at spaces gives `["", "a"]` |

## Left out

- Command-line parsing and dispatch (`main`, `return_parsed_args`, generators.py:7-64): argparse glue with no logic of its own to verify.
- Timing and printing (`square_processor`, `print_squares`, `timer`, generators.py:104-123): console output and `timeit` calls.
- The print loops in `process_log_file` and `process_house_data` (generators.py:156-157 and 190-191), and in test.py:16-17: console output. `WarningFilterExample` and `WarningParseExample` show the pipeline `process_log_file` wires together.
- `lines_from_file` (generators.py:126-129): file I/O with a scoped file handle. Each file's contents are given as a sequence of lines, newline already stripped.
- Laziness: each generator is modelled by the whole finite sequence it yields. Suspension, interleaving of consumer and producer, and single-pass pull semantics are not modelled, except for the `SquaresIterator` cursor.
- House dictionaries are Dafny maps, so their insertion order is not modelled. It only affects printing.
- `SquaresIterator.__iter__` (generators.py:82-83) returns the object itself. It is folded into `Drain` and `IterateSquares`, which pull from the object directly.
- Python's `n ** 2` is written `n * n` on unbounded integers. Python integers do not overflow, so nothing is lost.
- Strings.SplitOnce: requires a non-empty separator, where Python raises `ValueError` for an empty one. The code only ever passes `": "`.
- `house_records` always flushes the last house at the end of input, even an empty one after a trailing blank line. The model keeps that behaviour and offers no option to skip the empty flush, because the code has none.
- The commented-out code (generators.py:139-143, generators.py:160-171, test.py:21-25) is not modelled.

## Findings

| source | as written | input that shows it | evidently intended | confidence | as-written member | corrected member |
|---|---|---|---|---|---|---|
| test.py:9 | `while end > 0:` also stops the loop when the first space is at index 0 | `" a"` yields `[" a"]`, a piece that holds a space | `while end >= 0:`, yielding `["", "a"]` like `" a".split(" ")` | medium, not executed | Words.WordsIn, Words.LeadingSpaceCounterexample | Words.WordsInFixed |
