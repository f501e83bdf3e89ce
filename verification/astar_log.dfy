/** The A* logging runner: the file index taken from the level file's name, the levels skipped
    before the searched one, the check that a solution path follows the move deltas, and the CSV
    row appended to the log for each outcome of the search. */
module AStarLog {
  import opened Wrappers
  import opened Tiles
  import opened Positions
  import opened LevelLoader

  // ---------------------------------------------------------------------------
  // The file index

  predicate IsSeparator(c: char) {
    c == '/' || c == '\\'
  }

  /** `find_last_of("/\\")`: the position of the last path separator, if any. */
  function LastSeparator(s: string): (r: Option<nat>)
    ensures r.Some? ==> r.value < |s| && IsSeparator(s[r.value])
    ensures r.Some? ==> forall k :: r.value < k < |s| ==> !IsSeparator(s[k])
    ensures r.None? ==> forall k :: 0 <= k < |s| ==> !IsSeparator(s[k])
  {
    if |s| == 0 then None
    else if IsSeparator(s[|s| - 1]) then Some(|s| - 1)
    else LastSeparator(s[..|s| - 1])
  }

  /** `find('.')`: the position of the first dot, if any. */
  function FirstDot(s: string): (r: Option<nat>)
    ensures r.Some? ==> r.value < |s| && s[r.value] == '.'
    ensures r.Some? ==> forall k :: 0 <= k < r.value ==> s[k] != '.'
    ensures r.None? ==> forall k :: 0 <= k < |s| ==> s[k] != '.'
  {
    if |s| == 0 then None
    else if s[0] == '.' then Some(0)
    else match FirstDot(s[1..])
      case None => None
      case Some(k) => Some(k + 1)
  }

  /** The part of the name after the last separator (all of it when there is none); a missing
      separator's `npos + 1` wraps to 0. */
  function BaseName(name: string): (b: string)
  {
    match LastSeparator(name)
    case None => name
    case Some(i) => name[i + 1..]
  }

  /** The file index: the base name cut at its first dot. */
  function FileIdx(name: string): (r: string)
    ensures forall k :: 0 <= k < |r| ==> !IsSeparator(r[k]) && r[k] != '.'
  {
    var base := BaseName(name);
    match FirstDot(base)
    case None => base
    case Some(j) => base[..j]
  }

  /** A name made of a directory part ending in a separator (or empty), a stem with no separator or
      dot, and an extension starting with a dot (or empty) with no separator has the stem as its
      file index. */
  lemma {:induction false} FileIdxOfPath(dir: string, stem: string, ext: string)
    requires |dir| == 0 || IsSeparator(dir[|dir| - 1])
    requires forall k :: 0 <= k < |stem| ==> !IsSeparator(stem[k]) && stem[k] != '.'
    requires |ext| == 0 || ext[0] == '.'
    requires forall k :: 0 <= k < |ext| ==> !IsSeparator(ext[k])
    ensures FileIdx(dir + stem + ext) == stem
  {
    var name := dir + stem + ext;
    BaseNameAfter(dir, stem + ext);
    assert name == dir + (stem + ext);
    assert BaseName(name) == stem + ext;
    DotAfter(stem, ext);
  }

  /** The base name of `dir + rest` is `rest` when `dir` ends in a separator and `rest` holds none. */
  lemma BaseNameAfter(dir: string, rest: string)
    requires |dir| == 0 || IsSeparator(dir[|dir| - 1])
    requires forall k :: 0 <= k < |rest| ==> !IsSeparator(rest[k])
    ensures BaseName(dir + rest) == rest
  {
    var name := dir + rest;
    var found := LastSeparator(name);
    if |dir| == 0 {
      assert name == rest;
    } else {
      assert IsSeparator(name[|dir| - 1]);
      assert found.Some? && found.value >= |dir| - 1;
      assert forall k :: |dir| <= k < |name| ==> name[k] == rest[k - |dir|];
      assert found.value == |dir| - 1;
      assert name[|dir|..] == rest;
    }
  }

  /** A stem without dots followed by an extension starting with a dot is cut at the extension. */
  lemma DotAfter(stem: string, ext: string)
    requires forall k :: 0 <= k < |stem| ==> stem[k] != '.'
    requires |ext| == 0 || ext[0] == '.'
    ensures match FirstDot(stem + ext)
            case None => stem + ext == stem
            case Some(j) => (stem + ext)[..j] == stem
  {
    var s := stem + ext;
    var found := FirstDot(s);
    if |ext| == 0 {
      assert s == stem;
    } else {
      assert s[|stem|] == '.';
      assert found.Some? && found.value <= |stem|;
      assert forall k :: 0 <= k < |stem| ==> s[k] == stem[k];
      assert found.value == |stem|;
      assert s[..|stem|] == stem;
    }
  }

  /** A concrete name with a directory and an extension. */
  lemma FileIdxExample()
    ensures FileIdx("train\\000.txt") == "000"
  {
    FileIdxOfPath("train\\", "000", ".txt");
    assert "train\\" + "000" + ".txt" == "train\\000.txt";
  }

  // ---------------------------------------------------------------------------
  // Skipping to the requested level

  /** The level index after the skip loop: the requested level, or 0 when it is negative. */
  function Skipped(levelToRun: int): (n: nat)
    ensures n >= levelToRun && (n == levelToRun || n == 0)
  {
    if levelToRun > 0 then levelToRun else 0
  }

  /** The loader's state after serving the first `k` rooms of the first file in sequential mode
      with no cap (the runner passes a cap of -1). */
  function AfterServing(files: seq<Lines>, rooms: seq<Grid>, k: nat): Loader {
    if k == 0 then NewLoader(true, -1, files) else Loader(true, -1, k, rooms, k, files, 1)
  }

  /** The skip loop and the fetch of the searched level: `Skipped(levelToRun)` rooms are drawn and
      discarded, and the next one is searched. In sequential mode no draw is consulted. Returns the
      room and the level index logged with it. */
  method PickLevel(files: seq<Lines>, levelToRun: int, draw: Draw) returns (r: Result<(Grid, nat), LoadError>)
    ensures r.Ok? ==> r.value.1 == Skipped(levelToRun) && GoodRoom(r.value.0)
    ensures r.Err? ==> r.error != AllLevelsLoaded && r.error != NoLevelsLoaded
    ensures |files| > 0 && ParseRooms(files[0]).Ok? && Skipped(levelToRun) < |ParseRooms(files[0]).value| ==>
              r == Ok((ParseRooms(files[0]).value[Skipped(levelToRun)], Skipped(levelToRun)))
  {
    ghost var enough := |files| > 0 && ParseRooms(files[0]).Ok? && Skipped(levelToRun) < |ParseRooms(files[0]).value|;
    ghost var rooms := if enough then ParseRooms(files[0]).value else [];
    var ld := NewLoader(true, -1, files);
    var levelIdx: nat := 0;
    while levelIdx < levelToRun
      invariant levelIdx <= Skipped(levelToRun)
      invariant Valid(ld) && ld.nToLoad == -1
      invariant enough ==> ld == AfterServing(files, rooms, levelIdx)
    {
      var got := GetLevel(ld, draw);
      if got.Err? {
        return Err(got.error);
      }
      ld := got.value.1;
      levelIdx := levelIdx + 1;
    }
    var got := GetLevel(ld, draw);
    if got.Err? {
      return Err(got.error);
    }
    return Ok((got.value.0, levelIdx));
  }

  // ---------------------------------------------------------------------------
  // Checking the solution path

  /** A node of the solution after the start: the action that led to it and the player's position. */
  datatype PathNode = PathNode(action: int, player: Pos)

  /** Why the check stops: an action outside 0..3 (the runner's assertion) or an action with no row
      in the delta table (`kDelta.at` throws). Both carry the position in the path. */
  datatype PathFault = BadAction(index: nat) | NoDelta(index: nat)

  /** What the check gathers: the action digits, the number of steps, and whether every step moved
      the player by its action's delta. */
  datatype PathReport = PathReport(digits: string, steps: nat, correct: bool)

  /** An action the check accepts: asserted to lie in 0..3, and with a row in the delta table. */
  predicate Usable(action: int, deltas: seq<(int, int)>) {
    0 <= action < 4 && action < |deltas|
  }

  function DigitChar(d: nat): (c: char)
    requires d < 10
    ensures '0' <= c <= '9'
  {
    ('0' as int + d) as char
  }

  /** The player's position before the `i`th node: the start, or the previous node's position. */
  function PrevAt(start: Pos, path: seq<PathNode>, i: nat): Pos
    requires i <= |path|
  {
    if i == 0 then start else path[i - 1].player
  }

  /** The `i`th node moved the player by exactly its action's delta. */
  predicate Follows(start: Pos, path: seq<PathNode>, deltas: seq<(int, int)>, i: nat)
    requires i < |path| && 0 <= path[i].action < |deltas|
  {
    var d := deltas[path[i].action];
    path[i].player == PrevAt(start, path, i).Plus(d.0, d.1)
  }

  /** The loop over the solution nodes: writes each action's digit, counts the steps, and clears
      the correctness flag at any node whose position is not the previous one plus its delta. */
  method CheckPath(start: Pos, path: seq<PathNode>, deltas: seq<(int, int)>) returns (r: Result<PathReport, PathFault>)
    ensures r.Err? <==> exists i :: 0 <= i < |path| && !Usable(path[i].action, deltas)
    ensures r.Err? ==> && r.error.index < |path| && !Usable(path[r.error.index].action, deltas)
                       && (forall j :: 0 <= j < r.error.index ==> Usable(path[j].action, deltas))
                       && (r.error.BadAction? <==> !(0 <= path[r.error.index].action < 4))
    ensures r.Ok? ==> && r.value.steps == |path| && |r.value.digits| == |path|
                      && forall i :: 0 <= i < |path| ==> 0 <= path[i].action < 4 && r.value.digits[i] == DigitChar(path[i].action)
    ensures r.Ok? ==> (r.value.correct <==> forall i :: 0 <= i < |path| ==> Follows(start, path, deltas, i))
  {
    var steps := 0;
    var prev := start;
    var correct := true;
    var digits := "";
    var i := 0;
    while i < |path|
      invariant 0 <= i <= |path| && steps == i && |digits| == i
      invariant forall j :: 0 <= j < i ==> Usable(path[j].action, deltas)
      invariant forall j :: 0 <= j < i ==> digits[j] == DigitChar(path[j].action)
      invariant prev == PrevAt(start, path, i)
      invariant correct <==> forall j :: 0 <= j < i ==> Follows(start, path, deltas, j)
    {
      var action := path[i].action;
      if !(0 <= action < 4) {
        return Err(BadAction(i));
      }
      digits := digits + [DigitChar(action)];
      steps := steps + 1;
      if action >= |deltas| {
        return Err(NoDelta(i));
      }
      var curr := path[i].player;
      assert Follows(start, path, deltas, i) <==> curr == prev.Plus(deltas[action].0, deltas[action].1);
      if curr != prev.Plus(deltas[action].0, deltas[action].1) {
        correct := false;
      }
      prev := curr;
      i := i + 1;
    }
    return Ok(PathReport(digits, steps, correct));
  }

  /** The path a player walks from `start` taking `actions` through the delta table. */
  function Walk(start: Pos, actions: seq<nat>, deltas: seq<(int, int)>): (path: seq<PathNode>)
    requires forall i :: 0 <= i < |actions| ==> actions[i] < |deltas|
    ensures |path| == |actions| && forall i :: 0 <= i < |path| ==> path[i].action == actions[i]
    decreases |actions|
  {
    if |actions| == 0 then []
    else
      var last := |actions| - 1;
      var before := Walk(start, actions[..last], deltas);
      var from := if last == 0 then start else before[last - 1].player;
      var d := deltas[actions[last]];
      before + [PathNode(actions[last], from.Plus(d.0, d.1))]
  }

  /** Every node of a walked path follows its delta, so the check finds it correct. */
  lemma {:induction false} WalkFollows(start: Pos, actions: seq<nat>, deltas: seq<(int, int)>)
    requires forall i :: 0 <= i < |actions| ==> actions[i] < |deltas|
    ensures forall i :: 0 <= i < |actions| ==> Follows(start, Walk(start, actions, deltas), deltas, i)
    decreases |actions|
  {
    if |actions| > 0 {
      var last := |actions| - 1;
      var before := Walk(start, actions[..last], deltas);
      var path := Walk(start, actions, deltas);
      WalkFollows(start, actions[..last], deltas);
      assert path[..last] == before;
      forall i | 0 <= i < |path|
        ensures Follows(start, path, deltas, i)
      {
        if i < last {
          assert Follows(start, before, deltas, i);
          assert PrevAt(start, path, i) == PrevAt(start, before, i);
        }
      }
    }
  }

  // ---------------------------------------------------------------------------
  // The log rows

  /** Decimal digits of a natural number, as `operator<<` writes them. */
  function NatToString(n: nat): (s: string)
    ensures |s| > 0 && Decimal(s)
    decreases n
  {
    if n < 10 then [DigitChar(n)] else NatToString(n / 10) + [DigitChar(n % 10)]
  }

  /** The value of a string of decimal digits. */
  predicate Decimal(s: string) {
    forall i :: 0 <= i < |s| ==> '0' <= s[i] <= '9'
  }

  function ParseDecimal(s: string): nat
    requires Decimal(s)
  {
    if |s| == 0 then 0 else ParseDecimal(s[..|s| - 1]) * 10 + (s[|s| - 1] as int - '0' as int)
  }

  /** Reading a written number gives it back. */
  lemma {:induction false} DecimalRoundTrip(n: nat)
    ensures ParseDecimal(NatToString(n)) == n
    decreases n
  {
    if n >= 10 {
      DecimalRoundTrip(n / 10);
      var s := NatToString(n);
      assert s[..|s| - 1] == NatToString(n / 10);
    }
  }

  /** The final state of the search. The numeric values of the library's constants are not part
      of this model; a value that matches none of them is `Unrecognised`. */
  datatype SearchState = Succeeded | Failed | NotInitialised | Searching | OutOfMemory | Invalid | Unrecognised(code: int)

  /** The label a row carries for a search that did not succeed. */
  function StateLabel(s: SearchState): string
    requires !s.Succeeded?
  {
    match s
    case Failed => "SEARCH_STATE_FAILED"
    case NotInitialised => "SEARCH_STATE_NOT_INITIALISED"
    case Searching => "SEARCH_STATE_SEARCHING"
    case OutOfMemory => "SEARCH_STATE_OUT_OF_MEMORY"
    case Invalid => "SEARCH_STATE_INVALID"
    case Unrecognised(_) => "UNKNOWN"
  }

  /** A label tells the named states apart; only unrecognised values share one. */
  lemma StateLabelDetermines(a: SearchState, b: SearchState)
    requires !a.Succeeded? && !b.Succeeded? && StateLabel(a) == StateLabel(b)
    ensures a == b || (a.Unrecognised? && b.Unrecognised?)
  {
  }

  /** The comma-free fields of a line. */
  function Split(s: string): (fields: seq<string>)
    ensures |fields| > 0
    decreases |s|
  {
    if |s| == 0 then [""]
    else if s[0] == ',' then [""] + Split(s[1..])
    else
      var rest := Split(s[1..]);
      [[s[0]] + rest[0]] + rest[1..]
  }

  function Join(fields: seq<string>): string
    requires |fields| > 0
    decreases |fields|
  {
    if |fields| == 1 then fields[0] else fields[0] + "," + Join(fields[1..])
  }

  /** Splitting a comma-joined line gives back its fields when none holds a comma. */
  lemma {:induction false} SplitJoin(fields: seq<string>)
    requires |fields| > 0
    requires forall i :: 0 <= i < |fields| ==> ',' !in fields[i]
    ensures Split(Join(fields)) == fields
    decreases |fields|
  {
    if |fields| == 1 {
      SplitPlain(fields[0]);
    } else {
      SplitJoin(fields[1..]);
      SplitAfter(fields[0], Join(fields[1..]));
      assert fields == [fields[0]] + fields[1..];
    }
  }

  lemma {:induction false} SplitPlain(s: string)
    requires ',' !in s
    ensures Split(s) == [s]
    decreases |s|
  {
    if |s| > 0 {
      SplitPlain(s[1..]);
      assert s == [s[0]] + s[1..];
    }
  }

  lemma {:induction false} SplitAfter(a: string, b: string)
    requires ',' !in a
    ensures Split(a + "," + b) == [a] + Split(b)
    decreases |a|
  {
    if |a| == 0 {
      assert a + "," + b == [','] + b;
      assert (a + "," + b)[1..] == b;
    } else {
      SplitAfter(a[1..], b);
      assert (a + "," + b)[1..] == a[1..] + "," + b;
      assert [a[0]] + a[1..] == a;
    }
  }

  /** The fields of the row for a solved level: the file index, the level index, the action digits,
      then the step count, or `INCORRECT_SOLUTION_FOUND` in its place when a step broke the
      deltas, and the number of search steps. */
  function SolvedFields(fileIdx: string, levelIdx: nat, report: PathReport, searchSteps: nat): (fields: seq<string>)
    ensures |fields| == 5 && fields[0] == fileIdx && fields[2] == report.digits
    ensures Decimal(fields[1]) && ParseDecimal(fields[1]) == levelIdx
    ensures Decimal(fields[4]) && ParseDecimal(fields[4]) == searchSteps
    ensures report.correct <==> fields[3] != "INCORRECT_SOLUTION_FOUND"
    ensures report.correct ==> Decimal(fields[3]) && ParseDecimal(fields[3]) == report.steps
  {
    DecimalRoundTrip(levelIdx);
    DecimalRoundTrip(searchSteps);
    DecimalRoundTrip(report.steps);
    var outcome := if report.correct then NatToString(report.steps) else "INCORRECT_SOLUTION_FOUND";
    assert !report.correct ==> outcome[0] == 'I';
    [fileIdx, NatToString(levelIdx), report.digits, outcome, NatToString(searchSteps)]
  }

  /** The fields of the row for a search that did not succeed: the level index, the state's label,
      `-1` for the step count, and the number of search steps. No file index is written. */
  function StoppedFields(levelIdx: nat, state: SearchState, searchSteps: nat): (fields: seq<string>)
    requires !state.Succeeded?
    ensures |fields| == 4 && fields[1] == StateLabel(state) && fields[2] == "-1"
    ensures Decimal(fields[0]) && ParseDecimal(fields[0]) == levelIdx
    ensures Decimal(fields[3]) && ParseDecimal(fields[3]) == searchSteps
  {
    DecimalRoundTrip(levelIdx);
    DecimalRoundTrip(searchSteps);
    [NatToString(levelIdx), StateLabel(state), "-1", NatToString(searchSteps)]
  }

  /** The row appended to the log file: the fields joined by commas, ended by a newline. */
  function Row(fields: seq<string>): (line: string)
    requires |fields| > 0
    ensures |line| > 0 && line[|line| - 1] == '\n'
  {
    Join(fields) + "\n"
  }

  lemma NumberHasNoComma(n: nat)
    ensures ',' !in NatToString(n)
  {
  }

  /** A solved row splits back into its five fields when the file index holds no comma. */
  lemma SolvedRowFields(fileIdx: string, levelIdx: nat, report: PathReport, searchSteps: nat)
    requires ',' !in fileIdx
    requires Decimal(report.digits)
    ensures var line := Row(SolvedFields(fileIdx, levelIdx, report, searchSteps));
            Split(line[..|line| - 1]) == SolvedFields(fileIdx, levelIdx, report, searchSteps)
  {
    var fields := SolvedFields(fileIdx, levelIdx, report, searchSteps);
    NumberHasNoComma(levelIdx);
    NumberHasNoComma(searchSteps);
    NumberHasNoComma(report.steps);
    assert ',' !in fields[3];
    SplitJoin(fields);
    var line := Row(fields);
    assert line[..|line| - 1] == Join(fields);
  }

  /** A row for a stopped search splits back into its four fields. */
  lemma StoppedRowFields(levelIdx: nat, state: SearchState, searchSteps: nat)
    requires !state.Succeeded?
    ensures var line := Row(StoppedFields(levelIdx, state, searchSteps));
            Split(line[..|line| - 1]) == StoppedFields(levelIdx, state, searchSteps)
  {
    var fields := StoppedFields(levelIdx, state, searchSteps);
    NumberHasNoComma(levelIdx);
    NumberHasNoComma(searchSteps);
    assert ',' !in fields[1];
    assert ',' !in fields[2];
    SplitJoin(fields);
    var line := Row(fields);
    assert line[..|line| - 1] == Join(fields);
  }

  /** The runner's row for one search: a solved row when the search succeeded and the path check
      completed (the report holding the step count, the correctness flag and one digit per
      action, so the row is determined by the path), a stopped row for any other final state, and nothing when the check aborted. */
  method LogRow(fileName: string, levelIdx: nat, state: SearchState, start: Pos, path: seq<PathNode>,
                deltas: seq<(int, int)>, searchSteps: nat) returns (row: Option<string>)
    ensures !state.Succeeded? ==> row == Some(Row(StoppedFields(levelIdx, state, searchSteps)))
    ensures state.Succeeded? ==> (row.None? <==> exists i :: 0 <= i < |path| && !Usable(path[i].action, deltas))
    ensures state.Succeeded? && row.Some? ==>
              exists report: PathReport ::
                && report.steps == |path|
                && |report.digits| == |path|
                && (forall i :: 0 <= i < |path| ==> report.digits[i] == DigitChar(path[i].action))
                && (report.correct <==> forall i :: 0 <= i < |path| ==> Follows(start, path, deltas, i))
                && row.value == Row(SolvedFields(FileIdx(fileName), levelIdx, report, searchSteps))
  {
    if !state.Succeeded? {
      return Some(Row(StoppedFields(levelIdx, state, searchSteps)));
    }
    var checked := CheckPath(start, path, deltas);
    if checked.Err? {
      return None;
    }
    return Some(Row(SolvedFields(FileIdx(fileName), levelIdx, checked.value, searchSteps)));
  }
}
