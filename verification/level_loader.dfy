/** The level files: the text format of rooms, its printer, and the cursor that hands
    rooms to the environment one by one, loading a new file when the current one is used up. */
module LevelLoader {
  import opened Tiles
  import opened Wrappers

  type Lines = seq<string>

  datatype LoadError =
    | EmptyLine
    | NotWalled(line: string)
    | BadChar(line: string, c: char)
    | IrregularLine(line: string, dim: nat)
    | RoomNotSquare(size: nat, dim: nat)
    | NoMoreFiles
    | NoFiles
    | NoLevels
    | NoLevelsLoaded
    | AllLevelsLoaded

  // ---------------------------------------------------------------------------
  // Characters and tiles

  /** The tile a level-file character stands for; only walls, the player, boxes, targets and
      floor can be written in a file. */
  function ParseChar(c: char): (t: Option<Tile>)
    ensures t.Some? <==> c in "#@$. "
    ensures t.Some? ==> Parseable(t.value)
  {
    match c
    case '#' => Some(Wall)
    case '@' => Some(Player)
    case '$' => Some(Box)
    case '.' => Some(Target)
    case ' ' => Some(Empty)
    case _ => None
  }

  /** The five tiles a level file can hold. */
  predicate Parseable(t: Tile) {
    t == Wall || t == Player || t == Box || t == Target || t == Empty
  }

  /** The printer's character for each tile code: `PRINT_LEVEL_KEY`. */
  const PrintLevelKey: string := "# .a$@s"

  /** The printer's character for a tile. */
  function KeyOf(t: Tile): (c: char) {
    PrintLevelKey[t.Code()]
  }

  /** The printer gives back every character the parser accepts. */
  lemma KeyInvertsParse(c: char)
    requires ParseChar(c).Some?
    ensures KeyOf(ParseChar(c).value) == c
  {
  }

  /** The parser gives back every parseable tile from its printed character. */
  lemma ParseInvertsKey(t: Tile)
    requires Parseable(t)
    ensures ParseChar(KeyOf(t)) == Some(t)
  {
  }

  /** The characters of a line as tiles, or the first character that is not one. */
  function ParseChars(s: string): (r: Result<seq<Tile>, char>)
    ensures r.Ok? <==> forall i :: 0 <= i < |s| ==> ParseChar(s[i]).Some?
    ensures r.Ok? ==> |r.value| == |s| && forall i :: 0 <= i < |s| ==> ParseChar(s[i]) == Some(r.value[i])
    ensures r.Err? ==> r.error in s && ParseChar(r.error).None?
  {
    if |s| == 0 then Ok([])
    else match ParseChar(s[0])
      case None => Err(s[0])
      case Some(t) =>
        match ParseChars(s[1..])
        case Err(c) => Err(c)
        case Ok(ts) => Ok([t] + ts)
  }

  /** `AddLine`: appends the tiles of one room row. The row must start with a wall; the code
      repeats the start test where the end test was meant, so the last character is not checked. */
  function AddLine(level: Grid, line: string): (r: Result<Grid, LoadError>)
    ensures r.Ok? <==> |line| > 0 && line[0] == '#' && forall i :: 0 <= i < |line| ==> ParseChar(line[i]).Some?
    ensures |line| == 0 ==> r == Err(EmptyLine)
    ensures |line| > 0 && line[0] != '#' ==> r == Err(NotWalled(line))
    ensures r.Err? && r.error.BadChar? ==> r.error.line == line && r.error.c in line
    ensures IsRoomLine(line) && r.Err? ==> r.error.BadChar?
    ensures r.Ok? ==> && |r.value| == |level| + |line| && r.value[..|level|] == level
                      && forall i :: 0 <= i < |line| ==> ParseChar(line[i]) == Some(r.value[|level| + i])
  {
    if |line| == 0 then Err(EmptyLine)
    else if line[0] != '#' || line[0] != '#' then Err(NotWalled(line))
    else match ParseChars(line)
      case Err(c) => Err(BadChar(line, c))
      case Ok(ts) => Ok(level + ts)
  }


  /** A row that starts with a wall but ends with floor is accepted. */
  lemma AddLineIgnoresLastChar()
    ensures AddLine([], "# ") == Ok([Wall, Empty])
  {
    var r := ParseChars("# ");
    assert r.Ok? && r.value == [Wall, Empty];
  }

  // ---------------------------------------------------------------------------
  // Splitting a file into rooms

  /** Number of '#' characters in a line: the width a room's first row announces. */
  function CountHashes(line: string): (n: nat)
    ensures n <= |line|
  {
    if |line| == 0 then 0 else (if line[0] == '#' then 1 else 0) + CountHashes(line[1..])
  }

  /** A line that begins a room or continues one. */
  predicate IsRoomLine(line: string) {
    |line| > 0 && line[0] == '#'
  }

  function Square(d: nat): nat {
    d * d
  }

  /** Every tile of a room can be written in a file. */
  predicate AllParseable(level: Grid) {
    forall i :: 0 <= i < |level| ==> Parseable(level[i])
  }

  /** A valid room: square, and made only of tiles a file can hold. */
  ghost predicate GoodRoom(level: Grid) {
    (exists d: nat :: Square(d) == |level|) && AllParseable(level)
  }

  /** The errors a file's text can raise: a bad character, a row of the wrong width, a room that is not square. */
  predicate ParseFailure(e: LoadError) {
    e.BadChar? || e.IrregularLine? || e.RoomNotSquare?
  }

  /** The inner loop of the room parser: consumes the room rows from `j` on, each of which must be
      `dim` characters long; the first line that is blank or not a row ends the room and is consumed too.
      Returns the room and the index of the next unread line. */
  function ReadRoom(lines: Lines, j: nat, dim: nat, level: Grid): (r: Result<(Grid, nat), LoadError>)
    requires j <= |lines|
    ensures r.Ok? ==> j < r.value.1 <= |lines| || r.value.1 == j == |lines|
    ensures r.Ok? && AllParseable(level) ==> AllParseable(r.value.0)
    ensures r.Ok? ==> forall k :: j <= k < r.value.1 && IsRoomLine(lines[k]) ==> |lines[k]| == dim
    ensures r.Ok? ==> forall k :: j <= k < r.value.1 - 1 ==> IsRoomLine(lines[k])
    ensures r.Ok? && r.value.1 < |lines| ==> j < r.value.1 && !IsRoomLine(lines[r.value.1 - 1])
    ensures r.Err? ==> r.error.IrregularLine? || r.error.BadChar?
    ensures r.Err? && r.error.IrregularLine? ==> r.error.dim == dim && |r.error.line| != dim && r.error.line in lines[j..]
    decreases |lines| - j
  {
    if j == |lines| then Ok((level, j))
    else if !IsRoomLine(lines[j]) then Ok((level, j + 1))
    else if |lines[j]| != dim then Err(IrregularLine(lines[j], dim))
    else match AddLine(level, lines[j])
      case Err(e) => Err(e)
      case Ok(level') => ReadRoom(lines, j + 1, dim, level')
  }

  /** One room, starting at its first row `i`: the width is the number of walls in that row, the
      following rows are read, and the room must come out square. Returns the room and the index
      of the next unread line. */
  function RoomAt(lines: Lines, i: nat): (r: Result<(Grid, nat), LoadError>)
    requires i < |lines| && IsRoomLine(lines[i])
    ensures r.Ok? ==> i < r.value.1 <= |lines| && GoodRoom(r.value.0)
    ensures r.Ok? ==> |r.value.0| == Square(CountHashes(lines[i]))
    ensures r.Err? ==> ParseFailure(r.error)
  {
    var dim := CountHashes(lines[i]);
    match AddLine([], lines[i])
    case Err(e) => Err(e)
    case Ok(first) =>
      match ReadRoom(lines, i + 1, dim, first)
      case Err(e) => Err(e)
      case Ok((level, next)) =>
        if |level| != dim * dim then Err(RoomNotSquare(|level|, dim))
        else
          assert Square(dim) == |level|;
          Ok((level, next))
  }

  /** The outer loop of the room parser from line `i`, with the rooms found so far in `acc`. */
  function ParseFrom(lines: Lines, i: nat, acc: seq<Grid>): (r: Result<seq<Grid>, LoadError>)
    requires i <= |lines|
    ensures r.Ok? ==> |acc| <= |r.value| && r.value[..|acc|] == acc
    ensures r.Ok? ==> forall k :: |acc| <= k < |r.value| ==> GoodRoom(r.value[k])
    ensures r.Err? ==> ParseFailure(r.error)
    decreases |lines| - i
  {
    if i == |lines| then Ok(acc)
    else if !IsRoomLine(lines[i]) then ParseFrom(lines, i + 1, acc)
    else match RoomAt(lines, i)
      case Err(e) => Err(e)
      case Ok((level, next)) => ParseFrom(lines, next, acc + [level])
  }

  /** The rooms of a file, in file order. */
  function ParseRooms(lines: Lines): (r: Result<seq<Grid>, LoadError>)
    ensures r.Ok? ==> forall k :: 0 <= k < |r.value| ==> GoodRoom(r.value[k])
    ensures r.Err? ==> ParseFailure(r.error)
  {
    ParseFrom(lines, 0, [])
  }

  /** Blank lines and lines that do not start with a wall are skipped outside a room. */
  lemma {:induction false} SkippedLinesIgnored(pre: Lines, lines: Lines)
    requires forall k :: 0 <= k < |pre| ==> !IsRoomLine(pre[k])
    ensures ParseRooms(pre + lines) == ParseRooms(lines)
  {
    SkippedFrom(pre, lines, 0);
  }

  lemma {:induction false} SkippedFrom(pre: Lines, lines: Lines, i: nat)
    requires i <= |pre|
    requires forall k :: 0 <= k < |pre| ==> !IsRoomLine(pre[k])
    ensures ParseFrom(pre + lines, i, []) == ParseRooms(lines)
    decreases |pre| - i
  {
    if i < |pre| {
      assert (pre + lines)[i] == pre[i];
      SkippedFrom(pre, lines, i + 1);
    } else {
      ShiftedParse(pre, lines, 0, []);
    }
  }

  /** Parsing the tail of `pre + lines` is parsing `lines` shifted by |pre|. */
  lemma {:induction false} ShiftedParse(pre: Lines, lines: Lines, i: nat, acc: seq<Grid>)
    requires i <= |lines|
    ensures ParseFrom(pre + lines, |pre| + i, acc) == ParseFrom(lines, i, acc)
    decreases |lines| - i
  {
    if i < |lines| {
      assert (pre + lines)[|pre| + i] == lines[i];
      if !IsRoomLine(lines[i]) {
        ShiftedParse(pre, lines, i + 1, acc);
      } else {
        ShiftedRoomAt(pre, lines, i);
        var room := RoomAt(lines, i);
        if room.Ok? {
          ShiftedParse(pre, lines, room.value.1, acc + [room.value.0]);
        }
      }
    }
  }

  lemma ShiftedRoomAt(pre: Lines, lines: Lines, i: nat)
    requires i < |lines| && IsRoomLine(lines[i])
    ensures (pre + lines)[|pre| + i] == lines[i]
    ensures RoomAt(pre + lines, |pre| + i) == ShiftNext(RoomAt(lines, i), |pre|)
  {
    assert (pre + lines)[|pre| + i] == lines[i];
    var first := AddLine([], lines[i]);
    if first.Ok? {
      ShiftedRoom(pre, lines, i + 1, |pre| + i + 1, CountHashes(lines[i]), first.value);
    }
  }

  /** A reading result with its next-line index moved on by n. */
  function ShiftNext(r: Result<(Grid, nat), LoadError>, n: nat): Result<(Grid, nat), LoadError> {
    if r.Ok? then Ok((r.value.0, n + r.value.1)) else r
  }

  lemma {:induction false} ShiftedRoom(pre: Lines, lines: Lines, j: nat, j': nat, dim: nat, level: Grid)
    requires j <= |lines| && j' == |pre| + j
    ensures ReadRoom(pre + lines, j', dim, level) == ShiftNext(ReadRoom(lines, j, dim, level), |pre|)
    decreases |lines| - j
  {
    if j < |lines| {
      assert (pre + lines)[j'] == lines[j];
      if IsRoomLine(lines[j]) && |lines[j]| == dim {
        var next := AddLine(level, lines[j]);
        if next.Ok? {
          ShiftedRoom(pre, lines, j + 1, j' + 1, dim, next.value);
        }
      }
    }
  }

  // ---------------------------------------------------------------------------
  // What the parser reads, stated against the lines of the file

  /** The end of the run of room lines starting at j: the first line from j on that does not
      start with '#', or the end of the file. */
  function RunEnd(lines: Lines, j: nat): (e: nat)
    requires j <= |lines|
    ensures j <= e <= |lines|
    ensures forall k :: j <= k < e ==> IsRoomLine(lines[k])
    ensures e < |lines| ==> !IsRoomLine(lines[e])
    decreases |lines| - j
  {
    if j == |lines| || !IsRoomLine(lines[j]) then j else RunEnd(lines, j + 1)
  }

  /** The line after a run ending at e: the loop that reads a room also consumes the line that
      ended it. */
  function After(lines: Lines, e: nat): nat {
    if e < |lines| then e + 1 else e
  }

  /** The tiles of a line whose characters all parse (no tiles otherwise). */
  function LineTiles(line: string): Grid {
    match ParseChars(line)
    case Ok(ts) => ts
    case Err(_) => []
  }

  /** The tiles of each line. */
  function ParsedRows(rows: Lines): seq<Grid> {
    seq(|rows|, k requires 0 <= k < |rows| => LineTiles(rows[k]))
  }

  /** A row that may continue a room of width dim: of that width, and every character parses. */
  predicate RowFits(line: string, dim: nat) {
    |line| == dim && ParseChars(line).Ok?
  }

  lemma ConcatParsedCons(rows: Lines)
    requires |rows| > 0
    ensures Concat(ParsedRows(rows)) == LineTiles(rows[0]) + Concat(ParsedRows(rows[1..]))
  {
    assert ParsedRows(rows)[1..] == ParsedRows(rows[1..]);
  }

  /** A run of room lines goes on past its first line. */
  lemma RunEndStep(lines: Lines, j: nat)
    requires j < |lines| && IsRoomLine(lines[j])
    ensures RunEnd(lines, j) == RunEnd(lines, j + 1) > j
  {
  }

  /** Every row of lines[j..e] may continue a room of width dim. */
  predicate RunFits(lines: Lines, j: nat, e: nat, dim: nat)
    requires j <= e <= |lines|
  {
    forall k :: j <= k < e ==> RowFits(lines[k], dim)
  }

  /** `ReadRoom` reads exactly the run of room lines from j: it succeeds iff every one of them has
      the width and parses, and then appends their tiles, row after row, and moves past the line
      that ended the run. */
  lemma {:induction false} ReadRoomReads(lines: Lines, j: nat, dim: nat, level: Grid)
    requires j <= |lines|
    ensures ReadRoom(lines, j, dim, level).Ok? <==> RunFits(lines, j, RunEnd(lines, j), dim)
    ensures ReadRoom(lines, j, dim, level).Ok? ==>
      ReadRoom(lines, j, dim, level).value
        == (level + Concat(ParsedRows(lines[j..RunEnd(lines, j)])), After(lines, RunEnd(lines, j)))
    decreases |lines| - j
  {
    if j == |lines| || !IsRoomLine(lines[j]) {
      ReadRoomEmptyRun(lines, j, dim, level);
    } else if !RowFits(lines[j], dim) {
      ReadRoomRefuses(lines, j, dim, level);
    } else {
      var e, ts := RunEnd(lines, j), LineTiles(lines[j]);
      ReadRoomStep(lines, j, dim, level);
      ReadRoomReads(lines, j + 1, dim, level + ts);
      RunOneMore(lines, j, e, dim);
      AppendRows(level, ts, Concat(ParsedRows(lines[j + 1..e])), Concat(ParsedRows(lines[j..e])));
    }
  }

  /** Outside a run of room lines, nothing is read. */
  lemma ReadRoomEmptyRun(lines: Lines, j: nat, dim: nat, level: Grid)
    requires j == |lines| || (j < |lines| && !IsRoomLine(lines[j]))
    ensures RunEnd(lines, j) == j && RunFits(lines, j, j, dim)
    ensures ReadRoom(lines, j, dim, level) == Ok((level + Concat(ParsedRows(lines[j..j])), After(lines, j)))
  {
    assert ParsedRows(lines[j..j]) == [];
    assert level + Concat([]) == level;
  }

  /** A room line that does not fit stops the read. */
  lemma ReadRoomRefuses(lines: Lines, j: nat, dim: nat, level: Grid)
    requires j < |lines| && IsRoomLine(lines[j]) && !RowFits(lines[j], dim)
    ensures ReadRoom(lines, j, dim, level).Err? && !RunFits(lines, j, RunEnd(lines, j), dim)
  {
    RunEndStep(lines, j);
  }

  /** A room line that fits is appended and the read goes on with the next line. */
  lemma ReadRoomStep(lines: Lines, j: nat, dim: nat, level: Grid)
    requires j < |lines| && IsRoomLine(lines[j]) && RowFits(lines[j], dim)
    ensures ReadRoom(lines, j, dim, level) == ReadRoom(lines, j + 1, dim, level + LineTiles(lines[j]))
  {
    AddParsedLine(level, lines[j], LineTiles(lines[j]));
  }

  /** The run from j is its first line followed by the run from j + 1. */
  lemma RunOneMore(lines: Lines, j: nat, e: nat, dim: nat)
    requires j < |lines| && IsRoomLine(lines[j]) && e == RunEnd(lines, j)
    ensures e == RunEnd(lines, j + 1) && j < e
    ensures RowFits(lines[j], dim) ==> (RunFits(lines, j, e, dim) <==> RunFits(lines, j + 1, e, dim))
    ensures LineTiles(lines[j]) + Concat(ParsedRows(lines[j + 1..e])) == Concat(ParsedRows(lines[j..e]))
  {
    RunEndStep(lines, j);
    assert lines[j..e][1..] == lines[j + 1..e];
    ConcatParsedCons(lines[j..e]);
  }

  lemma AppendRows(level: Grid, first: Grid, rest: Grid, rows: Grid)
    requires first + rest == rows
    ensures level + first + rest == level + rows
  {
  }

  /** `RoomAt` reads exactly the run of room lines from its first row: it succeeds iff the first
      row parses, the later rows have the width counted in the first, and the rows make width²
      cells; the room is then their tiles, row after row. */
  lemma RoomAtReads(lines: Lines, i: nat)
    requires i < |lines| && IsRoomLine(lines[i])
    ensures var e, dim := RunEnd(lines, i), CountHashes(lines[i]);
      RoomAt(lines, i).Ok? <==>
        ParseChars(lines[i]).Ok? && RunFits(lines, i + 1, e, dim)
        && |Concat(ParsedRows(lines[i..e]))| == dim * dim
    ensures var e := RunEnd(lines, i);
      RoomAt(lines, i).Ok? ==> RoomAt(lines, i).value == (Concat(ParsedRows(lines[i..e])), After(lines, e))
  {
    var e, dim := RunEnd(lines, i), CountHashes(lines[i]);
    RoomAtRest(lines, i);
    if ParseChars(lines[i]).Ok? {
      ReadRoomReads(lines, i + 1, dim, LineTiles(lines[i]));
      RunOneMore(lines, i, e, dim);
    }
  }

  /** A room whose first row parses is that row's tiles and the rows read after it, if square. */
  lemma RoomAtRest(lines: Lines, i: nat)
    requires i < |lines| && IsRoomLine(lines[i])
    ensures RoomAt(lines, i).Ok? ==> ParseChars(lines[i]).Ok?
    ensures ParseChars(lines[i]).Ok? ==>
      RoomAt(lines, i) == SquareOnly(ReadRoom(lines, i + 1, CountHashes(lines[i]), LineTiles(lines[i])), CountHashes(lines[i]))
  {
    if ParseChars(lines[i]).Ok? {
      var ts := LineTiles(lines[i]);
      AddParsedLine([], lines[i], ts);
      assert [] + ts == ts;
    }
  }

  /** A read room, refused unless it has dim² cells. */
  function SquareOnly(read: Result<(Grid, nat), LoadError>, dim: nat): Result<(Grid, nat), LoadError> {
    if read.Ok? && |read.value.0| != dim * dim then Err(RoomNotSquare(|read.value.0|, dim)) else read
  }

  /** The first rows of the rooms of a file from line i on, in file order: outside a room, lines
      that do not start with '#' are skipped, and a room runs to the first line that does not. */
  function Starts(lines: Lines, i: nat): (ss: seq<nat>)
    requires i <= |lines|
    ensures forall k :: 0 <= k < |ss| ==> i <= ss[k] < |lines| && IsRoomLine(lines[ss[k]])
    ensures forall k :: 0 < k < |ss| ==> ss[k - 1] < ss[k]
    decreases |lines| - i
  {
    if i == |lines| then []
    else if !IsRoomLine(lines[i]) then Starts(lines, i + 1)
    else [i] + Starts(lines, After(lines, RunEnd(lines, i)))
  }

  /** The room read at each of the room starts ss. */
  function RoomsAt(lines: Lines, ss: seq<nat>): (rooms: seq<Result<(Grid, nat), LoadError>>)
    requires forall k :: 0 <= k < |ss| ==> ss[k] < |lines| && IsRoomLine(lines[ss[k]])
    ensures |rooms| == |ss| && forall k :: 0 <= k < |ss| ==> rooms[k] == RoomAt(lines, ss[k])
  {
    if |ss| == 0 then [] else [RoomAt(lines, ss[0])] + RoomsAt(lines, ss[1..])
  }

  /** `r` is what collecting `rooms` after `acc` gives: it succeeds iff every room was accepted,
      then holds acc followed by the rooms in order, and otherwise fails with a refused room's
      error. */
  predicate Collects(rooms: seq<Result<(Grid, nat), LoadError>>, acc: seq<Grid>, r: Result<seq<Grid>, LoadError>) {
    && (r.Ok? <==> forall k :: 0 <= k < |rooms| ==> rooms[k].Ok?)
    && (r.Ok? ==> |r.value| == |acc| + |rooms| && r.value[..|acc|] == acc
                  && forall k :: 0 <= k < |rooms| ==> r.value[|acc| + k] == rooms[k].value.0)
    && (r.Err? ==> exists k :: 0 <= k < |rooms| && rooms[k] == Err(r.error))
  }

  lemma CollectsNone(acc: seq<Grid>)
    ensures Collects([], acc, Ok(acc))
  {
  }

  lemma CollectsRefused(e: LoadError, rest: seq<Result<(Grid, nat), LoadError>>, acc: seq<Grid>)
    ensures Collects([Err(e)] + rest, acc, Err(e))
  {
    assert ([Err(e)] + rest)[0] == Err(e);
  }

  lemma CollectsAccepted(room: (Grid, nat), rest: seq<Result<(Grid, nat), LoadError>>, acc: seq<Grid>,
                         r: Result<seq<Grid>, LoadError>)
    requires Collects(rest, acc + [room.0], r)
    ensures Collects([Ok(room)] + rest, acc, r)
  {
    var rooms := [Ok(room)] + rest;
    assert forall k :: 0 < k < |rooms| ==> rooms[k] == rest[k - 1];
    if r.Ok? {
      assert r.value[..|acc| + 1] == acc + [room.0];
      assert r.value[..|acc|] == r.value[..|acc| + 1][..|acc|];
      forall k | 0 < k < |rooms|
        ensures r.value[|acc| + k] == rooms[k].value.0
      {
        assert |acc| + k == |acc + [room.0]| + (k - 1);
      }
    } else {
      var k' :| 0 <= k' < |rest| && rest[k'] == Err(r.error);
      assert rooms[k' + 1] == Err(r.error);
    }
  }

  /** The outer loop reads the room at each room start in turn: it collects those rooms in file
      order after the rooms already found. */
  lemma {:induction false} ParseFromReads(lines: Lines, i: nat, acc: seq<Grid>)
    requires i <= |lines|
    ensures Collects(RoomsAt(lines, Starts(lines, i)), acc, ParseFrom(lines, i, acc))
    decreases |lines| - i
  {
    if i == |lines| {
      CollectsNone(acc);
    } else if !IsRoomLine(lines[i]) {
      ParseFromReads(lines, i + 1, acc);
    } else {
      var next, room := After(lines, RunEnd(lines, i)), RoomAt(lines, i);
      var rest := RoomsAt(lines, Starts(lines, next));
      RoomsAtStart(lines, i);
      ParseFromAt(lines, i, acc);
      if room.Ok? {
        ParseFromReads(lines, next, acc + [room.value.0]);
        CollectsAccepted(room.value, rest, acc, ParseFrom(lines, next, acc + [room.value.0]));
      } else {
        CollectsRefused(room.error, rest, acc);
      }
    }
  }

  /** The rooms from a room start are the room there and the rooms after its run. */
  lemma RoomsAtStart(lines: Lines, i: nat)
    requires i < |lines| && IsRoomLine(lines[i])
    ensures RoomsAt(lines, Starts(lines, i))
         == [RoomAt(lines, i)] + RoomsAt(lines, Starts(lines, After(lines, RunEnd(lines, i))))
  {
    var rest := Starts(lines, After(lines, RunEnd(lines, i)));
    assert Starts(lines, i) == [i] + rest;
    assert ([i] + rest)[1..] == rest;
  }

  /** At a room start the outer loop reads that room and goes on after its run. */
  lemma ParseFromAt(lines: Lines, i: nat, acc: seq<Grid>)
    requires i < |lines| && IsRoomLine(lines[i])
    ensures var room := RoomAt(lines, i);
      ParseFrom(lines, i, acc)
        == if room.Ok? then ParseFrom(lines, After(lines, RunEnd(lines, i)), acc + [room.value.0])
           else Err(room.error)
  {
    RoomAtReads(lines, i);
  }

  /** The room read at each room start of a file, in file order. */
  function FileRooms(lines: Lines): seq<Result<(Grid, nat), LoadError>> {
    RoomsAt(lines, Starts(lines, 0))
  }

  /** The room list of a file is the room read at each room start, in file order: the file is
      accepted iff every one of those rooms is, and otherwise refused with a refused room's error. */
  lemma ParseRoomsReads(lines: Lines)
    ensures ParseRooms(lines).Ok? <==> forall k :: 0 <= k < |FileRooms(lines)| ==> FileRooms(lines)[k].Ok?
    ensures ParseRooms(lines).Ok? ==>
      |ParseRooms(lines).value| == |FileRooms(lines)|
      && forall k :: 0 <= k < |FileRooms(lines)| ==> ParseRooms(lines).value[k] == FileRooms(lines)[k].value.0
    ensures ParseRooms(lines).Err? ==>
      exists k :: 0 <= k < |FileRooms(lines)| && FileRooms(lines)[k] == Err(ParseRooms(lines).error)
  {
    var rooms, r := FileRooms(lines), ParseFrom(lines, 0, []);
    assert ParseRooms(lines) == r;
    ParseFromReads(lines, 0, []);
    CollectsFromNothing(rooms, r);
  }

  /** Each room of an accepted file is the tiles of the rows of its run, row after row. */
  lemma ParsedRoomTiles(lines: Lines)
    ensures var ss, r := Starts(lines, 0), ParseRooms(lines);
      r.Ok? ==> |r.value| == |ss| && forall k :: 0 <= k < |ss| ==>
        r.value[k] == Concat(ParsedRows(lines[ss[k]..RunEnd(lines, ss[k])]))
  {
    var ss := Starts(lines, 0);
    ParseRoomsReads(lines);
    forall k | 0 <= k < |ss| && RoomAt(lines, ss[k]).Ok?
      ensures RoomAt(lines, ss[k]).value.0 == Concat(ParsedRows(lines[ss[k]..RunEnd(lines, ss[k])]))
    {
      RoomAtReads(lines, ss[k]);
    }
  }

  /** Collecting rooms from no rooms at all. */
  lemma CollectsFromNothing(rooms: seq<Result<(Grid, nat), LoadError>>, r: Result<seq<Grid>, LoadError>)
    requires Collects(rooms, [], r)
    ensures r.Ok? <==> forall k :: 0 <= k < |rooms| ==> rooms[k].Ok?
    ensures r.Ok? ==> |r.value| == |rooms| && forall k :: 0 <= k < |rooms| ==> r.value[k] == rooms[k].value.0
    ensures r.Err? ==> exists k :: 0 <= k < |rooms| && rooms[k] == Err(r.error)
  {
    if r.Ok? {
      forall k | 0 <= k < |rooms|
        ensures r.value[k] == rooms[k].value.0
      {
        var none: seq<Grid> := [];
        assert k == |none| + k;
      }
    }
  }

  /** The tiles of the wall row "###" and of the row "#@#". */
  function WallRow(): Grid {
    [Wall, Wall, Wall]
  }

  function PlayerRow(): Grid {
    [Wall, Player, Wall]
  }

  /** The tiles of the 3 x 3 room: walls around a player. */
  function SmallRoom(): Grid {
    WallRow() + PlayerRow() + WallRow()
  }

  /** The wall row "###" and the row "#@#". */
  lemma SmallRows()
    ensures CountHashes("###") == 3
    ensures ParseChars("###") == Ok(WallRow())
    ensures ParseChars("#@#") == Ok(PlayerRow())
  {
    var walls := ParseChars("###");
    assert walls.Ok? && walls.value == [Wall, Wall, Wall];
    var middle := ParseChars("#@#");
    assert middle.Ok? && middle.value == [Wall, Player, Wall];
  }

  /** The 3 x 3 room tile by tile. */
  lemma SmallRoomTiles()
    ensures SmallRoom() == [Wall, Wall, Wall, Wall, Player, Wall, Wall, Wall, Wall]
  {
  }

  /** A wall-led row whose characters parse appends their tiles. */
  lemma AddParsedLine(level: Grid, line: string, ts: seq<Tile>)
    requires |line| > 0 && line[0] == '#' && ParseChars(line) == Ok(ts)
    ensures AddLine(level, line) == Ok(level + ts)
  {
  }

  /** The rows of the 3 x 3 room appended one after the other. */
  lemma SmallRoomRows()
    ensures AddLine([], "###") == Ok(WallRow())
    ensures AddLine(WallRow(), "#@#") == Ok(WallRow() + PlayerRow())
    ensures AddLine(WallRow() + PlayerRow(), "###") == Ok(SmallRoom())
  {
    SmallRows();
    AddParsedLine([], "###", WallRow());
    assert [] + WallRow() == WallRow();
    AddParsedLine(WallRow(), "#@#", PlayerRow());
    AddParsedLine(WallRow() + PlayerRow(), "###", WallRow());
  }

  /** The room rows after the first are read to the end of the file. */
  lemma SmallRoomRead()
    ensures ReadRoom(["###", "#@#", "###"], 1, 3, WallRow()) == Ok((SmallRoom(), 3))
  {
    var lines := ["###", "#@#", "###"];
    SmallRoomRows();
    assert ReadRoom(lines, 3, 3, SmallRoom()) == Ok((SmallRoom(), 3));
    assert ReadRoom(lines, 2, 3, WallRow() + PlayerRow()) == Ok((SmallRoom(), 3));
  }

  /** A one-room file: a 3 x 3 room of walls around a player. */
  lemma ParseSmallRoom()
    ensures ParseRooms(["###", "#@#", "###"]) == Ok([SmallRoom()])
  {
    var lines := ["###", "#@#", "###"];
    SmallRows();
    SmallRoomRows();
    SmallRoomRead();
    assert RoomAt(lines, 0) == Ok((SmallRoom(), 3));
  }

  /** A row whose length differs from the width announced by the room's first row is refused. */
  lemma IrregularRowRefused()
    ensures ParseRooms(["###", "#@ #"]) == Err(IrregularLine("#@ #", 3))
  {
    SmallRows();
    var lines := ["###", "#@ #"];
    SmallRows();
    AddParsedLine([], "###", WallRow());
    assert [] + WallRow() == WallRow();
    assert ReadRoom(lines, 1, 3, WallRow()) == Err(IrregularLine("#@ #", 3));
  }

  /** Rows of the announced width that do not make a square are refused. */
  lemma NonSquareRoomRefused()
    ensures ParseRooms(["###", "#@#"]) == Err(RoomNotSquare(6, 3))
  {
    SmallRows();
    var lines := ["###", "#@#"];
    SmallRoomRows();
    assert ReadRoom(lines, 1, 3, WallRow()) == Ok((WallRow() + PlayerRow(), 2));
  }

  // ---------------------------------------------------------------------------
  // Printing

  /** The side of a room of `n` cells as the printer finds it: the smallest d with d * d == n,
      searching no further than 101. */
  function RoomDim(n: nat): (d: nat)
    ensures d <= 101
    ensures Square(d) == n || d == 101
    ensures forall d' :: 0 <= d' < d ==> Square(d') != n
  {
    RoomDimFrom(n, 0)
  }

  function RoomDimFrom(n: nat, d: nat): (r: nat)
    requires d <= 101
    requires forall d' :: 0 <= d' < d ==> Square(d') != n
    ensures d <= r <= 101
    ensures Square(r) == n || r == 101
    ensures forall d' :: 0 <= d' < r ==> Square(d') != n
    decreases 101 - d
  {
    if Square(d) == n || d > 100 then d else RoomDimFrom(n, d + 1)
  }

  lemma SquareMonotone(a: nat, b: nat)
    requires a < b
    ensures Square(a) < Square(b)
  {
    assert a * a <= a * b < b * b;
  }

  /** A square room of side d <= 101 is printed with rows of d characters. */
  lemma RoomDimOfSquare(d: nat)
    requires d <= 101
    ensures RoomDim(Square(d)) == d
  {
    var r := RoomDim(Square(d));
    if r < d {
      SquareMonotone(r, d);
    }
  }

  /** The text the printer writes for cells i onwards: each cell's key, and a newline after
      every `dim`-th cell. */
  function PrintFrom(level: Grid, dim: nat, i: nat): (s: string)
    requires dim > 0 && i <= |level|
    decreases |level| - i
  {
    if i == |level| then ""
    else [KeyOf(level[i])] + (if (i + 1) % dim == 0 then "\n" else "") + PrintFrom(level, dim, i + 1)
  }

  /** `PrintLevel`: the room as text, one row per line. With its line breaks taken out, the text is
      the key of every cell, in order. */
  function PrintLevel(level: Grid): (s: string)
    ensures Unbroken(s) == Keys(level)
  {
    var dim := RoomDim(|level|);
    if |level| == 0 then "" else PrintedKeys(level, dim, 0); PrintFrom(level, dim, 0)
  }

  /** A text with its newlines taken out. */
  function Unbroken(s: string): string {
    if |s| == 0 then "" else (if s[0] == '\n' then "" else [s[0]]) + Unbroken(s[1..])
  }

  /** No key is a newline. */
  lemma KeyIsNoNewline(t: Tile)
    ensures KeyOf(t) != '\n'
  {
  }

  /** The printed text of cells i onwards, without its newlines, is their keys. */
  lemma {:induction false} PrintedKeys(level: Grid, dim: nat, i: nat)
    requires dim > 0 && i <= |level|
    ensures Unbroken(PrintFrom(level, dim, i)) == Keys(level[i..])
    decreases |level| - i
  {
    if i < |level| {
      PrintedKeys(level, dim, i + 1);
      var rest := PrintFrom(level, dim, i + 1);
      var brk := if (i + 1) % dim == 0 then "\n" else "";
      var s := [KeyOf(level[i])] + brk + rest;
      KeyIsNoNewline(level[i]);
      assert s[1..] == brk + rest;
      assert Unbroken(brk + rest) == Unbroken(rest) by {
        if brk == "\n" {
          assert (brk + rest)[1..] == rest;
        } else {
          assert brk + rest == rest;
        }
      }
      assert level[i..][1..] == level[i + 1..];
    }
  }

  /** The keys of a row of tiles. */
  function Keys(row: Grid): (s: string)
    ensures |s| == |row|
    ensures forall i :: 0 <= i < |row| ==> s[i] == KeyOf(row[i])
  {
    if |row| == 0 then "" else [KeyOf(row[0])] + Keys(row[1..])
  }

  /** Lines joined, each followed by a newline. */
  function Unlines(rows: Lines): string {
    if |rows| == 0 then "" else rows[0] + "\n" + Unlines(rows[1..])
  }

  /** The tiles of rows, row after row. */
  function Concat(rows: seq<Grid>): Grid {
    if |rows| == 0 then [] else rows[0] + Concat(rows[1..])
  }

  /** The first row of a text and the text of the rows after it. */
  lemma UnlinesCons(rows: Lines)
    requires |rows| > 0
    ensures Unlines(rows) == rows[0] + "\n" + Unlines(rows[1..])
  {
  }

  /** Rows of width d concatenate to |rows| * d cells. */
  lemma {:induction false} ConcatLength(rows: seq<Grid>, d: nat)
    requires forall r :: 0 <= r < |rows| ==> |rows[r]| == d
    ensures |Concat(rows)| == |rows| * d
  {
    if |rows| > 0 {
      ConcatLength(rows[1..], d);
      assert |rows| * d == d + (|rows| - 1) * d;
    }
  }

  /** Within a row starting at a multiple of dim, only the row's last cell is followed by a newline. */
  lemma RowEnd(dim: nat, k: nat, lo: nat, j: nat)
    requires lo == k * dim && j < dim
    ensures (lo + j + 1) % dim == 0 <==> j + 1 == dim
  {
    if j + 1 < dim {
      IndexDivMod(dim, j + 1, k);
    } else {
      assert lo + j + 1 == (k + 1) * dim;
      IndexDivMod(dim, 0, k + 1);
    }
  }

  /** Printing the cells of the row [lo, lo + dim) from its j-th cell ends that row with a newline. */
  lemma {:induction false} PrintRow(level: Grid, dim: nat, k: nat, lo: nat, j: nat)
    requires dim > 0 && lo == k * dim && j <= dim && lo + dim <= |level|
    ensures PrintFrom(level, dim, lo + j)
         == (if j == dim then "" else Keys(level[lo + j..lo + dim]) + "\n") + PrintFrom(level, dim, lo + dim)
    decreases dim - j
  {
    if j < dim {
      PrintRow(level, dim, k, lo, j + 1);
      RowEnd(dim, k, lo, j);
      assert level[lo + j..lo + dim][1..] == level[lo + j + 1..lo + dim];
    }
  }

  /** The first of the rows that make up the tail of a level, and what follows it. */
  lemma ConcatHead(level: Grid, lo: nat, tiles: seq<Grid>)
    requires lo <= |level| && level[lo..] == Concat(tiles) && |tiles| > 0
    ensures lo + |tiles[0]| <= |level|
    ensures level[lo..lo + |tiles[0]|] == tiles[0] && level[lo + |tiles[0]|..] == Concat(tiles[1..])
  {
    assert level[lo..] == tiles[0] + Concat(tiles[1..]);
  }

  lemma NextRow(k: nat, dim: nat)
    ensures k * dim + dim == (k + 1) * dim
  {
  }

  /** The keys of a parsed line are the line. */
  lemma KeysOfParsed(line: string, row: Grid)
    requires ParseChars(line) == Ok(row)
    ensures Keys(row) == line
  {
    forall i | 0 <= i < |line|
      ensures Keys(row)[i] == line[i]
    {
      KeyInvertsParse(line[i]);
    }
  }

  /** The first of the parsed rows that make up the tail of a level prints as its text and a newline. */
  lemma PrintFirstRow(level: Grid, dim: nat, k: nat, lo: nat, line: string, tiles: seq<Grid>)
    requires dim > 0 && lo == k * dim && lo <= |level| && level[lo..] == Concat(tiles) && |tiles| > 0
    requires |line| == dim && ParseChars(line) == Ok(tiles[0])
    ensures lo + dim <= |level| && level[lo + dim..] == Concat(tiles[1..])
    ensures PrintFrom(level, dim, lo) == line + "\n" + PrintFrom(level, dim, lo + dim)
  {
    ConcatHead(level, lo, tiles);
    assert level[lo..lo + dim] == tiles[0];
    KeysOfParsed(line, tiles[0]);
    PrintWholeRow(level, dim, k, lo);
  }

  /** A whole row starting at a multiple of dim prints as its keys and a newline. */
  lemma PrintWholeRow(level: Grid, dim: nat, k: nat, lo: nat)
    requires dim > 0 && lo == k * dim && lo + dim <= |level|
    ensures PrintFrom(level, dim, lo) == Keys(level[lo..lo + dim]) + "\n" + PrintFrom(level, dim, lo + dim)
  {
    PrintRow(level, dim, k, lo, 0);
    assert lo + 0 == lo;
  }

  /** Printing whole rows from the row at lo = k * dim on: each parsed row comes back as its text. */
  lemma {:induction false} PrintRows(level: Grid, dim: nat, k: nat, lo: nat, rows: Lines, tiles: seq<Grid>)
    requires dim > 0 && lo == k * dim && lo <= |level| && level[lo..] == Concat(tiles) && |rows| == |tiles|
    requires forall r :: 0 <= r < |rows| ==> |rows[r]| == dim && ParseChars(rows[r]) == Ok(tiles[r])
    ensures PrintFrom(level, dim, lo) == Unlines(rows)
    decreases |rows|
  {
    if |rows| > 0 {
      PrintFirstRow(level, dim, k, lo, rows[0], tiles);
      NextRow(k, dim);
      PrintRows(level, dim, k + 1, lo + dim, rows[1..], tiles[1..]);
      UnlinesCons(rows);
    } else {
      assert |level[lo..]| == 0;
      assert lo == |level|;
    }
  }

  /** Round trip: a parsed square room of side d <= 101 prints back as its rows, one per line. */
  lemma PrintParsedRoom(rows: Lines, tiles: seq<Grid>, d: nat)
    requires 0 < d <= 101 && |rows| == d && |tiles| == d
    requires forall r :: 0 <= r < d ==> |rows[r]| == d && ParseChars(rows[r]) == Ok(tiles[r])
    ensures PrintLevel(Concat(tiles)) == Unlines(rows)
  {
    var level := Concat(tiles);
    ConcatLength(tiles, d);
    assert |level| == Square(d);
    RoomDimOfSquare(d);
    assert level[0..] == level;
    PrintRows(level, d, 0, 0, rows, tiles);
  }

  /** a * d == d * d with d > 0 gives a == d. */
  lemma CancelSide(a: nat, d: nat)
    requires d > 0 && a * d == d * d
    ensures a == d
  {
    assert (a - d) * d == 0;
  }

  /** The rows of an accepted room, as far as the loader checks them: the first row parses, and
      every later row has the width counted in the first row and parses. */
  lemma LoadedRows(lines: Lines, i: nat)
    requires i < |lines| && IsRoomLine(lines[i]) && RoomAt(lines, i).Ok?
    ensures var rows, d := lines[i..RunEnd(lines, i)], CountHashes(lines[i]);
      && |rows| > 0 && rows[0] == lines[i]
      && RoomAt(lines, i).value.0 == Concat(ParsedRows(rows))
      && |Concat(ParsedRows(rows))| == d * d
      && ParseChars(rows[0]) == Ok(ParsedRows(rows)[0])
      && forall r :: 0 < r < |rows| ==> |rows[r]| == d && ParseChars(rows[r]) == Ok(ParsedRows(rows)[r])
  {
    var e, d := RunEnd(lines, i), CountHashes(lines[i]);
    RoomAtReads(lines, i);
    RunEndStep(lines, i);
    forall r | 0 < r < e - i
      ensures lines[i..e][r] == lines[i + r] && RowFits(lines[i + r], d)
    {
    }
  }

  /** Round trip over the loader: an accepted room whose first row is as wide as its wall count
      (at most 101) prints back as the lines it was read from, one per line. */
  lemma PrintLoadedRoom(lines: Lines, i: nat)
    requires i < |lines| && IsRoomLine(lines[i]) && RoomAt(lines, i).Ok?
    requires |lines[i]| == CountHashes(lines[i]) <= 101
    ensures PrintLevel(RoomAt(lines, i).value.0) == Unlines(lines[i..RunEnd(lines, i)])
  {
    var rows, d := lines[i..RunEnd(lines, i)], CountHashes(lines[i]);
    var tiles := ParsedRows(rows);
    LoadedRows(lines, i);
    ConcatLength(tiles, d);
    CancelSide(|rows|, d);
    PrintParsedRoom(rows, tiles, d);
  }

  /** The tiles of "#.#" and ".#.". */
  lemma OddRows()
    ensures ParseChars("#.#") == Ok([Wall, Target, Wall])
    ensures ParseChars(".#.") == Ok([Target, Wall, Target])
  {
    var edge := ParseChars("#.#");
    assert edge.Ok? && edge.value == [Wall, Target, Wall];
    var middle := ParseChars(".#.");
    assert middle.Ok? && middle.value == [Target, Wall, Target];
  }

  /** The tiles of "#.#.#.", which has three walls. */
  lemma WideRow()
    ensures CountHashes("#.#.#.") == 3
    ensures ParseChars("#.#.#.") == Ok([Wall, Target, Wall] + [Target, Wall, Target])
  {
    var wide := ParseChars("#.#.#.");
    assert wide.Ok? && wide.value == [Wall, Target, Wall] + [Target, Wall, Target];
  }

  /** A six-character first row with three walls, then the row "###": nine cells, accepted. */
  lemma WideFirstRowAccepted()
    ensures RoomAt(["#.#.#.", "###"], 0)
         == Ok(([Wall, Target, Wall] + [Target, Wall, Target] + WallRow(), 2))
  {
    var lines := ["#.#.#.", "###"];
    var wide := [Wall, Target, Wall] + [Target, Wall, Target];
    WideRow();
    SmallRows();
    AddParsedLine([], lines[0], wide);
    assert [] + wide == wide;
    AddParsedLine(wide, lines[1], WallRow());
    assert ReadRoom(lines, 2, 3, wide + WallRow()) == Ok((wide + WallRow(), 2));
  }

  /** Three parsed rows of width three print back as those rows. */
  lemma ThreeRows(a: string, b: string, c: string, ta: Grid, tb: Grid, tc: Grid)
    requires |a| == 3 && |b| == 3 && |c| == 3
    requires ParseChars(a) == Ok(ta) && ParseChars(b) == Ok(tb) && ParseChars(c) == Ok(tc)
    ensures PrintLevel(ta + tb + tc) == Unlines([a, b, c])
  {
    Concat3(ta, tb, tc);
    PrintParsedRoom([a, b, c], [ta, tb, tc], 3);
  }

  lemma Concat3(ta: Grid, tb: Grid, tc: Grid)
    ensures Concat([ta, tb, tc]) == ta + tb + tc
  {
    var last := [tc];
    assert last[1..] == [];
    assert Concat(last) == tc;
    var two := [tb, tc];
    assert two[1..] == last;
    assert Concat(two) == tb + tc;
    var three := [ta, tb, tc];
    assert three[1..] == two;
  }

  /** The nine cells of the wide-first-row room print as three rows of three. */
  lemma OddRoomPrints()
    ensures PrintLevel([Wall, Target, Wall] + [Target, Wall, Target] + WallRow()) == Unlines(["#.#", ".#.", "###"])
  {
    OddRows();
    SmallRows();
    ThreeRows("#.#", ".#.", "###", [Wall, Target, Wall], [Target, Wall, Target], WallRow());
  }

  /** Rows of width d join into |rows| * (d + 1) characters. */
  lemma {:induction false} UnlinesLength(rows: Lines, d: nat)
    requires forall r :: 0 <= r < |rows| ==> |rows[r]| == d
    ensures |Unlines(rows)| == |rows| * (d + 1)
  {
    if |rows| > 0 {
      UnlinesLength(rows[1..], d);
      assert |rows| * (d + 1) == d + 1 + (|rows| - 1) * (d + 1);
    }
  }

  /** The loader never checks the first row's length, only the wall count in it: a six-character
      first row with three walls and a three-character second row make an accepted 3 x 3 room,
      which prints as three rows of three, not as the file's lines. */
  lemma FirstRowUnchecked()
    ensures RoomAt(["#.#.#.", "###"], 0).Ok?
    ensures PrintLevel(RoomAt(["#.#.#.", "###"], 0).value.0) == Unlines(["#.#", ".#.", "###"])
    ensures PrintLevel(RoomAt(["#.#.#.", "###"], 0).value.0) != Unlines(["#.#.#.", "###"])
  {
    WideFirstRowAccepted();
    OddRoomPrints();
    OddRoomText();
  }

  /** The two texts have different lengths. */
  lemma OddRoomText()
    ensures |Unlines(["#.#", ".#.", "###"])| == 12 && |Unlines(["#.#.#.", "###"])| == 11
  {
    var rows := ["#.#", ".#.", "###"];
    assert forall r :: 0 <= r < |rows| ==> |rows[r]| == 3;
    UnlinesLength(rows, 3);
    var lines := ["#.#.#.", "###"];
    UnlinesCons(lines);
    assert lines[1..] == ["###"];
    UnlinesCons(["###"]);
  }

  // ---------------------------------------------------------------------------
  // Choosing files and serving rooms

  /** The random choices of one load, supplied from outside: a raw draw for the file index, reduced
      into the file list, and a raw draw per shuffle position, reduced into the positions allowed. */
  datatype Draw = Draw(file: nat, swap: nat -> nat)

  /** The sequence with the elements at i and j exchanged. */
  function Swap<T>(s: seq<T>, i: nat, j: nat): (r: seq<T>)
    requires i < |s| && j < |s|
    ensures |r| == |s| && multiset(r) == multiset(s)
    ensures r[i] == s[j] && r[j] == s[i]
    ensures forall k :: 0 <= k < |s| && k != i && k != j ==> r[k] == s[k]
  {
    s[i := s[j]][j := s[i]]
  }

  /** Fisher-Yates: for n = |s| - 1 down to 1, swap position n with a position drawn from [0, n]. */
  function Shuffle<T>(s: seq<T>, swap: nat -> nat): (r: seq<T>)
    ensures |r| == |s| && multiset(r) == multiset(s)
  {
    ShuffleBelow(s, |s|, swap)
  }

  function ShuffleBelow<T>(s: seq<T>, n: nat, swap: nat -> nat): (r: seq<T>)
    requires n <= |s|
    ensures |r| == |s| && multiset(r) == multiset(s)
    ensures forall k :: n <= k < |s| ==> r[k] == s[k]
    decreases n
  {
    if n <= 1 then s else ShuffleBelow(Swap(s, n - 1, swap(n - 1) % n), n - 1, swap)
  }

  /** Exchanging an element with itself changes nothing. */
  lemma SwapSelf<T>(s: seq<T>, i: nat)
    requires i < |s|
    ensures Swap(s, i, i) == s
  {
  }

  /** Draws that always pick the position itself leave the order as it is. */
  lemma {:induction false} IdentityShuffle<T>(s: seq<T>, swap: nat -> nat, n: nat)
    requires n <= |s|
    requires forall k :: 0 <= k < n ==> swap(k) % (k + 1) == k
    ensures ShuffleBelow(s, n, swap) == s
    decreases n
  {
    if n > 1 {
      var j := swap(n - 1) % n;
      assert j == n - 1 by {
        assert swap(n - 1) % (n - 1 + 1) == n - 1;
      }
      SwapSelf(s, n - 1);
      IdentityShuffle(s, swap, n - 1);
    }
  }

  /** The loader: the rooms of the current file with a cursor into them, the files (as their lines)
      with a cursor for sequential mode, and the cap on rooms served (none when not positive). */
  datatype Loader = Loader(
    sequential: bool,
    nToLoad: int,
    loaded: int,
    levels: seq<Grid>,
    cursor: nat,
    files: seq<Lines>,
    curFile: nat)

  /** The constructor's state: nothing loaded yet, both cursors at the start. */
  function NewLoader(sequential: bool, nToLoad: int, files: seq<Lines>): (ld: Loader)
    ensures Valid(ld) && ld.loaded == 0 && ld.cursor == |ld.levels|
  {
    Loader(sequential, nToLoad, 0, [], 0, files, 0)
  }

  /** Both cursors lie within their sequences and every room held is a valid room. */
  ghost predicate Valid(ld: Loader) {
    && ld.cursor <= |ld.levels|
    && ld.curFile <= |ld.files|
    && forall k :: 0 <= k < |ld.levels| ==> GoodRoom(ld.levels[k])
  }

  /** The file a load reads and the file cursor after it: the next file in sequential mode, a drawn
      one otherwise. */
  function PickFile(ld: Loader, draw: Draw): Result<(Lines, nat), LoadError>
    requires ld.curFile <= |ld.files|
  {
    if ld.sequential then
      if ld.curFile == |ld.files| then Err(NoMoreFiles) else Ok((ld.files[ld.curFile], ld.curFile + 1))
    else if |ld.files| == 0 then Err(NoFiles)
    else Ok((ld.files[draw.file % |ld.files|], ld.curFile))
  }

  /** A rearrangement of valid rooms holds only valid rooms. */
  lemma RearrangedRoomsGood(rooms: seq<Grid>, order: seq<Grid>)
    requires multiset(order) == multiset(rooms)
    requires forall k :: 0 <= k < |rooms| ==> GoodRoom(rooms[k])
    ensures forall k :: 0 <= k < |order| ==> GoodRoom(order[k])
  {
    forall k | 0 <= k < |order|
      ensures GoodRoom(order[k])
    {
      assert order[k] in multiset(rooms);
    }
  }

  /** `LoadFile`: replaces the rooms with those of the next file (sequential mode) or of a drawn
      file, shuffled (random mode). */
  function LoadFile(ld: Loader, draw: Draw): (r: Result<Loader, LoadError>)
    requires ld.curFile <= |ld.files|
    ensures r.Ok? ==> && r.value == ld.(levels := r.value.levels, curFile := r.value.curFile)
                      && |r.value.levels| > 0 && r.value.curFile <= |r.value.files|
                      && forall k :: 0 <= k < |r.value.levels| ==> GoodRoom(r.value.levels[k])
    ensures ld.sequential && ld.curFile == |ld.files| ==> r == Err(NoMoreFiles)
    ensures ld.sequential && ld.curFile < |ld.files| ==>
              match ParseRooms(ld.files[ld.curFile])
              case Err(e) => r == Err(e)
              case Ok(rooms) => if rooms == [] then r == Err(NoLevels)
                                else r.Ok? && r.value.levels == rooms && r.value.curFile == ld.curFile + 1
    ensures !ld.sequential && |ld.files| == 0 ==> r == Err(NoFiles)
    ensures r.Err? ==> ParseFailure(r.error) || r.error in {NoMoreFiles, NoFiles, NoLevels}
    ensures !ld.sequential && |ld.files| > 0 ==>
              match ParseRooms(ld.files[draw.file % |ld.files|])
              case Err(e) => r == Err(e)
              case Ok(rooms) => if rooms == [] then r == Err(NoLevels)
                                else && r.Ok? && multiset(r.value.levels) == multiset(rooms)
                                     && r.value.curFile == ld.curFile
  {
    var picked :- PickFile(ld, draw);
    var rooms :- ParseRooms(picked.0);
    var order := if ld.sequential then rooms else Shuffle(rooms, draw.swap);
    if |order| == 0 then Err(NoLevels)
    else
      RearrangedRoomsGood(rooms, order);
      Ok(ld.(levels := order, curFile := picked.1))
  }

  /** `GetLevel`: the room under the cursor, loading a new file first when the cursor is at the end
      of the current one; refused once the cap is reached. */
  function GetLevel(ld: Loader, draw: Draw): (r: Result<(Grid, Loader), LoadError>)
    requires Valid(ld)
    ensures r == Err(AllLevelsLoaded) <==> ld.nToLoad > 0 && ld.loaded >= ld.nToLoad
    ensures r != Err(NoLevelsLoaded)
    ensures r.Ok? ==> && Valid(r.value.1) && GoodRoom(r.value.0)
                      && r.value.1.loaded == ld.loaded + 1
                      && r.value.1.cursor > 0 && r.value.0 == r.value.1.levels[r.value.1.cursor - 1]
    ensures r.Ok? && ld.cursor < |ld.levels| ==>
              && r.value.0 == ld.levels[ld.cursor]
              && r.value.1 == ld.(cursor := ld.cursor + 1, loaded := ld.loaded + 1)
    ensures r.Ok? && ld.cursor == |ld.levels| ==> r.value.1.cursor == 1
    ensures r.Err? && r.error != AllLevelsLoaded ==> ld.cursor == |ld.levels|
  {
    if ld.nToLoad > 0 && ld.loaded >= ld.nToLoad then Err(AllLevelsLoaded)
    else
      var current :-
        if ld.cursor == |ld.levels| then
          (match LoadFile(ld, draw)
           case Err(e) => Err(e)
           case Ok(reloaded) => Ok(reloaded.(cursor := 0)))
        else Ok(ld);
      if current.cursor == |current.levels| then Err(NoLevelsLoaded)
      else Ok((current.levels[current.cursor], current.(cursor := current.cursor + 1, loaded := current.loaded + 1)))
  }

  /** At the end of the loaded rooms and below the cap, `GetLevel` loads a file and serves its first
      room with the cursor on the second, or passes on the load's error. */
  lemma GetLevelReloads(ld: Loader, draw: Draw)
    requires Valid(ld) && ld.cursor == |ld.levels| && !(ld.nToLoad > 0 && ld.loaded >= ld.nToLoad)
    ensures match LoadFile(ld, draw)
            case Err(e) => GetLevel(ld, draw) == Err(e)
            case Ok(l) => |l.levels| > 0 && GetLevel(ld, draw) == Ok((l.levels[0], l.(cursor := 1, loaded := ld.loaded + 1)))
  {
  }

  /** Serving one room per draw, stopping at the first refusal. */
  function ServeAll(ld: Loader, draws: seq<Draw>): (r: Result<(seq<Grid>, Loader), LoadError>)
    requires Valid(ld)
    ensures r.Ok? ==> Valid(r.value.1) && |r.value.0| == |draws| && r.value.1.loaded == ld.loaded + |draws|
    decreases |draws|
  {
    if |draws| == 0 then Ok(([], ld))
    else
      var (g, next) :- GetLevel(ld, draws[0]);
      var (gs, last) :- ServeAll(next, draws[1..]);
      Ok(([g] + gs, last))
  }

  /** With a positive cap, no run of requests is served more rooms than the cap leaves. */
  lemma {:induction false} CapBoundsRun(ld: Loader, draws: seq<Draw>)
    requires Valid(ld) && ld.nToLoad > 0 && |draws| > 0
    ensures ServeAll(ld, draws).Ok? ==> ld.loaded + |draws| <= ld.nToLoad
    decreases |draws|
  {
    var first := GetLevel(ld, draws[0]);
    if first.Ok? && |draws| > 1 {
      CapBoundsRun(first.value.1, draws[1..]);
    }
  }

  /** In sequential mode with no cap, a fresh loader serves the first file's rooms in file order. */
  lemma {:induction false} SequentialServesFileOrder(files: seq<Lines>, draws: seq<Draw>)
    requires |files| > 0 && ParseRooms(files[0]).Ok?
    requires |draws| <= |ParseRooms(files[0]).value|
    ensures var r := ServeAll(NewLoader(true, 0, files), draws);
            r.Ok? && r.value.0 == ParseRooms(files[0]).value[..|draws|]
  {
    var rooms := ParseRooms(files[0]).value;
    if |draws| > 0 {
      var ld := NewLoader(true, 0, files);
      var first := GetLevel(ld, draws[0]);
      assert first.Ok? && first.value.0 == rooms[0];
      assert first.value.1 == Loader(true, 0, 1, rooms, 1, files, 1);
      ServeFrom(first.value.1, draws[1..]);
      assert rooms[..|draws|] == [rooms[0]] + rooms[1..|draws|];
    }
  }

  /** Without a cap, a loader whose cursor has `m` rooms left serves those rooms in order. */
  lemma {:induction false} ServeFrom(ld: Loader, draws: seq<Draw>)
    requires Valid(ld) && ld.nToLoad == 0 && ld.cursor + |draws| <= |ld.levels|
    ensures var r := ServeAll(ld, draws);
            r.Ok? && r.value.0 == ld.levels[ld.cursor..ld.cursor + |draws|]
    decreases |draws|
  {
    if |draws| > 0 {
      var next := ld.(cursor := ld.cursor + 1, loaded := ld.loaded + 1);
      ServeFrom(next, draws[1..]);
      ServeHead(ld, draws);
    } else {
      assert ld.levels[ld.cursor..ld.cursor] == [];
    }
  }

  /** One step of `ServeAll` from a loader that still has an unserved room and no cap: the rooms
      served are that room followed by what the advanced loader serves. */
  lemma ServeHead(ld: Loader, draws: seq<Draw>)
    requires Valid(ld) && ld.nToLoad == 0 && ld.cursor + |draws| <= |ld.levels| && |draws| > 0
    ensures var next := ld.(cursor := ld.cursor + 1, loaded := ld.loaded + 1);
            var rest := ServeAll(next, draws[1..]);
            Valid(next) &&
            (rest.Ok? && rest.value.0 == next.levels[next.cursor..next.cursor + |draws[1..]|] ==>
               && ServeAll(ld, draws).Ok?
               && ServeAll(ld, draws).value.0 == ld.levels[ld.cursor..ld.cursor + |draws|])
  {
    var next := ld.(cursor := ld.cursor + 1, loaded := ld.loaded + 1);
    assert GetLevel(ld, draws[0]) == Ok((ld.levels[ld.cursor], next));
    assert ld.levels[ld.cursor..ld.cursor + |draws|]
        == [ld.levels[ld.cursor]] + ld.levels[ld.cursor + 1..ld.cursor + |draws|];
  }
}
